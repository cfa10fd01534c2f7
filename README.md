# pg_hello, modelled in Dafny

`pg_hello` is a small PostgreSQL extension written in C (`pg-hello/src/pg_hello.c`).
This project models the part of it that has behaviour of its own:

- the `pg_hello.repeat` setting (`hello_repeat`): one integer with default 1 and
  bounds [1, 10] (module `RepeatSetting`, class `Setting`);
- the SQL function `pg_hello(name)`: a loop that appends into a growable string
  buffer `"Hello, <name>!"` once per repeat, with one space before every phrase
  but the first (module `Greeting`: a `StringInfo` buffer class, the method
  `PgHello` with its loop, and the closed form `GreetingText(name, n)`, that is, n
  copies of the phrase joined by single spaces);
- the SQL function `now_ms()`: a timestamp in microseconds since 2000-01-01
  divided by 1000 with C's truncating division (module `Clock`).

`PgHello` is proved to return `GreetingText(name, n)` for the current repeat count
n. Several lemmas then describe that closed form without referring to how it
is built. `GreetingIffLayout` says a string equals `GreetingText(name, n)` exactly
when it has the greeting's layout: phrase k starts at offset `k * (|name| + 9)`,
a space follows every phrase except the last, and nothing comes before the
first phrase or after the last. `GreetingLength` gives the length
`n * (|name| + 8) + (n - 1)`.

`NowMs` is proved to truncate toward zero. Its result is pinned down by
the bounds in its contract (`NowMsCharacterized`). It is odd (`NowMsOdd`) and
monotone (`NowMsMonotone`). For negative timestamps it differs from Dafny's
Euclidean `/` (`TruncationDiffersFromEuclidean`).

Two facts about the code shape the model:

- PostgreSQL timestamps count from 2000-01-01, so `now_ms` is negative for any
  earlier instant; `NowMs` covers negative inputs.
- The C file never checks the repeat count itself. It only declares the
  bounds to the host (`DefineCustomIntVariable`), and the host's configuration
  layer refuses values outside them. In the model, `Setting.Set` performs that
  host check, so any `Setting` that the model can reach holds a value in [1, 10].

Text is `seq<char>`. The conversions `text_to_cstring` and `cstring_to_text`
are treated as the identity. The timestamp is a parameter of `NowMs` instead of
a call to `GetCurrentTimestamp()`.

## Model

| member | source | states |
|---|---|---|
| `RepeatSetting.Setting.constructor` | pg-hello/src/pg_hello.c:14-24 | the setting starts at its default 1, within the bounds |
| `RepeatSetting.Setting.Get` | pg-hello/src/pg_hello.c:14-26 | reading the setting always yields a value in [1, 10] |
| `RepeatSetting.Setting.Set` | pg-hello/src/pg_hello.c:19-30 | an attempt is accepted exactly when the value is in [1, 10]; accepted, the cell holds it; rejected, the cell is unchanged; the bounds invariant is kept |
| `RepeatSetting.RejectsOutOfRange` | pg-hello/src/pg_hello.c:25-26 | attempts to set 0 and 11 leave the value where it was |
| `Greeting.StringInfo.constructor` | pg-hello/src/pg_hello.c:48-49 | `initStringInfo` gives an empty buffer |
| `Greeting.StringInfo.AppendString` | pg-hello/src/pg_hello.c:52 | an append adds its argument at the end and changes nothing else |
| `Greeting.Phrase` | pg-hello/src/pg_hello.c:53 | the phrase is 8 characters longer than the name, starts with "Hello, ", holds the name verbatim at offset 7 and ends with "!" |
| `Greeting.JoinSnoc` | pg-hello/src/pg_hello.c:52 | appending one more part to a space-joined text adds exactly one separator before it, none when the text was empty |
| `Greeting.GreetingStep` | pg-hello/src/pg_hello.c:50-54 | one loop iteration turns i joined phrases into i + 1 joined phrases: a space (except when i = 0), then the phrase |
| `Greeting.PgHello` | pg-hello/src/pg_hello.c:39-58 | the result is n copies of "Hello, " + name + "!" joined by single spaces, n being the setting's current value; the loop invariant says that after i iterations the buffer holds i joined phrases, 0 <= i <= n |
| `Greeting.GreetingHasLayout` | pg-hello/src/pg_hello.c:50-54 | a greeting of n >= 1 phrases has phrase k at its k-th slot, a space after every phrase but the last, and length `Start(n) - 1` (no leading or trailing space) |
| `Greeting.LayoutIsGreeting` | pg-hello/src/pg_hello.c:50-54 | any string with that layout is the greeting |
| `Greeting.GreetingIffLayout` | pg-hello/src/pg_hello.c:50-54 | both directions: a string is the n-phrase greeting if and only if it has the layout |
| `Greeting.StartIsMultiple` | pg-hello/src/pg_hello.c:52-53 | slot k of the layout begins at offset k * (L + 9), L being the name's length |
| `Greeting.GreetingLength` | pg-hello/src/pg_hello.c:52-53 | the length is n * (L + 8) + (n - 1), L being the name's length |
| `Greeting.GreetingEnds` | pg-hello/src/pg_hello.c:52 | the output starts with "Hello, " and ends with "!": no separator before the first phrase or after the last |
| `Greeting.DefaultIsOnePhrase` | pg-hello/src/pg_hello.c:14-24 | with the default count the result is exactly "Hello, " + name + "!" |
| `Greeting.EmptyName` | pg-hello/src/pg_hello.c:53 | an empty name gives "Hello, !" n times, of length 9n - 1, and no error |
| `Greeting.ThreePhrases` | pg-hello/src/pg_hello.c:50-54 | with three repeats, "PostgreSQL" gives "Hello, PostgreSQL! Hello, PostgreSQL! Hello, PostgreSQL!" |
| `Greeting.RepeatThreeScenario` | pg-hello/src/pg_hello.c:39-58 | after setting the count to 3, calling the function on "PostgreSQL" returns those three phrases |
| `Greeting.DefaultScenario` | pg-hello/src/pg_hello.c:39-58 | with a freshly registered setting, "World" gives "Hello, World!" |
| `Clock.TruncDiv` | pg-hello/src/pg_hello.c:68 | C's integer division by a positive divisor: the quotient rounded toward zero, so the remainder has the dividend's sign |
| `Clock.NowMs` | pg-hello/src/pg_hello.c:61-70 | for micros >= 0, millis * 1000 <= micros < millis * 1000 + 1000; for micros < 0, millis * 1000 - 1000 < micros <= millis * 1000 and millis = -((-micros) / 1000); the result fits in 64 bits |
| `Clock.SymmetricTrunc` | pg-hello/src/pg_hello.c:68 | for a negative dividend, truncating division is the negation of the division of its absolute value |
| `Clock.NowMsCharacterized` | pg-hello/src/pg_hello.c:68 | the bounds in `NowMs`'s contract determine the result: no other integer satisfies them |
| `Clock.NowMsOdd` | pg-hello/src/pg_hello.c:68 | negating the timestamp negates the milliseconds |
| `Clock.NowMsMonotone` | pg-hello/src/pg_hello.c:68 | a later timestamp never gives fewer milliseconds |
| `Clock.TruncationDiffersFromEuclidean` | pg-hello/src/pg_hello.c:67-68 | one microsecond before the epoch is millisecond 0 (Euclidean division would give -1), and -1999 microseconds is millisecond -1 (Euclidean: -2) |

## Left out

- `spi_version` (pg-hello/src/pg_hello.c:73-97): it is made of calls into the server's query executor (`SPI_connect`, `SPI_execute`, `SPI_getbinval`, `SPI_finish`), whose behaviour is not part of this model. Its own logic is only the null-to-"NULL" substitution and the release before the error path.
- `GetCurrentTimestamp()`: the clock is not modelled, and `NowMs` takes the microsecond value as a parameter. Nothing is said about successive clock readings; `NowMsMonotone` is about the conversion only.
- The registration call `DefineCustomIntVariable` with its name, description and `PGC_USERSET` scope: only the default and the bounds are kept. Per-session copies of the setting and concurrent sessions belong to the host and are not modelled.
- The function-manager macros (`PG_FUNCTION_ARGS`, `PG_GETARG_TEXT_PP`, `PG_RETURN_*`), `PG_MODULE_MAGIC`, palloc and memory contexts: these are calling-convention plumbing.
- A null argument: the SQL declaration that makes the function strict is not in the C file, so the model takes a name that is always present.
- `StringInfo` capacity, reallocation and the host's about-1-GB limit on a string buffer, past which appending raises an error: the buffer is an unbounded sequence here.
- Formatting in `appendStringInfo`: the model expands the one format string `"Hello, %s!"` directly into `Phrase`, instead of modelling a printf-style formatter.
- Setting.Set: an out-of-range assignment makes the host report an error and abort the statement; the model shows that refusal only as the `false` result, with the value unchanged.
- Determinism of `pg_hello` for a fixed name and count holds because `Greeting` is a function. No separate lemma states it.
