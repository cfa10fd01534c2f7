/** `pg_hello(name)`: the phrase "Hello, <name>!" repeated as many times as the
    `pg_hello.repeat` setting says, consecutive phrases separated by one space.
    The C function builds the text in a growable string buffer; here the buffer
    is a class over a `seq<char>`, and the loop is proved to produce the
    closed form `GreetingText(name, n)`. */
module Greeting {
  import opened RepeatSetting

  const Salutation: string := "Hello, "
  const Closing: string := "!"
  const Separator: string := " "

  /** PostgreSQL's StringInfoData as the loop uses it: a text buffer that only
      grows at its end.  Capacity and reallocation are not modelled. */
  class StringInfo {
    var data: string

    /** initStringInfo: an empty buffer. */
    constructor ()
      ensures data == []
    {
      data := [];
    }

    /** appendStringInfoString: the argument is copied to the end. */
    method AppendString(s: string)
      modifies this
      ensures data == old(data) + s
    {
      data := data + s;
    }
  }

  /** What `appendStringInfo(&buf, "Hello, %s!", cname)` appends: the name is the
      `%s` argument, so it is copied verbatim between the fixed parts and never
      read as a format itself. */
  function Phrase(name: string): (p: string)
    ensures |p| == |name| + 8
    ensures p[..7] == "Hello, " && p[7..|name| + 7] == name && p[|name| + 7] == '!'
  {
    Salutation + name + Closing
  }

  /** The parts, with a single space between each two consecutive ones. */
  function Join(parts: seq<string>): string
    decreases |parts|
  {
    if |parts| == 0 then ""
    else if |parts| == 1 then parts[0]
    else parts[0] + Separator + Join(parts[1..])
  }

  function Copies(x: string, n: nat): (r: seq<string>)
    ensures |r| == n
    ensures forall i :: 0 <= i < n ==> r[i] == x
  {
    seq(n, _ => x)
  }

  /** The closed form of the result: n copies of the phrase joined by spaces. */
  function GreetingText(name: string, n: nat): string {
    Join(Copies(Phrase(name), n))
  }

  /** Appending a part at the end of a join adds one separator before it (none
      when the join was empty). */
  lemma {:induction false} JoinSnoc(parts: seq<string>, x: string)
    ensures Join(parts + [x]) == if parts == [] then x else Join(parts) + Separator + x
    decreases |parts|
  {
    if |parts| == 0 {
      assert parts + [x] == [x];
    } else if |parts| == 1 {
      assert (parts + [x])[1..] == [x];
    } else {
      assert (parts + [x])[1..] == parts[1..] + [x];
      JoinSnoc(parts[1..], x);
    }
  }

  /** One more iteration of the loop: a space (except before the first phrase),
      then the phrase. */
  lemma GreetingStep(name: string, n: nat)
    ensures GreetingText(name, n + 1) ==
            if n == 0 then Phrase(name) else GreetingText(name, n) + Separator + Phrase(name)
  {
    var p := Phrase(name);
    assert Copies(p, n + 1) == Copies(p, n) + [p];
    JoinSnoc(Copies(p, n), p);
  }

  /** The C function: read the repeat count, then loop that many times over a
      fresh buffer, adding a space before every phrase but the first. */
  method PgHello(setting: Setting, name: string) returns (result: string)
    requires setting.Valid()
    ensures result == GreetingText(name, setting.value)
  {
    var buf := new StringInfo();
    var n := setting.Get();
    for i := 0 to n
      invariant buf.data == GreetingText(name, i)
    {
      if i > 0 {
        buf.AppendString(Separator);
      }
      buf.AppendString(Phrase(name));
      GreetingStep(name, i);
    }
    result := buf.data;
  }

  /** Where slot k starts: each phrase plus the space after it takes
      |name| + 9 characters. */
  function Start(name: string, k: nat): nat {
    if k == 0 then 0 else Start(name, k - 1) + |name| + 9
  }

  lemma {:induction false} StartIsMultiple(name: string, k: nat)
    ensures Start(name, k) == k * (|name| + 9)
    decreases k
  {
    if k > 0 {
      StartIsMultiple(name, k - 1);
    }
  }

  lemma {:induction false} StartMonotone(name: string, j: nat, k: nat)
    requires j <= k
    ensures Start(name, j) <= Start(name, k)
    decreases k
  {
    if j < k {
      StartMonotone(name, j, k - 1);
    }
  }

  /** Slot k of s holds the phrase. */
  ghost predicate PhraseAt(s: string, name: string, k: nat) {
    Start(name, k) + |name| + 8 <= |s| &&
    s[Start(name, k) .. Start(name, k) + |name| + 8] == Phrase(name)
  }

  /** The character just after slot k is a space. */
  ghost predicate SeparatorAt(s: string, name: string, k: nat) {
    Start(name, k) + |name| + 8 < |s| && s[Start(name, k) + |name| + 8] == ' '
  }

  /** The shape of a greeting with n phrases: n phrases, a space after each but
      the last, and nothing before the first or after the last. */
  ghost predicate Layout(s: string, name: string, n: nat) {
    |s| == Start(name, n) - 1 &&
    (forall k: nat :: k < n ==> PhraseAt(s, name, k)) &&
    (forall k: nat :: k + 1 < n ==> SeparatorAt(s, name, k))
  }

  lemma {:induction false} GreetingHasLayout(name: string, n: nat)
    requires n >= 1
    ensures Layout(GreetingText(name, n), name, n)
    decreases n
  {
    var p, len := Phrase(name), |name| + 8;
    if n == 1 {
      GreetingStep(name, 0);
      assert GreetingText(name, 1)[Start(name, 0) .. Start(name, 0) + len] == p;
    } else {
      var m := n - 1;
      GreetingHasLayout(name, m);
      GreetingStep(name, m);
      var g := GreetingText(name, m);
      var s := GreetingText(name, n);
      assert s == g + Separator + p;
      forall k: nat | k < n
        ensures PhraseAt(s, name, k)
      {
        if k < m {
          assert PhraseAt(g, name, k);
          assert s[Start(name, k) .. Start(name, k) + len] == g[Start(name, k) .. Start(name, k) + len];
        } else {
          assert s[Start(name, k) ..] == p;
        }
      }
      forall k: nat | k + 1 < n
        ensures SeparatorAt(s, name, k)
      {
        if k + 1 < m {
          assert SeparatorAt(g, name, k);
        }
      }
    }
  }

  /** The first n - 1 slots of an n-phrase layout, without the space after
      them, are a layout of their own. */
  lemma LayoutPrefix(s: string, name: string, m: nat)
    requires m >= 1
    requires Layout(s, name, m + 1)
    ensures Layout(s[.. Start(name, m) - 1], name, m)
  {
    var g, len := s[.. Start(name, m) - 1], |name| + 8;
    forall k: nat | k < m
      ensures PhraseAt(g, name, k)
    {
      assert PhraseAt(s, name, k);
      StartMonotone(name, k + 1, m);
      assert g[Start(name, k) .. Start(name, k) + len] == s[Start(name, k) .. Start(name, k) + len];
    }
    forall k: nat | k + 1 < m
      ensures SeparatorAt(g, name, k)
    {
      assert SeparatorAt(s, name, k);
      StartMonotone(name, k + 1, m - 1);
    }
  }

  lemma {:induction false} LayoutIsGreeting(s: string, name: string, n: nat)
    requires n >= 1
    requires Layout(s, name, n)
    ensures s == GreetingText(name, n)
    decreases n
  {
    GreetingStep(name, n - 1);
    if n == 1 {
      assert PhraseAt(s, name, 0);
      assert s == s[Start(name, 0) .. Start(name, 0) + |name| + 8];
    } else {
      var m := n - 1;
      var g := s[.. Start(name, m) - 1];
      LayoutPrefix(s, name, m);
      LayoutIsGreeting(g, name, m);
      assert SeparatorAt(s, name, m - 1);
      assert PhraseAt(s, name, m);
      assert s == g + Separator + s[Start(name, m) ..];
    }
  }

  /** The closed form and the layout describe the same strings: a string has
      the greeting's layout exactly when it is the greeting. */
  lemma GreetingIffLayout(s: string, name: string, n: nat)
    requires n >= 1
    ensures s == GreetingText(name, n) <==> Layout(s, name, n)
  {
    if s == GreetingText(name, n) {
      GreetingHasLayout(name, n);
    }
    if Layout(s, name, n) {
      LayoutIsGreeting(s, name, n);
    }
  }

  /** n phrases of |name| + 8 characters and n - 1 one-character separators. */
  lemma {:induction false} GreetingLength(name: string, n: nat)
    requires n >= 1
    ensures |GreetingText(name, n)| == n * (|name| + 8) + (n - 1)
    decreases n
  {
    GreetingStep(name, n - 1);
    if n > 1 {
      GreetingLength(name, n - 1);
    }
  }

  /** No leading and no trailing separator: the text starts with the
      salutation and ends with the closing mark of the last phrase. */
  lemma GreetingEnds(name: string, n: nat)
    requires n >= 1
    ensures |GreetingText(name, n)| >= |name| + 8
    ensures GreetingText(name, n)[..7] == "Hello, "
    ensures GreetingText(name, n)[|GreetingText(name, n)| - 1] == '!'
  {
    var s, len := GreetingText(name, n), |name| + 8;
    GreetingHasLayout(name, n);
    assert PhraseAt(s, name, 0);
    assert s[..7] == s[Start(name, 0) .. Start(name, 0) + len][..7];
    assert PhraseAt(s, name, n - 1);
    assert s[|s| - 1] == s[Start(name, n - 1) .. Start(name, n - 1) + len][len - 1];
  }

  /** With the default repeat count the result is exactly one phrase. */
  lemma DefaultIsOnePhrase(name: string)
    ensures GreetingText(name, Default) == "Hello, " + name + "!"
  {
  }

  /** An empty name is not an error: every phrase is "Hello, !". */
  lemma EmptyName(n: nat)
    requires n >= 1
    ensures GreetingText("", n) == Join(Copies("Hello, !", n))
    ensures |GreetingText("", n)| == 9 * n - 1
  {
    assert Phrase("") == "Hello, !";
    GreetingLength("", n);
  }

  /** Three phrases for "PostgreSQL". */
  lemma ThreePhrases()
    ensures GreetingText("PostgreSQL", 3) == "Hello, PostgreSQL! Hello, PostgreSQL! Hello, PostgreSQL!"
  {
    GreetingStep("PostgreSQL", 0);
    GreetingStep("PostgreSQL", 1);
    GreetingStep("PostgreSQL", 2);
    ThreeJoined(Phrase("PostgreSQL"));
  }

  lemma ThreeJoined(p: string)
    requires p == "Hello, PostgreSQL!"
    ensures p + Separator + p + Separator + p == "Hello, PostgreSQL! Hello, PostgreSQL! Hello, PostgreSQL!"
  {
  }

  /** Setting the count to 3 and greeting "PostgreSQL". */
  method RepeatThreeScenario() returns (g: string)
    ensures g == "Hello, PostgreSQL! Hello, PostgreSQL! Hello, PostgreSQL!"
  {
    var setting := new Setting();
    var accepted := setting.Set(3);
    g := PgHello(setting, "PostgreSQL");
    ThreePhrases();
  }

  /** The default setting greeting "World". */
  method DefaultScenario() returns (g: string)
    ensures g == "Hello, World!"
  {
    var setting := new Setting();
    g := PgHello(setting, "World");
    DefaultIsOnePhrase("World");
  }
}
