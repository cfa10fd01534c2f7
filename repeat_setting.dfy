/** The `pg_hello.repeat` setting: one integer cell, default 1, bounds [1, 10].
    The C code only declares the bounds when it registers the variable; the
    host's configuration layer refuses values outside them.  `Set` below plays
    that host role, so the cell can never hold an out-of-range value. */
module RepeatSetting {

  const Default: int := 1
  const Min: int := 1
  const Max: int := 10

  /** The values the host accepts for the setting. */
  predicate InRange(v: int) {
    Min <= v <= Max
  }

  class Setting {
    var value: int

    ghost predicate Valid()
      reads this
    {
      InRange(value)
    }

    /** Registration: the cell starts at the declared default. */
    constructor ()
      ensures Valid()
      ensures value == Default
    {
      value := Default;
    }

    /** Reading the cell, as `pg_hello` does: always a value in [1, 10]. */
    method Get() returns (v: int)
      requires Valid()
      ensures v == value
      ensures Min <= v <= Max
    {
      v := value;
    }

    /** An assignment attempt through the host: accepted exactly when the value
        is within the declared bounds; a rejected attempt changes nothing. */
    method Set(v: int) returns (accepted: bool)
      requires Valid()
      modifies this
      ensures Valid()
      ensures accepted <==> Min <= v <= Max
      ensures accepted ==> value == v
      ensures !accepted ==> value == old(value)
    {
      accepted := InRange(v);
      if accepted {
        value := v;
      }
    }
  }

  /** A caller's view: the attempts at 0 and 11 are both refused and leave
      the value where it was. */
  method RejectsOutOfRange(s: Setting) returns (before: int, after: int)
    requires s.Valid()
    modifies s
    ensures before == old(s.value)
    ensures after == before && s.value == before
  {
    before := s.value;
    var okLow := s.Set(0);
    var okHigh := s.Set(11);
    assert !okLow && !okHigh;
    after := s.Get();
  }
}
