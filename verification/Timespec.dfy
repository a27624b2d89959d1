/** Seconds and timespecs (src/utils.c), over the reals. */
module Timespec {

  datatype Timespec = Timespec(sec: int, nsec: int)

  const GIGA := 1000000000.0

  /** A C conversion to an integer: towards zero. */
  function Truncate(x: real): int {
    if x >= 0.0 then x.Floor else -((-x).Floor)
  }

  /** luajack_sectots */
  function FromSeconds(seconds: real): Timespec {
    var sec := Truncate(seconds);
    Timespec(sec, Truncate((seconds - sec as real) * GIGA))
  }

  /** luajack_tstosec */
  function ToSeconds(ts: Timespec): real {
    ts.sec as real + ts.nsec as real / GIGA
  }

  lemma TruncateNear(x: real)
    ensures x >= 0.0 ==> 0 <= Truncate(x) && Truncate(x) as real <= x < Truncate(x) as real + 1.0
    ensures x <= 0.0 ==> Truncate(x) <= 0 && x <= Truncate(x) as real < x + 1.0
  {
  }

  /** Both parts have the sign of the time, the nanoseconds stay below a second, and the time that the
      two parts make, which is what converting back gives, is less than a nanosecond off, towards zero. */
  lemma LosesLessThanANanosecond(seconds: real)
    ensures var ts := FromSeconds(seconds);
            var back := ts.sec as real + ts.nsec as real * 0.000000001;
            ToSeconds(ts) == back &&
            if seconds >= 0.0
            then 0 <= ts.sec && 0 <= ts.nsec < 1000000000 && back <= seconds < back + 0.000000001
            else ts.sec <= 0 && -1000000000 < ts.nsec <= 0 && seconds <= back < seconds + 0.000000001
  {
    TruncateNear(seconds);
    var rest := seconds - Truncate(seconds) as real;
    TruncateNear(rest * GIGA);
  }

  /** A timespec whose parts have one sign is what its own time is converted to. */
  lemma ExactBack(ts: Timespec)
    requires (0 <= ts.sec && 0 <= ts.nsec < 1000000000) || (ts.sec <= 0 && -1000000000 < ts.nsec <= 0)
    ensures FromSeconds(ToSeconds(ts)) == ts
  {
    var x := ToSeconds(ts);
    TruncateNear(x);
    assert Truncate(x) == ts.sec;
    assert (x - ts.sec as real) * GIGA == ts.nsec as real;
  }
}
