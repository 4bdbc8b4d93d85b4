/** Microsecond timestamps: a signed count of microseconds since the Unix
    epoch, compared and converted with integer arithmetic only. */
module Timestamps {
  import opened Common

  const MicroSecondsPerSecond: int := 1000 * 1000

  datatype Timestamp = Timestamp(microSecondsSinceEpoch: int)

  /** `Timestamp()`: the epoch itself. */
  function Epoch(): (t: Timestamp)
    ensures t.microSecondsSinceEpoch == 0
  {
    Timestamp(0)
  }

  /** `Timestamp::invalid()` is the default-constructed timestamp. */
  function Invalid(): (t: Timestamp)
    ensures t == Epoch()
  {
    Epoch()
  }

  /** Whole seconds, truncated toward zero as the int64 division does. */
  function SecondsSinceEpoch(t: Timestamp): (s: int)
    ensures t.microSecondsSinceEpoch >= 0 ==>
              s * MicroSecondsPerSecond <= t.microSecondsSinceEpoch < (s + 1) * MicroSecondsPerSecond
  {
    CDiv(t.microSecondsSinceEpoch, MicroSecondsPerSecond)
  }

  /** `fromUnixTime(t, microseconds)`: `t` seconds and `microseconds`. */
  function FromUnixTime(t: int, microseconds: int): (ts: Timestamp)
    ensures ts.microSecondsSinceEpoch - microseconds == t * MicroSecondsPerSecond
  {
    Timestamp(t * MicroSecondsPerSecond + microseconds)
  }

  /** `fromUnixTime(t)`: whole seconds, which `secondsSinceEpoch` gives
      back on either side of the epoch. */
  function FromUnixTimeSeconds(t: int): (ts: Timestamp)
    ensures ts.microSecondsSinceEpoch == t * MicroSecondsPerSecond
    ensures SecondsSinceEpoch(ts) == t
  {
    var ts := FromUnixTime(t, 0);
    assert SecondsSinceEpoch(ts) == t by {
      if t >= 0 {
        DivisionUnique(t * MicroSecondsPerSecond, MicroSecondsPerSecond, t, 0);
      } else {
        DivisionUnique(-t * MicroSecondsPerSecond, MicroSecondsPerSecond, -t, 0);
      }
    }
    ts
  }

  predicate Less(a: Timestamp, b: Timestamp)
  {
    a.microSecondsSinceEpoch < b.microSecondsSinceEpoch
  }

  /** Whole seconds survive the trip through microseconds whenever the
      sub-second part is a proper fraction of a second. */
  lemma SecondsRoundTrip(t: int, us: int)
    requires t >= 0 && 0 <= us < MicroSecondsPerSecond
    ensures SecondsSinceEpoch(FromUnixTime(t, us)) == t
  {
    var m := t * MicroSecondsPerSecond + us;
    DivisionUnique(m, MicroSecondsPerSecond, t, us);
  }

  /** Before the epoch truncation rounds toward zero: half a second before
      the epoch still reports second 0. */
  lemma NegativeSecondsTruncate()
    ensures SecondsSinceEpoch(FromUnixTime(-1, 500000)) == 0
    ensures SecondsSinceEpoch(FromUnixTimeSeconds(-1)) == -1
  {
  }

  /** `operator<` and `operator==` order timestamps by their microsecond
      count: a strict total order whose equality is value equality. */
  lemma LessIsStrictTotalOrder(a: Timestamp, b: Timestamp, c: Timestamp)
    ensures !Less(a, a)
    ensures Less(a, b) && Less(b, c) ==> Less(a, c)
    ensures a == b || Less(a, b) || Less(b, a)
  {
  }
}
