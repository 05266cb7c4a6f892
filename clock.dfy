/**
 * Time of day as a count of microseconds since midnight, the precision of
 * the `datetime.time` values the scripts compare.
 */
module Clock {

  const MicrosPerSecond: int := 1_000_000
  const MicrosPerDay: int := 86_400 * MicrosPerSecond

  type TimeOfDay = t: int | 0 <= t < MicrosPerDay

  /**
   * The time of day hh:mm:ss.uuuuuu: reading the hour, minute, second and
   * microsecond back out of it gives the four fields again.
   */
  function At(h: nat, m: nat, s: nat, us: nat): (t: TimeOfDay)
    requires h < 24 && m < 60 && s < 60 && us < MicrosPerSecond
    ensures t % MicrosPerSecond == us
    ensures t / MicrosPerSecond % 60 == s
    ensures t / (60 * MicrosPerSecond) % 60 == m
    ensures t / (3600 * MicrosPerSecond) == h
  {
    ((h * 60 + m) * 60 + s) * MicrosPerSecond + us
  }

  /** The chained comparison `open <= t <= close`: inclusive at both ends. */
  function InWindow(t: TimeOfDay, open: TimeOfDay, close: TimeOfDay): (inside: bool)
    ensures inside ==> open <= close
    ensures inside <==> !(t < open) && !(close < t)
  {
    open <= t <= close
  }

  /** Later clock readings compare later: `At` is strictly increasing in hh:mm:ss.uuuuuu. */
  lemma AtIncreasing(h: nat, m: nat, s: nat, us: nat, h': nat, m': nat, s': nat, us': nat)
    requires h < 24 && m < 60 && s < 60 && us < MicrosPerSecond
    requires h' < 24 && m' < 60 && s' < 60 && us' < MicrosPerSecond
    requires h < h' || (h == h' && (m < m' || (m == m' && (s < s' || (s == s' && us < us')))))
    ensures At(h, m, s, us) < At(h', m', s', us')
  {
    var a := (h * 60 + m) * 60 + s;
    var b := (h' * 60 + m') * 60 + s';
    if a < b {
      assert a + 1 <= b;
      assert a * MicrosPerSecond + MicrosPerSecond <= b * MicrosPerSecond;
    }
  }
}
