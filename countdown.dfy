/** The countdown arithmetic of the landing page: the signed millisecond
    distance to the application deadline split into whole days, hours,
    minutes and seconds, each clamped at zero.

    JavaScript numbers are modelled as unbounded integers. Timestamps are
    integer milliseconds far below 2^52, so `Math.floor(a / b)` on them is
    exact floor division, and `%` is the language's truncating remainder. */
module Countdown {

  const MsPerSecond: int := 1000
  const MsPerMinute: int := 1000 * 60
  const MsPerHour: int := 1000 * 60 * 60
  const MsPerDay: int := 1000 * 60 * 60 * 24

  /** JavaScript's `a % b` on integers: the remainder of the division
      truncated toward zero, which takes the sign of the dividend. */
  function JsRem(a: int, b: int): (r: int)
    requires b > 0
    ensures a >= 0 ==> 0 <= r < b
    ensures a < 0 ==> -b < r <= 0
    ensures (a - r) % b == 0
  {
    if a < 0 then
      DivModUnique(a + (-a) % b, b, -((-a) / b), 0);
      -((-a) % b)
    else
      DivModUnique(a - a % b, b, a / b, 0);
      a % b
  }

  /** `Math.floor(a / b)` for a positive divisor: the largest q with q * b <= a. */
  function FloorDiv(a: int, b: int): (q: int)
    requires b > 0
    ensures q * b <= a < q * b + b
  {
    a / b
  }

  /** `Math.max(0, x)`. */
  function Max0(x: int): (r: int)
    ensures r >= 0 && r >= x
    ensures r == 0 || r == x
  {
    if x < 0 then 0 else x
  }

  /** The `timeLeft` record of the page. */
  datatype TimeLeft = TimeLeft(days: int, hours: int, minutes: int, seconds: int)

  const Zero: TimeLeft := TimeLeft(0, 0, 0, 0)

  /** What a countdown reading may look like: no negative field and each
      unit below the next larger one's size. */
  predicate WellFormed(t: TimeLeft) {
    0 <= t.days && 0 <= t.hours < 24 && 0 <= t.minutes < 60 && 0 <= t.seconds < 60
  }

  /** The whole seconds a reading stands for. */
  function TotalSeconds(t: TimeLeft): int {
    t.days * 86400 + t.hours * 3600 + t.minutes * 60 + t.seconds
  }

  /** The field computation of `updateCountdown`, for `distance = target - now`. */
  function Decompose(distance: int): (t: TimeLeft)
    ensures WellFormed(t)
  {
    TimeLeft(
      Max0(FloorDiv(distance, MsPerDay)),
      Max0(FloorDiv(JsRem(distance, MsPerDay), MsPerHour)),
      Max0(FloorDiv(JsRem(distance, MsPerHour), MsPerMinute)),
      Max0(FloorDiv(JsRem(distance, MsPerMinute), MsPerSecond)))
  }

  /** `v < 0 ? 0 : v`, applied to each field when it is displayed. */
  function Displayed(v: int): (shown: int)
    ensures shown >= 0
  {
    if v < 0 then 0 else v
  }

  // ---------------------------------------------------------------------
  // Euclidean division facts used below

  lemma DivModUnique(a: int, b: int, q: int, r: int)
    requires b > 0 && 0 <= r < b && a == q * b + r
    ensures a / b == q && a % b == r
  {
    var q', r' := a / b, a % b;
    assert a == q' * b + r';
    if q' < q {
      assert q' * b + b <= q * b by { LessTimes(q', q, b); }
    } else if q < q' {
      assert q * b + b <= q' * b by { LessTimes(q, q', b); }
    }
  }

  lemma LessTimes(x: int, y: int, b: int)
    requires x < y && b > 0
    ensures x * b + b <= y * b
  {
    var d := y - x - 1;
    assert d * b >= 0;
    assert y * b == x * b + b + d * b;
  }

  /** Dividing by b * k is dividing by b, then by k; and the remainder
      modulo b * k splits into the two remainders. */
  lemma DivModNested(a: int, b: int, k: int)
    requires b > 0 && k > 0
    ensures a / (b * k) == (a / b) / k
    ensures (a % (b * k)) / b == (a / b) % k
    ensures (a % (b * k)) % b == a % b
  {
    var q, r := a / b, a % b;
    var bigQ, bigR := q / k, q % k;
    assert q == bigQ * k + bigR;
    assert 0 <= b * bigR + r < b * k by {
      assert b * bigR <= b * (k - 1);
    }
    assert a == bigQ * (b * k) + (b * bigR + r) by {
      calc {
        a;
        q * b + r;
        (bigQ * k + bigR) * b + r;
        bigQ * (b * k) + (b * bigR + r);
      }
    }
    DivModUnique(a, b * k, bigQ, b * bigR + r);
    DivModUnique(b * bigR + r, b, bigR, r);
  }

  // ---------------------------------------------------------------------
  // Properties of the countdown

  /** Before the deadline the fields are the quotients and remainders of the
      number of whole seconds left. */
  lemma DecomposeBySeconds(distance: int)
    requires distance >= 0
    ensures var s := distance / MsPerSecond;
      Decompose(distance) == TimeLeft(s / 86400, (s % 86400) / 3600, (s % 3600) / 60, s % 60)
  {
    var s := distance / 1000;
    DivModNested(distance, 1000, 86400);
    DivModNested(distance, 1000, 3600);
    DivModNested(distance, 1000, 60);
    DivModNested(distance, 1000 * 3600, 24);
  }

  /** The fields recombine to the whole seconds left, and days is the
      floor of the distance in days. */
  lemma DecomposeRecombines(distance: int)
    requires distance >= 0
    ensures TotalSeconds(Decompose(distance)) == distance / MsPerSecond
    ensures Decompose(distance).days == distance / MsPerDay
  {
    DecomposeBySeconds(distance);
    var s := distance / 1000;
    DivModNested(s, 60, 60);
    DivModNested(s, 3600, 24);
    DivModNested(distance, 1000, 86400);
  }

  /** Once the deadline is reached or passed, every field reads zero. */
  lemma DecomposeExpired(distance: int)
    requires distance <= 0
    ensures Decompose(distance) == Zero
  {
    if distance < 0 {
      assert FloorDiv(distance, MsPerDay) < 0;
      assert JsRem(distance, MsPerDay) <= 0;
      assert FloorDiv(JsRem(distance, MsPerDay), MsPerHour) <= 0;
    }
  }

  /** Clamping each field, as the page does, gives what clamping the
      distance itself at zero would give. */
  lemma DecomposeClampFirst(distance: int)
    ensures Decompose(distance) == Decompose(Max0(distance))
  {
    if distance < 0 {
      DecomposeExpired(distance);
      DecomposeExpired(0);
    }
  }

  /** Decompose inverts TotalSeconds: every well-formed reading is produced
      by each distance within the second it stands for. */
  lemma DecomposeInverts(t: TimeLeft, ms: int)
    requires WellFormed(t) && 0 <= ms < MsPerSecond
    ensures Decompose(TotalSeconds(t) * MsPerSecond + ms) == t
  {
    var s := TotalSeconds(t);
    var distance := s * 1000 + ms;
    DivModUnique(distance, 1000, s, ms);
    DecomposeBySeconds(distance);
    DivModUnique(s, 86400, t.days, t.hours * 3600 + t.minutes * 60 + t.seconds);
    DivModUnique(s % 86400, 3600, t.hours, t.minutes * 60 + t.seconds);
    DivModNested(s, 60, 60);
    DivModUnique(s, 3600, t.days * 24 + t.hours, t.minutes * 60 + t.seconds);
    DivModUnique(s % 3600, 60, t.minutes, t.seconds);
    DivModUnique(s, 60, t.days * 1440 + t.hours * 60 + t.minutes, t.seconds);
  }

  /** Readings taken later never show more time left. */
  lemma DecomposeMonotone(d1: int, d2: int)
    requires d1 <= d2
    ensures TotalSeconds(Decompose(d1)) <= TotalSeconds(Decompose(d2))
  {
    DecomposeClampFirst(d1);
    DecomposeClampFirst(d2);
    DecomposeRecombines(Max0(d1));
    DecomposeRecombines(Max0(d2));
  }

  /** The display clamp leaves every field of a reading as it is. */
  lemma DisplayedIsIdentity(distance: int)
    ensures var t := Decompose(distance);
      Displayed(t.days) == t.days && Displayed(t.hours) == t.hours &&
      Displayed(t.minutes) == t.minutes && Displayed(t.seconds) == t.seconds
  {
  }

  /** One day before the deadline the page shows one day and nothing else. */
  lemma OneDayBefore()
    ensures Decompose(MsPerDay) == TimeLeft(1, 0, 0, 0)
  {
    DecomposeInverts(TimeLeft(1, 0, 0, 0), 0);
  }

  /** The truncating remainder agrees with Euclidean `%` exactly when the
      dividend is non-negative or divisible. */
  lemma JsRemEuclidean(a: int, b: int)
    requires b > 0
    ensures JsRem(a, b) == a % b <==> a >= 0 || a % b == 0
  {
    if a < 0 && a % b != 0 {
      assert JsRem(a, b) <= 0 < a % b;
    } else if a < 0 {
      assert (-a) % b == 0 by { DivModUnique(-a, b, -(a / b), 0); }
    }
  }
}
