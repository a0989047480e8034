/**
  AK::Time (AK/Time.h, AK/Time.cpp): a 64-bit count of seconds and a 32-bit count of
  nanoseconds, with arithmetic that saturates.  The reference is exact arithmetic on the
  total number of nanoseconds.
 */
module Times {
  import opened Common

  predicate InI64(x: int) { -0x8000_0000_0000_0000 <= x <= 0x7fff_ffff_ffff_ffff }

  predicate InI32(x: int) { -0x8000_0000 <= x <= 0x7fff_ffff }

  /** A value that is Normal has the range the class promises. */
  datatype Time = Time(seconds: int, nanoseconds: int)

  predicate Normal(t: Time) {
    InI64(t.seconds) && 0 <= t.nanoseconds < 1_000_000_000
  }

  /** The exact time in nanoseconds. */
  function Total(t: Time): int {
    t.seconds * 1_000_000_000 + t.nanoseconds
  }

  const MIN: Time := Time(-0x8000_0000_0000_0000, 0)
  const MAX: Time := Time(0x7fff_ffff_ffff_ffff, 999_999_999)

  /** The nearest time to an exact number of nanoseconds. */
  predicate Nearest(t: Time, exact: int) {
    && Normal(t)
    && Total(t) == if exact < Total(MIN) then Total(MIN) else if exact > Total(MAX) then Total(MAX) else exact
  }

  function Clamp64(x: int): int {
    if x < I64_MIN then I64_MIN else if x > I64_MAX then I64_MAX else x
  }

  // ----- C arithmetic -----

  function TruncDiv(a: int, b: int): int
    requires b > 0
  {
    if a >= 0 then a / b else -(-a / b)
  }

  function TruncMod(a: int, b: int): int
    requires b > 0
  {
    a - TruncDiv(a, b) * b
  }

  function Wrap64(x: int): (r: int)
    ensures InI64(r) && (InI64(x) ==> r == x)
  {
    (x + 0x8000_0000_0000_0000) % 0x1_0000_0000_0000_0000 - 0x8000_0000_0000_0000
  }

  /** Checked<i64>: the wrapped value, and whether any step overflowed. */
  datatype Checked = Checked(value: int, overflow: bool) {
    function Add(x: int): Checked { Checked(Wrap64(value + x), overflow || !InI64(value + x)) }

    function Sub(x: int): Checked { Checked(Wrap64(value - x), overflow || !InI64(value - x)) }

    function Mul(x: int): Checked { Checked(Wrap64(value * x), overflow || !InI64(value * x)) }
  }

  // ----- rounding, the reference -----

  /** Rounded towards zero. */
  function TowardsZero(total: int, unit: int): int
    requires unit > 0
  {
    if total >= 0 then total / unit else -(-total / unit)
  }

  /** Rounded away from zero. */
  function AwayFromZero(total: int, unit: int): int
    requires unit > 0
  {
    if total >= 0 then (total + unit - 1) / unit else -((-total + unit - 1) / unit)
  }

  // ----- construction -----

  /** sane_mod: floor division out of truncating division. */
  function SaneMod(numerator: int, denominator: int): (r: (int, int))
    requires InI64(numerator) && 2 <= denominator <= 1_000_000_000
    ensures numerator == r.0 * denominator + r.1 && 0 <= r.1 < denominator && InI64(r.0)
  {
    var dividend := TruncDiv(numerator, denominator);
    var rest := TruncMod(numerator, denominator);
    if rest < 0 then (dividend - 1, rest + denominator) else (dividend, rest)
  }

  function FromSeconds(seconds: int): (t: Time)
    requires InI64(seconds)
    ensures Normal(t) && Total(t) == seconds * 1_000_000_000
  {
    Time(seconds, 0)
  }

  function FromNanoseconds(n: int): (t: Time)
    requires InI64(n)
    ensures Normal(t) && Total(t) == n
  {
    var (seconds, nanoseconds) := SaneMod(n, 1_000_000_000);
    Time(seconds, nanoseconds)
  }

  function FromMicroseconds(n: int): (t: Time)
    requires InI64(n)
    ensures Normal(t) && Total(t) == n * 1_000
  {
    var (seconds, microseconds) := SaneMod(n, 1_000_000);
    Time(seconds, microseconds * 1_000)
  }

  function FromMilliseconds(n: int): (t: Time)
    requires InI64(n)
    ensures Normal(t) && Total(t) == n * 1_000_000
  {
    var (seconds, milliseconds) := SaneMod(n, 1_000);
    Time(seconds, milliseconds * 1_000_000)
  }

  function FromHalfSanitized(seconds: int, extra: int, nanoseconds: int): (t: Time)
    requires InI64(seconds) && InI32(extra) && 0 <= nanoseconds < 1_000_000_000
    ensures Nearest(t, (seconds + extra) * 1_000_000_000 + nanoseconds)
  {
    var opposite := (seconds <= 0 && extra > 0) || (seconds >= 0 && extra < 0);
    var s := if opposite then seconds + extra else seconds;
    var e := if opposite then 0 else extra;
    if !InI64(s + e) then (if s < 0 then MIN else MAX)
    else Time(s + e, nanoseconds)
  }

  /** from_timespec, for nanoseconds in any 32-bit value. */
  function FromTimespec(sec: int, nsec: int): (t: Time)
    requires InI64(sec) && InI32(nsec)
    ensures Nearest(t, sec * 1_000_000_000 + nsec)
  {
    var (extra, nanoseconds) := SaneMod(nsec, 1_000_000_000);
    FromHalfSanitized(sec, extra, nanoseconds)
  }

  function FromTimeval(sec: int, usec: int): (t: Time)
    requires InI64(sec) && InI32(usec)
    ensures Nearest(t, sec * 1_000_000_000 + usec * 1_000)
  {
    var (extra, microseconds) := SaneMod(usec, 1_000_000);
    FromHalfSanitized(sec, extra, microseconds * 1_000)
  }

  // ----- conversion -----

  function ToTruncatedSeconds(t: Time): (r: int)
    requires Normal(t)
    ensures r == TowardsZero(Total(t), 1_000_000_000) && InI64(r)
  {
    if t.seconds < 0 && t.nanoseconds != 0 then t.seconds + 1 else t.seconds
  }

  function ToSeconds(t: Time): (r: int)
    requires Normal(t)
    ensures r == Clamp64(AwayFromZero(Total(t), 1_000_000_000))
  {
    if t.seconds >= 0 && t.nanoseconds != 0 then
      var seconds := Checked(t.seconds, false).Add(1);
      if seconds.overflow then I64_MAX else seconds.value
    else t.seconds
  }

  /** The common shape of the other conversions: units per second and nanoseconds per unit. */
  function Convert(t: Time, perSecond: int, unit: int, truncate: bool): int
    requires Normal(t) && unit > 0
  {
    var c0 := Checked(if t.seconds < 0 then t.seconds + 1 else t.seconds, false);
    var c1 := c0.Mul(perSecond);
    var c2 := c1.Add(t.nanoseconds / unit);
    var roundUp := t.nanoseconds % unit != 0 && (t.seconds < 0) == truncate;
    var c3 := if roundUp then c2.Add(1) else c2;
    var c4 := if t.seconds < 0 then c3.Sub(perSecond) else c3;
    if !c4.overflow then c4.value
    else if t.seconds < 0 then I64_MIN else I64_MAX
  }

  /** What Convert computes when nothing saturates. */
  function Exact(t: Time, perSecond: int, unit: int, truncate: bool): int
    requires unit > 0
  {
    t.seconds * perSecond + t.nanoseconds / unit
    + if t.nanoseconds % unit != 0 && (t.seconds < 0) == truncate then 1 else 0
  }

  /** No step on the way saturates unless the result does. */
  lemma ConvertClamps(t: Time, perSecond: int, unit: int, truncate: bool)
    requires Normal(t) && perSecond > 0 && unit > 0 && perSecond * unit == 1_000_000_000
    requires perSecond <= 1_000_000_000
    ensures Convert(t, perSecond, unit, truncate) == Clamp64(Exact(t, perSecond, unit, truncate))
  {
    var k := t.nanoseconds / unit + if t.nanoseconds % unit != 0 && (t.seconds < 0) == truncate then 1 else 0;
    PartsFit(t.nanoseconds, perSecond, unit);
    assert (t.seconds + 1) * perSecond == t.seconds * perSecond + perSecond;
    assert t.seconds < 0 ==> (t.seconds + 1) * perSecond <= 0;
    assert t.seconds >= 0 ==> t.seconds * perSecond >= 0;
  }

  lemma PartsFit(nanoseconds: int, perSecond: int, unit: int)
    requires 0 <= nanoseconds < 1_000_000_000 && unit > 0 && perSecond * unit == 1_000_000_000
    ensures 0 <= nanoseconds / unit < perSecond
  {
    var q := nanoseconds / unit;
    assert q * unit <= nanoseconds;
    MulMonotone(perSecond, q, unit);
  }

  lemma MulMonotone(a: int, b: int, c: int)
    requires c > 0
    ensures a <= b ==> a * c <= b * c
  {
  }

  function ToTruncatedMilliseconds(t: Time): (r: int)
    requires Normal(t)
    ensures r == Clamp64(TowardsZero(Total(t), 1_000_000))
  {
    ConvertClamps(t, 1_000, 1_000_000, true);
    Convert(t, 1_000, 1_000_000, true)
  }

  function ToTruncatedMicroseconds(t: Time): (r: int)
    requires Normal(t)
    ensures r == Clamp64(TowardsZero(Total(t), 1_000))
  {
    ConvertClamps(t, 1_000_000, 1_000, true);
    Convert(t, 1_000_000, 1_000, true)
  }

  function ToMilliseconds(t: Time): (r: int)
    requires Normal(t)
    ensures r == Clamp64(AwayFromZero(Total(t), 1_000_000))
  {
    ConvertClamps(t, 1_000, 1_000_000, false);
    Convert(t, 1_000, 1_000_000, false)
  }

  function ToMicroseconds(t: Time): (r: int)
    requires Normal(t)
    ensures r == Clamp64(AwayFromZero(Total(t), 1_000))
  {
    ConvertClamps(t, 1_000_000, 1_000, false);
    Convert(t, 1_000_000, 1_000, false)
  }

  function ToNanoseconds(t: Time): (r: int)
    requires Normal(t)
    ensures r == Clamp64(Total(t))
  {
    ConvertClamps(t, 1_000_000_000, 1, false);
    Convert(t, 1_000_000_000, 1, false)
  }

  /** to_timeval: rounded down to a microsecond. */
  function ToTimeval(t: Time): (r: (int, int))
    requires Normal(t)
    ensures 0 <= r.1 < 1_000_000 && r.0 * 1_000_000 + r.1 == Total(t) / 1_000
  {
    (t.seconds, t.nanoseconds / 1_000)
  }

  // ----- arithmetic -----

  function Plus(a: Time, b: Time): (r: Time)
    requires Normal(a) && Normal(b)
    ensures Nearest(r, Total(a) + Total(b))
  {
    var sum := a.nanoseconds + b.nanoseconds;
    var extra := sum / 1_000_000_000;
    var nanoseconds := sum % 1_000_000_000;
    if extra != 0 && a.seconds == I64_MAX && b.seconds == I64_MAX then MAX
    else
      var s := if extra != 0 && a.seconds != I64_MAX then a.seconds + 1 else a.seconds;
      var o := if extra != 0 && a.seconds == I64_MAX then b.seconds + 1 else b.seconds;
      var seconds := Checked(s, false).Add(o);
      if seconds.overflow then (if o > 0 then MAX else MIN)
      else Time(seconds.value, nanoseconds)
  }

  function Minus(a: Time, b: Time): (r: Time)
    requires Normal(a) && Normal(b)
    ensures Nearest(r, Total(a) - Total(b))
  {
    if b.nanoseconds != 0 then Plus(a, Time(-b.seconds - 1, 1_000_000_000 - b.nanoseconds))
    else if b.seconds != I64_MIN then Plus(a, Time(-b.seconds, 0))
    else if a.seconds >= 0 then MAX
    else Time(a.seconds + 0x4000_0000_0000_0000 + 0x4000_0000_0000_0000, a.nanoseconds)
  }

  /** The comparison operators order times by their totals. */
  predicate Less(a: Time, b: Time)
    requires Normal(a) && Normal(b)
    ensures Less(a, b) <==> Total(a) < Total(b)
  {
    a.seconds < b.seconds || (a.seconds == b.seconds && a.nanoseconds < b.nanoseconds)
  }

  /** A total belongs to one normal time. */
  lemma TotalUnique(a: Time, b: Time)
    requires Normal(a) && Normal(b) && Total(a) == Total(b)
    ensures a == b
  {
  }

  lemma NanosecondsRoundTrip(n: int)
    requires InI64(n)
    ensures ToNanoseconds(FromNanoseconds(n)) == n
  {
  }

  /** Subtracting undoes adding, exactly when the sum did not saturate. */
  lemma PlusMinus(a: Time, b: Time)
    requires Normal(a) && Normal(b)
    ensures Minus(Plus(a, b), b) == a <==> Total(MIN) <= Total(a) + Total(b) <= Total(MAX)
  {
    if Total(MIN) <= Total(a) + Total(b) <= Total(MAX) {
      TotalUnique(Minus(Plus(a, b), b), a);
    }
  }
}
