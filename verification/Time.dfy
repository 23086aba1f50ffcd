/** Fixed-point timestamps of juno_time.c: 32-bit seconds and a 32-bit fraction scaled by
    2^32 - 1, with explicit wrap-around of the unsigned C arithmetic. */
module Time {
  import opened Arithmetic
  import opened Status

  const TWO32: int := 0x1_0000_0000
  const TWO64: int := 0x1_0000_0000_0000_0000
  /** One second, in subsecond ticks. */
  const FULL: int := TWO32 - 1
  const MAX64: int := TWO64 - 1

  type U32 = x: int | 0 <= x < TWO32
  type U64 = x: int | 0 <= x < TWO64

  datatype Timestamp = Timestamp(sec: U32, sub: U32) {

    /** The instant, in ticks. */
    function Ticks(): int {
      sec * FULL + sub
    }

    predicate Canonical() {
      sub < FULL
    }
  }

  function Wrap32(x: int): U32 {
    x % TWO32
  }

  function Wrap64(x: int): U64 {
    x % TWO64
  }

  // ---------- order ----------

  predicate GreaterThan(a: Timestamp, b: Timestamp) {
    a.sec > b.sec || (a.sec == b.sec && a.sub > b.sub)
  }

  predicate LessThan(a: Timestamp, b: Timestamp) {
    a.sec < b.sec || (a.sec == b.sec && a.sub < b.sub)
  }

  predicate Equals(a: Timestamp, b: Timestamp) {
    a.sec == b.sec && a.sub == b.sub
  }

  /** The full fraction is a second denotation of the next whole second. */
  ghost predicate SameInstantTwice(a: Timestamp, b: Timestamp) {
    a.sub == FULL && b.sub == 0 && b.sec == a.sec + 1
  }

  /** The comparisons agree with the instants, except that they separate the two
      denotations of a whole second. */
  lemma OrderIsByInstant(a: Timestamp, b: Timestamp)
    ensures LessThan(a, b) <==> a.Ticks() < b.Ticks() || SameInstantTwice(a, b)
    ensures GreaterThan(a, b) <==> LessThan(b, a)
    ensures Equals(a, b) <==> !LessThan(a, b) && !GreaterThan(a, b)
    ensures a.Canonical() && b.Canonical() ==> (Equals(a, b) <==> a.Ticks() == b.Ticks())
    ensures a.Ticks() == a.sec * 4_294_967_295 + a.sub && (a.Canonical() <==> a.sub < 4_294_967_295)
  {
  }

  // ---------- arithmetic in place ----------

  /** A timestamp variable the caller passes by address. */
  class Cell {
    var time: Timestamp

    constructor (time: Timestamp)
      ensures this.time == time
    {
      this.time := time;
    }

    /** Exact on instants, canonical or not, up to one wrap of the seconds counter. */
    method AddTime(add: Timestamp) returns (status: Status)
      modifies this
      ensures status == Success && time == Sum(old(time), add)
      ensures time.Ticks() == old(time).Ticks() + add.Ticks()
                || time.Ticks() == old(time).Ticks() + add.Ticks() - TWO32 * FULL
      ensures time.Canonical() <==> old(time).Canonical() || add.Canonical()
      ensures var sec, sub := old(time).sec + add.sec, old(time).sub + add.sub;
              if sub < 0xffff_ffff then time == Timestamp(sec % 0x1_0000_0000, sub)
              else time == Timestamp((sec + 1) % 0x1_0000_0000, sub - 0xffff_ffff)
    {
      SumIsExact(time, add);
      var sec: int := Wrap32(time.sec + add.sec);
      var difference: U32 := FULL - time.sub;
      if add.sub < difference {
        time := Timestamp(sec, time.sub + add.sub);
      } else {
        time := Timestamp(Wrap32(sec + 1), add.sub - difference);
      }
      return Success;
    }

    /** Subtracts when the order allows it and otherwise saturates at the epoch. */
    method SubtractTime(subtract: Timestamp) returns (status: Status)
      modifies this
      ensures status == if LessThan(old(time), subtract) then InvalidData else Success
      ensures status == Success <==>
                old(time).sec > subtract.sec || (old(time).sec == subtract.sec && old(time).sub >= subtract.sub)
      ensures status == Success ==>
                var sec, sub := old(time).sec - subtract.sec, old(time).sub - subtract.sub;
                time == if sub >= 0 then Timestamp(sec, sub) else Timestamp(sec - 1, sub + 0xffff_ffff)
      ensures status == Success ==> time.Ticks() == old(time).Ticks() - subtract.Ticks()
      ensures status != Success ==> time == Timestamp(0, 0)
      ensures old(time).Canonical() && subtract.Canonical() ==> time.Canonical()
      ensures time == Difference(old(time), subtract)
    {
      if time.sec < subtract.sec || (time.sec == subtract.sec && time.sub < subtract.sub) {
        time := Timestamp(0, 0);
        return InvalidData;
      }
      var sec: U32 := time.sec - subtract.sec;
      if time.sub < subtract.sub {
        time := Timestamp(sec - 1, FULL - (subtract.sub - time.sub));
      } else {
        time := Timestamp(sec, time.sub - subtract.sub);
      }
      return Success;
    }
  }

  /** The value AddTime leaves: the second counter carries when the fractions reach FULL. */
  function Sum(a: Timestamp, b: Timestamp): Timestamp {
    var carry := if a.sub + b.sub >= FULL then 1 else 0;
    Timestamp(Wrap32(a.sec + b.sec + carry), a.sub + b.sub - carry * FULL)
  }

  function Difference(a: Timestamp, b: Timestamp): Timestamp {
    if LessThan(a, b) then Timestamp(0, 0)
    else
      var borrow := if a.sub < b.sub then 1 else 0;
      Timestamp(a.sec - b.sec - borrow, a.sub - b.sub + borrow * FULL)
  }

  lemma SumIsExact(a: Timestamp, b: Timestamp)
    ensures var wraps := a.sec + b.sec + (if a.sub + b.sub >= FULL then 1 else 0) >= TWO32;
            Sum(a, b).Ticks() == a.Ticks() + b.Ticks() - if wraps then TWO32 * FULL else 0
    ensures Sum(a, b).Canonical() <==> a.Canonical() || b.Canonical()
  {
  }

  /** Between canonical timestamps the sum wraps exactly when the true sum does not fit. */
  lemma SumExactIff(a: Timestamp, b: Timestamp)
    requires a.Canonical() && b.Canonical()
    ensures Sum(a, b).Ticks() == a.Ticks() + b.Ticks() <==> a.Ticks() + b.Ticks() < TWO32 * FULL
    ensures Sum(a, b) == Sum(b, a)
  {
  }

  /** Success means exactly that the difference is not negative, but for one pair of
      denotations of the same instant. */
  lemma SubtractSucceedsIff(a: Timestamp, b: Timestamp)
    ensures !LessThan(a, b) <==> a.Ticks() >= b.Ticks() && !SameInstantTwice(a, b)
  {
  }

  /** Between canonical timestamps subtracting what was added gives the timestamp back
      exactly when the true sum fits. */
  lemma SubtractUndoesAdd(a: Timestamp, b: Timestamp)
    requires a.Canonical() && b.Canonical()
    ensures !LessThan(Sum(a, b), b) && Difference(Sum(a, b), b) == a <==> a.Ticks() + b.Ticks() < TWO32 * FULL
  {
  }

  /** The epoch case the order gets wrong: nothing is left, yet the subtraction is refused. */
  lemma SubtractRefusesEqualInstant()
    ensures Timestamp(0, FULL).Ticks() == Timestamp(1, 0).Ticks()
    ensures LessThan(Timestamp(0, FULL), Timestamp(1, 0))
  {
  }

  // ---------- conversions ----------

  datatype Unit = Nanos | Micros | Millis {
    function PerSec(): (u: int)
      ensures u == 1_000_000_000 || u == 1_000_000 || u == 1_000
    {
      match this
      case Nanos => 1_000_000_000
      case Micros => 1_000_000
      case Millis => 1_000
    }
  }

  datatype Converted = Converted(status: Status, value: U64)

  /** Timestamp to 64-bit units, with the C expression's wrap-around and overflow guards. */
  function ToUnits(unit: Unit, t: Timestamp): Converted {
    var u := unit.PerSec();
    var frac := Wrap64(Wrap64(t.sub * u) + FULL / 2) / FULL;
    if t.sec > MAX64 / u then Converted(InvalidData, 0)
    else
      var base := Wrap64(t.sec * u);
      if frac > MAX64 - base then Converted(InvalidData, 0)
      else Converted(Success, Wrap64(base + frac))
  }

  /** 64-bit units to timestamp; both fields are truncated to 32 bits on assignment. */
  function FromUnits(unit: Unit, v: U64): Timestamp {
    var u := unit.PerSec();
    var frac := v % u;
    Timestamp(Wrap32(v / u), Wrap32(Wrap64(Wrap64(frac * FULL) + u / 2) / u))
  }

  /** The conversion over the unbounded integers: half-up rounding of the fraction. */
  function Nearest(unit: Unit, t: Timestamp): int {
    var u := unit.PerSec();
    t.sec * u + (t.sub * u + FULL / 2) / FULL
  }

  /** Scaling an instant by u units per second. */
  lemma ScaledTicks(t: Timestamp, u: int)
    ensures t.Ticks() * u == (t.sec * u) * FULL + t.sub * u
  {
    assert (t.sec * FULL) * u == (t.sec * u) * FULL;
  }

  lemma Fits64(x: int)
    requires 0 <= x < TWO64
    ensures Wrap64(x) == x
  {
  }

  lemma Fits32(x: int)
    requires 0 <= x < TWO32
    ensures Wrap32(x) == x
  {
  }

  /** Rounding n / d half up, for a divisor d whose half is `half`. */
  lemma Rounding(n: int, d: int, half: int)
    requires 0 <= n && 0 <= half < d
    ensures var q := (n + half) / d;
            0 <= q && q * d <= n + half < q * d + d
  {
  }

  /** No intermediate result overflows 64 bits and neither guard ever fires. */
  lemma ToUnitsNeverOverflows(unit: Unit, t: Timestamp)
    ensures 0 <= Nearest(unit, t) < TWO64
    ensures ToUnits(unit, t) == Converted(Success, Nearest(unit, t))
  {
    var u := unit.PerSec();
    var product, base := t.sub * u, t.sec * u;
    ProductMonotone(t.sub, FULL, u);
    ProductMonotone(t.sec, FULL, u);
    Rounding(product, FULL, FULL / 2);
    var frac := (product + FULL / 2) / FULL;
    QuotientBelow(product + FULL / 2, FULL, u + 1);
    Fits64(product);
    Fits64(product + FULL / 2);
    Fits64(base);
    Fits64(base + frac);
    QuotientAtLeast(MAX64, u, t.sec);
  }

  /** v units lie nearest to the instant `ticks`; a tie is impossible, FULL being odd. */
  ghost predicate IsNearest(unit: Unit, v: int, ticks: int) {
    -FULL < 2 * (v * FULL - ticks * unit.PerSec()) < FULL
  }

  lemma NearestFromFraction(unit: Unit, base: int, frac: int, product: int, ticks: int)
    requires ticks * unit.PerSec() == base * FULL + product
    requires frac * FULL <= product + FULL / 2 < frac * FULL + FULL
    ensures IsNearest(unit, base + frac, ticks)
  {
    var scaled := ticks * unit.PerSec();
    assert -FULL < 2 * ((base + frac) * FULL - scaled) < FULL;
  }

  /** A conversion to units always succeeds, with the one integer nearest to the instant. */
  lemma ToUnitsIsNearest(unit: Unit, t: Timestamp)
    ensures ToUnits(unit, t).status == Success
    ensures IsNearest(unit, ToUnits(unit, t).value, t.Ticks())
  {
    ToUnitsNeverOverflows(unit, t);
    var u := unit.PerSec();
    ProductMonotone(0, t.sub, u);
    Rounding(t.sub * u, FULL, FULL / 2);
    ScaledTicks(t, u);
    NearestFromFraction(unit, t.sec * u, (t.sub * u + FULL / 2) / FULL, t.sub * u, t.Ticks());
  }

  lemma NearestIsMonotone(unit: Unit, v: int, ticks: int, w: int, later: int)
    requires IsNearest(unit, v, ticks) && IsNearest(unit, w, later) && ticks <= later
    ensures v <= w
  {
    ProductMonotone(ticks, later, unit.PerSec());
  }

  /** Conversions respect the order of instants; two denotations of one instant convert
      alike. */
  lemma ToUnitsIsMonotone(unit: Unit, a: Timestamp, b: Timestamp)
    requires a.Ticks() <= b.Ticks()
    ensures ToUnits(unit, a).value <= ToUnits(unit, b).value
    ensures a.Ticks() == b.Ticks() ==> ToUnits(unit, a) == ToUnits(unit, b)
  {
    ToUnitsIsNearest(unit, a);
    ToUnitsIsNearest(unit, b);
    NearestIsMonotone(unit, ToUnits(unit, a).value, a.Ticks(), ToUnits(unit, b).value, b.Ticks());
    if a.Ticks() == b.Ticks() {
      NearestIsMonotone(unit, ToUnits(unit, b).value, b.Ticks(), ToUnits(unit, a).value, a.Ticks());
    }
  }

  lemma NearestOfSum(unit: Unit, x: int, p: int, y: int, q: int, z: int)
    requires IsNearest(unit, x, p) && IsNearest(unit, y, q) && IsNearest(unit, z, p + q)
    ensures -1 <= z - x - y <= 1
  {
    var u := unit.PerSec();
    assert (p + q) * u == p * u + q * u;
  }

  /** Converting a sum that does not wrap is within one unit of summing the conversions. */
  lemma ToUnitsOfSum(unit: Unit, a: Timestamp, b: Timestamp)
    requires Sum(a, b).Ticks() == a.Ticks() + b.Ticks()
    ensures -1 <= ToUnits(unit, Sum(a, b)).value - ToUnits(unit, a).value - ToUnits(unit, b).value <= 1
  {
    ToUnitsIsNearest(unit, a);
    ToUnitsIsNearest(unit, b);
    ToUnitsIsNearest(unit, Sum(a, b));
    NearestOfSum(unit, ToUnits(unit, a).value, a.Ticks(), ToUnits(unit, b).value, b.Ticks(),
                 ToUnits(unit, Sum(a, b)).value);
  }

  /** The three conversions to units in plain numbers: whole seconds scaled, and the fraction
      of 2^32 - 1 rounded half up. */
  lemma ToUnitsInNumbers(sec: int, sub: int)
    requires 0 <= sec < 4_294_967_296 && 0 <= sub < 4_294_967_296
    ensures ToUnits(Nanos, Timestamp(sec, sub)) ==
            Converted(Success, sec * 1_000_000_000 + (sub * 1_000_000_000 + 2_147_483_647) / 4_294_967_295)
    ensures ToUnits(Micros, Timestamp(sec, sub)) ==
            Converted(Success, sec * 1_000_000 + (sub * 1_000_000 + 2_147_483_647) / 4_294_967_295)
    ensures ToUnits(Millis, Timestamp(sec, sub)) ==
            Converted(Success, sec * 1_000 + (sub * 1_000 + 2_147_483_647) / 4_294_967_295)
  {
    var t := Timestamp(sec, sub);
    ToUnitsNeverOverflows(Nanos, t);
    ToUnitsNeverOverflows(Micros, t);
    ToUnitsNeverOverflows(Millis, t);
  }

  /** The three conversions from units in plain numbers; the seconds keep their low 32 bits. */
  lemma FromUnitsInNumbers(v: int)
    requires 0 <= v < 18_446_744_073_709_551_616
    ensures var t := FromUnits(Nanos, v);
            && t.sec == v / 1_000_000_000 % 4_294_967_296
            && t.sub == (v % 1_000_000_000 * 4_294_967_295 + 500_000_000) / 1_000_000_000
    ensures var t := FromUnits(Micros, v);
            && t.sec == v / 1_000_000 % 4_294_967_296
            && t.sub == (v % 1_000_000 * 4_294_967_295 + 500_000) / 1_000_000
    ensures var t := FromUnits(Millis, v);
            && t.sec == v / 1_000 % 4_294_967_296
            && t.sub == (v % 1_000 * 4_294_967_295 + 500) / 1_000
  {
    FromUnitsNeverOverflows(Nanos, v);
    FromUnitsNeverOverflows(Micros, v);
    FromUnitsNeverOverflows(Millis, v);
  }

  // ---------- round trips ----------

  /** The fraction is rounded half up without overflow and comes out canonical. */
  lemma FromUnitsNeverOverflows(unit: Unit, v: U64)
    ensures var u := unit.PerSec();
            FromUnits(unit, v).sub == ((v % u) * FULL + u / 2) / u < FULL
  {
    var u := unit.PerSec();
    var n := (v % u) * FULL;
    Fits64(n);
    Fits64(n + u / 2);
    var sub := (n + u / 2) / u;
    QuotientBelow(n + u / 2, u, FULL);
    Fits32(sub);
  }

  /** The instant v units denote is off by at most half a unit, in units * ticks, up to the
      wrap of the seconds counter. */
  lemma FromUnitsIsClose(unit: Unit, v: U64)
    ensures var t, u := FromUnits(unit, v), unit.PerSec();
            var wrapped := v / u / TWO32;
            && t.Canonical()
            && t.sec == v / u - wrapped * TWO32
            && -(u / 2) <= (t.Ticks() + wrapped * TWO32 * FULL) * u - v * FULL <= u / 2
  {
    var t, u := FromUnits(unit, v), unit.PerSec();
    FromUnitsNeverOverflows(unit, v);
    var n := (v % u) * FULL;
    Rounding(n, u, u / 2);
    CloseFromFraction(v / u, v / u / TWO32, t, v % u, u, v);
  }

  lemma CloseFromFraction(sec: int, wrapped: int, t: Timestamp, frac: int, u: int, v: int)
    requires v == sec * u + frac && t.sec == sec - wrapped * TWO32
    requires t.sub * u <= frac * FULL + u / 2 < t.sub * u + u
    ensures -(u / 2) <= (t.Ticks() + wrapped * TWO32 * FULL) * u - v * FULL <= u / 2
  {
    assert t.Ticks() + wrapped * TWO32 * FULL == sec * FULL + t.sub;
    assert (sec * FULL) * u == (sec * u) * FULL;
  }

  lemma NearestIsUnique(unit: Unit, v: int, w: int, ticks: int)
    requires IsNearest(unit, v, ticks) && IsNearest(unit, w, ticks)
    ensures v == w
  {
    NearestIsMonotone(unit, v, ticks, w, ticks);
  }

  /** Units to timestamp and back gives the value modulo 2^32 seconds, so exactly the values
      whose whole seconds fit the 32-bit counter come back. */
  lemma UnitsRoundTrip(unit: Unit, v: U64)
    ensures var u := unit.PerSec();
            var back := ToUnits(unit, FromUnits(unit, v));
            && back == Converted(Success, v - v / u / TWO32 * TWO32 * u)
            && (back.value == v <==> v / u < TWO32)
  {
    var u, t := unit.PerSec(), FromUnits(unit, v);
    var wrapped := v / u / TWO32;
    var w := v - wrapped * TWO32 * u;
    FromUnitsIsClose(unit, v);
    ToUnitsNeverOverflows(unit, t);
    ToUnitsIsNearest(unit, t);
    ShiftedInstant(t.Ticks(), wrapped, u, v);
    NearestIsUnique(unit, ToUnits(unit, t).value, w, t.Ticks());
    ProductMonotone(if wrapped >= 1 then 1 else 0, wrapped, TWO32 * u);
  }

  lemma ShiftedInstant(ticks: int, wrapped: int, u: int, v: int)
    ensures (ticks + wrapped * TWO32 * FULL) * u - v * FULL == ticks * u - (v - wrapped * TWO32 * u) * FULL
  {
    assert (wrapped * TWO32 * FULL) * u == (wrapped * TWO32 * u) * FULL;
  }

  /** The largest shift, in ticks, of a round trip through each unit. */
  function Drift(unit: Unit): int {
    match unit
    case Nanos => 2
    case Micros => 2147
    case Millis => 2147484
  }

  /** Timestamp to units and back moves the instant by at most Drift ticks, modulo the wrap
      that occurs exactly when the rounded value reaches 2^32 seconds. */
  lemma TimestampRoundTrip(unit: Unit, t: Timestamp)
    ensures var v := ToUnits(unit, t).value;
            var shift := FromUnits(unit, v).Ticks() - t.Ticks();
            var wrap := if v >= TWO32 * unit.PerSec() then TWO32 * FULL else 0;
            -Drift(unit) <= shift + wrap <= Drift(unit)
  {
    var u, v := unit.PerSec(), ToUnits(unit, t).value;
    ToUnitsIsNearest(unit, t);
    FromUnitsIsClose(unit, v);
    var wrapped := v / u / TWO32;
    AtMostOneWrap(unit, t);
    var shift := FromUnits(unit, v).Ticks() + wrapped * TWO32 * FULL - t.Ticks();
    assert shift * u == (FromUnits(unit, v).Ticks() + wrapped * TWO32 * FULL) * u - t.Ticks() * u;
    ShiftBounded(unit, shift);
  }

  lemma ShiftBounded(unit: Unit, shift: int)
    requires -FULL - unit.PerSec() < 2 * (shift * unit.PerSec()) < FULL + unit.PerSec()
    ensures -Drift(unit) <= shift <= Drift(unit)
  {
    match unit
    case Nanos =>
    case Micros =>
    case Millis =>
  }

  lemma AtMostOneWrap(unit: Unit, t: Timestamp)
    ensures var u, v := unit.PerSec(), ToUnits(unit, t).value;
            v / u / TWO32 == if v >= TWO32 * u then 1 else 0
  {
    var u := unit.PerSec();
    ToUnitsNeverOverflows(unit, t);
    var v := Nearest(unit, t);
    ProductMonotone(t.sec, FULL, u);
    ProductMonotone(t.sub, FULL, u);
    Rounding(t.sub * u, FULL, FULL / 2);
    if v >= TWO32 * u {
      QuotientAtLeast(v, u, TWO32);
      QuotientBelow(v, u, TWO32 + 1);
    } else {
      QuotientBelow(v, u, TWO32);
    }
  }

  /** Instants within the first second that the round trip moves furthest. */
  function FurthestMoved(unit: Unit): Timestamp {
    match unit
    case Nanos => Timestamp(0, 330_884_390)
    case Micros => Timestamp(0, 393_721_800)
    case Millis => Timestamp(0, 3_180_423_282)
  }

  lemma FromUnitsWithinFirstSecond(unit: Unit, v: U64, back: U32)
    requires v < unit.PerSec()
    requires back * unit.PerSec() <= v * FULL + unit.PerSec() / 2 < (back + 1) * unit.PerSec()
    ensures FromUnits(unit, v) == Timestamp(0, back)
  {
    var u := unit.PerSec();
    QuotientUnique(v, u, 0, v);
    FromUnitsNeverOverflows(unit, v);
    QuotientAtLeast(v * FULL + u / 2, u, back);
    QuotientBelow(v * FULL + u / 2, u, back + 1);
  }

  lemma RoundTripWithinFirstSecond(unit: Unit, sub: U32, v: U64, back: U32)
    requires IsNearest(unit, v, sub) && v < unit.PerSec()
    requires back * unit.PerSec() <= v * FULL + unit.PerSec() / 2 < (back + 1) * unit.PerSec()
    ensures FromUnits(unit, ToUnits(unit, Timestamp(0, sub)).value) == Timestamp(0, back)
  {
    ToUnitsIsNearest(unit, Timestamp(0, sub));
    NearestIsUnique(unit, ToUnits(unit, Timestamp(0, sub)).value, v, sub);
    FromUnitsWithinFirstSecond(unit, v, back);
  }

  /** The bounds are attained. */
  lemma DriftIsTight(unit: Unit)
    ensures var t := FurthestMoved(unit);
            FromUnits(unit, ToUnits(unit, t).value).Ticks() == t.Ticks() + Drift(unit)
  {
    match unit
    case Nanos => RoundTripWithinFirstSecond(unit, 330_884_390, 77_040_026, 330_884_392);
    case Micros => RoundTripWithinFirstSecond(unit, 393_721_800, 91_671, 393_723_947);
    case Millis => RoundTripWithinFirstSecond(unit, 3_180_423_282, 741, 3_182_570_766);
  }
}
