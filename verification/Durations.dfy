/** Showing a `time.Duration`, a 64-bit count of nanoseconds, in minutes and seconds. */
module Durations {
  import opened Decimal
  import opened Outcomes
  import Text

  const SECOND := 1_000_000_000
  const MINUTE := 60 * SECOND

  /** Go's division and remainder, which truncate toward zero. */
  function Quotient(a: int, b: int): int
    requires b > 0
  {
    if a >= 0 then a / b else -(-a / b)
  }

  function Remainder(a: int, b: int): int
    requires b > 0
  {
    a - b * Quotient(a, b)
  }

  /** `Round(time.Second)`: to the nearest second, halves away from zero, saturating at the ends of the range. */
  function Round(d: int64): int64 {
    var r: int := Remainder(d, SECOND);
    if d < 0 then
      if -r - r < SECOND then d - r
      else if d - SECOND - r >= MIN_INT then d - SECOND - r
      else MIN_INT
    else if r + r < SECOND then d - r
    else if d + SECOND - r <= MAX_INT then d + SECOND - r
    else MAX_INT
  }

  function Minutes(d: int64): int {
    Quotient(Round(d), MINUTE)
  }

  function Seconds(d: int64): int {
    Remainder(Quotient(Round(d), SECOND), 60)
  }

  function FormatParts(m: int, s: int): string {
    if m > 0 then PrintInt(m) + "m" + PrintInt(s) + "s" else PrintInt(s) + "s"
  }

  function FormatDuration(d: int64): string {
    FormatParts(Minutes(d), Seconds(d))
  }

  /** The number of seconds that the shown minutes and seconds amount to. */
  function Shown(d: int64): int {
    60 * Minutes(d) + Seconds(d)
  }

  /** From here on rounding up would leave the 64-bit range, and Round saturates instead. */
  const SATURATION := 9_223_372_036_500_000_000

  /** The nearest whole number of seconds, halves up. */
  function Nearest(d: int): int {
    (d + SECOND / 2) / SECOND
  }

  lemma ShownIsRounded(d: int64)
    requires d >= 0
    ensures Shown(d) == Round(d) / SECOND
    ensures Minutes(d) >= 0 && 0 <= Seconds(d) < 60
  {
    var t: int := Round(d) / SECOND;
    assert Round(d) / MINUTE == t / 60;
  }

  lemma RoundIs(d: int64)
    requires d >= 0
    ensures var q: int, r: int := d / SECOND, d % SECOND;
            && (d >= SATURATION ==> Round(d) == MAX_INT && q == 9_223_372_036 && Round(d) / SECOND == q)
            && (d < SATURATION ==> Round(d) == (if 2 * r < SECOND then q else q + 1) * SECOND)
            && (d < SATURATION ==> Round(d) / SECOND == if 2 * r < SECOND then q else q + 1)
  {
    var q: int, r: int := d / SECOND, d % SECOND;
    assert d == q * SECOND + r;
    assert d >= SATURATION ==> q == 9_223_372_036;
  }

  lemma NearestIs(d: int)
    requires d >= 0
    ensures Nearest(d) == if 2 * (d % SECOND) < SECOND then d / SECOND else d / SECOND + 1
  {
    assert d == d / SECOND * SECOND + d % SECOND;
  }

  /**
   What is shown is the duration rounded half up to seconds, within half a second of it, exactly up to the
   point of saturation; beyond it one second less is shown.
   */
  lemma ShownIsNearest(d: int64)
    requires d >= 0
    ensures Shown(d) == Nearest(d) <==> d < SATURATION
    ensures d < SATURATION ==> -SECOND <= 2 * (Shown(d) * SECOND - d) <= SECOND
    ensures d >= SATURATION ==> Shown(d) == Nearest(d) - 1
  {
    ShownIsRounded(d);
    RoundIs(d);
    NearestIs(d);
  }

  lemma NearestIsMonotone(a: int, b: int)
    requires 0 <= a <= b
    ensures Nearest(a) <= Nearest(b)
    ensures a < SATURATION <= b ==> Nearest(a) < Nearest(b)
  {
  }

  /** A longer duration never shows less. */
  lemma ShownIsMonotone(a: int64, b: int64)
    requires 0 <= a <= b
    ensures Shown(a) <= Shown(b)
  {
    assert Shown(a) == Nearest(a) - (if a < SATURATION then 0 else 1) by { ShownIsNearest(a); }
    assert Shown(b) == Nearest(b) - (if b < SATURATION then 0 else 1) by { ShownIsNearest(b); }
    NearestIsMonotone(a, b);
  }

  lemma PartsAre(d: int64, t: nat)
    requires d >= 0 && Shown(d) == t
    ensures Minutes(d) == t / 60 && Seconds(d) == t % 60
  {
    ShownIsRounded(d);
  }

  /** The text: whole seconds, halves rounded up, and minutes if there are any. */
  lemma FormatExactly(d: int64)
    requires d >= 0
    ensures var t := if d < 9_223_372_036_500_000_000 then (d + 500_000_000) / 1_000_000_000 else 9_223_372_036;
            FormatDuration(d) == if t >= 60 then PrintInt(t / 60) + "m" + PrintInt(t % 60) + "s"
                                 else PrintInt(t) + "s"
  {
    var t: nat := if d < SATURATION then (d + 500_000_000) / 1_000_000_000 else 9_223_372_036;
    assert t == Shown(d) by {
      ShownIsRounded(d);
      RoundIs(d);
      NearestIs(d);
    }
    PartsAre(d, t);
  }

  lemma RemainderOfNegative(e: int)
    requires e > 0
    ensures Remainder(-e, SECOND) == -(e % SECOND)
  {
    assert e == e / SECOND * SECOND + e % SECOND;
  }

  lemma RoundOfNegative(d: int64)
    requires d < 0
    ensures var e: int, r: int := -(d as int), Round(d);
            -r / SECOND == if e < SATURATION then (e + 500_000_000) / 1_000_000_000 else 9_223_372_036
  {
    var e: nat := -(d as int);
    RemainderOfNegative(e);
    NearestIs(e);
    var q, r := e / SECOND, e % SECOND;
    if e >= SATURATION {
      assert Round(d) == MIN_INT;
    } else if 2 * r < SECOND {
      assert Round(d) as int == -(q * SECOND);
    } else {
      assert Round(d) as int == -((q + 1) * SECOND);
    }
  }

  /** Of a negative duration only the seconds within the minute are shown, with a minus sign if there are any. */
  lemma FormatOfNegative(d: int64)
    requires d < 0
    ensures var e := -(d as int);
            var t := if e < 9_223_372_036_500_000_000 then (e + 500_000_000) / 1_000_000_000 else 9_223_372_036;
            FormatDuration(d) == PrintInt(-(t % 60)) + "s"
  {
    var r: int := Round(d);
    var t := -r / SECOND;
    assert r <= 0;
    RoundOfNegative(d);
    assert Minutes(d) <= 0;
    assert Quotient(Round(d), SECOND) == -t;
    assert Seconds(d) == -(t % 60);
  }

  // ---------- The same in floating point ----------

  const EXACT := 9_007_199_254_740_992.0  // whole numbers up to here are binary64 numbers
  const EPSILON := 0.000_000_000_000_001  // more than the relative rounding error
  const TINY := 0.000_000_000_001         // far above the numbers that lose precision

  /** What is used of rounding to the binary64 format of IEEE 754: exact numbers, order and relative error. */
  ghost predicate Binary64(round: real -> real) {
    && (forall x | 0.0 <= x <= EXACT && x.Floor as real == x :: round(x) == x)
    && (forall x, y | 0.0 <= x <= y <= EXACT :: round(x) <= round(y))
    && (forall x | TINY <= x <= EXACT :: x - x * EPSILON <= round(x) <= x + x * EPSILON)
  }

  /** `whole` units and `part` of one more, added up as Go's `Minutes` and `Seconds` do. */
  ghost function FloatUnits(round: real -> real, whole: int, part: real): real {
    round(whole as real + round(part))
  }

  lemma SumTruncates(round: real -> real, whole: nat, part: real)
    requires Binary64(round) && whole < 0x4_0000_0000
    requires part == 0.0 || 2.0 * TINY <= part <= 0.99
    ensures FloatUnits(round, whole, part).Floor == whole
  {
    var n := whole as real;
    assert round(0.0) == 0.0 && round(n) == n;
    var sum := n + round(part);
    if sum > n {
      assert TINY <= sum <= n + 0.995;
      assert n <= round(sum) < n + 1.0;
    }
  }

  lemma RestOfSeconds(k: nat)
    ensures (k * SECOND) / MINUTE == k / 60 && (k * SECOND) % MINUTE == (k % 60) * SECOND
  {
    assert k == 60 * (k / 60) + k % 60;
  }

  /** A rounded duration is a whole number of seconds, or the largest one. */
  lemma RoundedRests(d: int64)
    requires d >= 0
    ensures var t: int := Round(d);
            && 0 <= t / MINUTE < 0x4_0000_0000 && 0 <= t / SECOND < 0x4_0000_0000
            && 0 <= t % MINUTE <= 59 * SECOND && 0 <= t % SECOND <= 900_000_000
  {
    RoundIs(d);
    if d >= SATURATION {
      assert MAX_INT == 153_722_867 * MINUTE + 16_854_775_807;
    } else {
      RestOfSeconds(Round(d) / SECOND);
    }
  }

  lemma PartOfUnit(rest: nat, unit: nat)
    requires unit in {SECOND, MINUTE} && 100 * rest <= 99 * unit
    ensures var part := rest as real / unit as real; part == 0.0 || 2.0 * TINY <= part <= 0.99
  {
    var whole, part := unit as real, rest as real / unit as real;
    assert part * whole == rest as real;
    assert whole == 1_000_000_000.0 || whole == 60_000_000_000.0;
    if rest > 0 {
      assert 1.0 <= part * whole <= 0.99 * whole;
    }
  }

  lemma FloatUnitsAgree(round: real -> real, t: nat, unit: nat)
    requires Binary64(round) && unit in {SECOND, MINUTE}
    requires t / unit < 0x4_0000_0000 && 100 * (t % unit) <= 99 * unit
    ensures FloatUnits(round, t / unit, (t % unit) as real / unit as real).Floor == t / unit
  {
    PartOfUnit(t % unit, unit);
    SumTruncates(round, t / unit, (t % unit) as real / unit as real);
  }

  /** The code converts minutes and seconds to floating point and back; that loses nothing. */
  lemma FloatsAgree(round: real -> real, d: int64)
    requires Binary64(round) && d >= 0
    ensures var t: int := Round(d);
            var minutes := FloatUnits(round, t / MINUTE, (t % MINUTE) as real / MINUTE as real);
            var seconds := FloatUnits(round, t / SECOND, (t % SECOND) as real / SECOND as real);
            minutes.Floor == Minutes(d) && Remainder(seconds.Floor, 60) == Seconds(d)
  {
    RoundedRests(d);
    FloatUnitsAgree(round, Round(d), MINUTE);
    FloatUnitsAgree(round, Round(d), SECOND);
  }

  // ---------- Reading the text ----------

  function ReadNat(s: string): Option<nat> {
    if s != [] && AllDigits(s) then Some(ParseNat(s)) else None
  }

  /** The seconds a text of the form `XmYs` or `Ys` stands for. */
  function ReadDuration(text: string): Option<int> {
    if text == [] || text[|text| - 1] != 's' then None
    else
      var body := text[..|text| - 1];
      var i := Text.IndexOf(body, 'm');
      if i == |body| then ReadNat(body)
      else
        match (ReadNat(body[..i]), ReadNat(body[i + 1..]))
        case (Some(m), Some(s)) => Some(60 * m + s)
        case _ => None
  }

  lemma ReadOfPrint(n: nat)
    ensures ReadNat(PrintInt(n)) == Some(n) && 'm' !in PrintInt(n)
  {
    PrintNatIsPlain(n);
  }

  lemma ReadOfSeconds(body: string)
    requires 'm' !in body
    ensures ReadDuration(body + "s") == ReadNat(body)
  {
    assert (body + "s")[..|body|] == body;
    Text.IndexOfAbsent(body, 'm');
  }

  lemma ReadOfMinutes(m: string, s: string)
    requires 'm' !in m && ReadNat(m).Some? && ReadNat(s).Some?
    ensures ReadDuration(m + "m" + s + "s") == Some(60 * ReadNat(m).value + ReadNat(s).value)
  {
    var body := m + "m" + s;
    assert (body + "s")[..|body|] == body;
    Text.IndexOfConcat(m, 'm', s);
  }

  lemma ReadOfParts(m: nat, s: nat)
    ensures ReadDuration(FormatParts(m, s)) == Some(60 * m + s)
  {
    var a, b := PrintInt(m), PrintInt(s);
    assert ReadNat(a) == Some(m) && 'm' !in a by { ReadOfPrint(m); }
    assert ReadNat(b) == Some(s) && 'm' !in b by { ReadOfPrint(s); }
    if m > 0 {
      ReadOfMinutes(a, b);
    } else {
      ReadOfSeconds(b);
    }
  }

  lemma ReadOfShown(d: int64, m: nat, s: nat)
    requires Minutes(d) == m && Seconds(d) == s
    ensures ReadDuration(FormatDuration(d)) == Some(Shown(d))
  {
    assert FormatDuration(d) == FormatParts(m, s) && Shown(d) == 60 * m + s;
    ReadOfParts(m, s);
  }

  /** Reading the text back gives the number of seconds shown. */
  lemma FormatRoundTrip(d: int64)
    requires d >= 0
    ensures ReadDuration(FormatDuration(d)) == Some(Shown(d))
  {
    ShownIsRounded(d);
    ReadOfShown(d, Minutes(d), Seconds(d));
  }

  /** From five minutes on, at least five minutes are shown. */
  lemma FiveMinutesShow(d: int64)
    requires d >= 300_000_000_000
    ensures Minutes(d) >= 5 && Shown(d) >= 300
    ensures ReadDuration(FormatDuration(d)).Some? && ReadDuration(FormatDuration(d)).value >= 300
  {
    ShownIsNearest(d);
    ShownIsRounded(d);
    FormatRoundTrip(d);
  }
}
