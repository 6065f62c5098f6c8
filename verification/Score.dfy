/**
 The created-at score as the program computes it: a binary64 sum of whole seconds and a rounded fraction
 (internal/store/redis/store.go:518-522, internal/store/memory/score.go:8-11), printed with six decimals as a
 cursor and parsed back (store.go:379-397). Rounding is to nearest, ties to even (section 4.3.1 of IEEE 754-2019),
 stated on integers: a double in [2^30, 2^31) is given by its significand in units of 2^-22.
 */
module Score {
  import opened Common
  import Decimal

  const MILLION: int := 1_000_000
  const TWO_22: int := 0x40_0000
  const TWO_30: int := 0x4000_0000
  const TWO_31: int := 0x8000_0000
  const TWO_52: int := 0x10_0000_0000_0000

  function Pow2(n: nat): int {
    if n == 0 then 1 else 2 * Pow2(n - 1)
  }

  /** q is num / den rounded to the nearest integer, to an even one on a tie. */
  predicate Rounds(q: int, num: int, den: int) {
    && -den <= 2 * (q * den - num) <= den
    && (2 * (q * den - num) == den || 2 * (q * den - num) == -den ==> q % 2 == 0)
  }

  /**
   The program's two roundings: m / 10^6 scaled into 53 significant bits and rounded to `fraction` units of
   2^-shift, then the sum with the seconds rounded to `units` of 2^-22.
   */
  datatype Sum = Sum(shift: nat, fraction: int, units: int)

  predicate Computes(c: Sum, seconds: int, m: int) {
    && c.shift >= 53
    && (m > 0 ==> MILLION * TWO_52 <= m * Pow2(c.shift) < 2 * (MILLION * TWO_52))
    && Rounds(c.fraction, m * Pow2(c.shift), MILLION)
    && Rounds(c.units, seconds * Pow2(c.shift) + c.fraction, Pow2(c.shift - 22))
  }

  predicate InRange(seconds: int, m: int) {
    TWO_30 <= seconds < TWO_31 && 0 <= m < MILLION
  }

  /** The exact score in millionths, the number its six printed decimals should stand for. */
  function Micros(seconds: int, m: int): int {
    seconds * MILLION + m
  }

  // ---------- Powers of two ----------

  lemma {:induction false} Pow2Sum(a: nat, b: nat)
    ensures Pow2(a + b) == Pow2(a) * Pow2(b)
    decreases b
  {
    if b > 0 {
      Pow2Sum(a, b - 1);
      assert Pow2(a) * Pow2(b) == 2 * (Pow2(a) * Pow2(b - 1));
    }
  }

  lemma {:induction false} Pow2Grows(a: nat, b: nat)
    requires a <= b
    ensures 1 <= Pow2(a) <= Pow2(b)
    decreases b
  {
    if b > 0 {
      Pow2Grows(if a == b then a - 1 else a, b - 1);
    }
  }

  lemma PowersNamed()
    ensures Pow2(10) == 1024 && Pow2(20) == 0x10_0000 && Pow2(22) == TWO_22 && Pow2(31) == TWO_31
    ensures Pow2(52) == TWO_52
  {
    assert Pow2(5) == 32;
    Pow2Sum(5, 5);
    Pow2Sum(10, 10);
    Pow2Sum(20, 2);
    assert Pow2(2) == 4;
    Pow2Sum(20, 10);
    Pow2Sum(30, 1);
    assert Pow2(1) == 2;
    Pow2Sum(30, 22);
  }

  lemma ShiftedUnit(s: nat)
    requires s >= 53
    ensures Pow2(s) == TWO_22 * Pow2(s - 22) && Pow2(s - 22) >= TWO_31
  {
    Pow2Sum(s - 22, 22);
    Pow2Grows(31, s - 22);
    PowersNamed();
  }

  // ---------- Rounding twice is rounding once ----------

  /** Anything closer than half a unit is the rounding. */
  lemma NearestIsRounding(q: int, v: int, num: int, den: int)
    requires Rounds(q, num, den) && -den < 2 * (v * den - num) < den
    ensures q == v
  {
    var d := q - v;
    assert q * den - v * den == d * den;
    Multiple(d, den);
  }

  lemma Multiple(d: int, den: int)
    requires den > 0
    ensures d >= 1 ==> d * den >= den
    ensures d <= -1 ==> d * den <= -den
  {
  }

  lemma Scaling(seconds: int, m: int, f: int, v: int, e: int)
    ensures e * (v * MILLION - (seconds * MILLION + m) * TWO_22)
         == MILLION * (v * e - (seconds * (TWO_22 * e) + f)) + (f * MILLION - m * (TWO_22 * e))
  {
    var x, y, z := v * e, seconds * e, m * e;
    assert e * (v * MILLION) == MILLION * x;
    assert e * ((seconds * MILLION + m) * TWO_22) == MILLION * TWO_22 * y + TWO_22 * z;
    assert seconds * (TWO_22 * e) == TWO_22 * y && m * (TWO_22 * e) == TWO_22 * z;
  }

  /** The rounded fraction's error, seen from the sum's last place, is too small to matter. */
  lemma ErrorBound(w: int, a: int, b: int, e: int)
    requires e > MILLION && e * w == MILLION * a + b
    requires -MILLION <= 2 * b <= MILLION && -e <= 2 * a <= e
    ensures -MILLION <= 2 * w <= MILLION
  {
    OrderKept(e, 2 * w, MILLION + 1);
    OrderKept(e, -MILLION - 1, 2 * w);
  }

  lemma OrderKept(e: int, x: int, y: int)
    requires e > 0
    ensures x >= y ==> e * x >= e * y
  {
  }

  /**
   No multiple of a millionth lies halfway between two units: over the common denominator the difference is a
   multiple of 64, half a unit is not.
   */
  lemma NeverHalfway(v: int, micros: int)
    ensures 2 * (v * MILLION - micros * TWO_22) != MILLION
    ensures 2 * (v * MILLION - micros * TWO_22) != -MILLION
  {
    var k := v * 15625 - micros * 65536;
    assert v * MILLION - micros * TWO_22 == 64 * k;
  }

  /** The computed double is within half a unit of the exact score. */
  lemma ScoreIsNear(c: Sum, seconds: int, m: int)
    requires Computes(c, seconds, m)
    ensures -MILLION < 2 * (c.units * MILLION - Micros(seconds, m) * TWO_22) < MILLION
  {
    var e := Pow2(c.shift - 22);
    ShiftedUnit(c.shift);
    Scaling(seconds, m, c.fraction, c.units, e);
    var w := c.units * MILLION - Micros(seconds, m) * TWO_22;
    ErrorBound(w, c.units * e - (seconds * (TWO_22 * e) + c.fraction), c.fraction * MILLION - m * (TWO_22 * e), e);
    NeverHalfway(c.units, Micros(seconds, m));
  }

  /** The sum stays in [2^30, 2^31), where doubles are the multiples of 2^-22: its significand has 53 bits. */
  lemma ScoreIsDouble(c: Sum, seconds: int, m: int)
    requires Computes(c, seconds, m) && InRange(seconds, m)
    ensures TWO_52 <= c.units < 2 * TWO_52
  {
    ScoreIsNear(c, seconds, m);
  }

  /**
   Cursor text is exact: whatever the computed double is, six decimals print exactly its seconds and remainder, and
   parsing them back gives that same double.
   */
  lemma CursorIsExact(c: Sum, seconds: int, m: int, printed: int, parsed: int)
    requires Computes(c, seconds, m)
    requires Rounds(printed, c.units * MILLION, TWO_22)
    requires Rounds(parsed, printed * TWO_22, MILLION)
    ensures printed == Micros(seconds, m) && parsed == c.units
  {
    ScoreIsNear(c, seconds, m);
    NearestIsRounding(printed, Micros(seconds, m), c.units * MILLION, TWO_22);
    NearestIsRounding(parsed, c.units, printed * TWO_22, MILLION);
  }

  /** Doubles order as the exact scores do, so comparing scores and comparing millionths is the same. */
  lemma ScoresOrder(c: Sum, s: int, m: int, d: Sum, t: int, n: int)
    requires Computes(c, s, m) && Computes(d, t, n)
    ensures c.units < d.units <==> Micros(s, m) < Micros(t, n)
    ensures c.units == d.units <==> Micros(s, m) == Micros(t, n)
  {
    ScoreIsNear(c, s, m);
    ScoreIsNear(d, t, n);
  }

  // ---------- There is such a double ----------

  function RoundHalfEven(num: int, den: int): int
    requires den > 0
  {
    var q, r := num / den, num % den;
    if 2 * r < den || (2 * r == den && q % 2 == 0) then q else q + 1
  }

  lemma RoundingExists(num: int, den: int)
    requires den > 0
    ensures Rounds(RoundHalfEven(num, den), num, den)
  {
    var q, r := num / den, num % den;
    assert num == q * den + r;
    assert (q + 1) * den == q * den + den;
  }

  /** The shift that brings m / 10^6 into 53 significant bits. */
  lemma {:induction false} ShiftExists(m: int, s: nat) returns (r: nat)
    requires 1 <= m < MILLION && 53 <= s <= 72
    requires m * Pow2(s) < 2 * (MILLION * TWO_52)
    ensures r >= 53 && MILLION * TWO_52 <= m * Pow2(r) < 2 * (MILLION * TWO_52)
    decreases 72 - s
  {
    TopShift(m);
    if m * Pow2(s) >= MILLION * TWO_52 {
      r := s;
    } else {
      assert m * Pow2(s + 1) == 2 * (m * Pow2(s));
      r := ShiftExists(m, s + 1);
    }
  }

  /** Shifted by 72, even one millionth has its 53 bits. */
  lemma TopShift(m: int)
    requires m >= 1
    ensures m * Pow2(72) >= MILLION * TWO_52
  {
    Pow2Sum(20, 52);
    PowersNamed();
    Pow2Grows(0, 72);
    OrderKept(Pow2(72), m, 1);
  }

  /** Every score in range is computed by some correctly rounded sum. */
  lemma ScoreExists(seconds: int, m: int) returns (c: Sum)
    requires InRange(seconds, m)
    ensures Computes(c, seconds, m)
  {
    var s: nat := 53;
    if m > 0 {
      PowersNamed();
      Pow2Sum(52, 1);
      assert Pow2(1) == 2 && Pow2(53) == 2 * TWO_52;
      s := ShiftExists(m, 53);
    }
    ShiftedUnit(s);
    var f := RoundHalfEven(m * Pow2(s), MILLION);
    RoundingExists(m * Pow2(s), MILLION);
    RoundingExists(seconds * Pow2(s) + f, Pow2(s - 22));
    c := Sum(s, f, RoundHalfEven(seconds * Pow2(s) + f, Pow2(s - 22)));
  }

  // ---------- The text itself ----------

  /** A number below 10^k in exactly k digits. */
  function Padded(n: nat, k: nat): string {
    if k == 0 then "" else Padded(n / 10, k - 1) + [Decimal.DigitChar(n % 10)]
  }

  lemma {:induction false} PaddedLength(n: nat, k: nat)
    ensures |Padded(n, k)| == k
    decreases k
  {
    if k > 0 {
      PaddedLength(n / 10, k - 1);
    }
  }

  function Pow10(k: nat): nat {
    if k == 0 then 1 else 10 * Pow10(k - 1)
  }

  lemma {:induction false} ParsePadded(n: nat, k: nat)
    requires k >= 1 && n < Pow10(k)
    ensures Decimal.ParseNat(Padded(n, k)) == Some(n)
    decreases k
  {
    var s := Padded(n, k);
    PaddedLength(n, k);
    PaddedLength(n / 10, k - 1);
    Decimal.DigitRoundTrip(n % 10);
    assert s[..|s| - 1] == Padded(n / 10, k - 1);
    assert s[|s| - 1] == Decimal.DigitChar(n % 10);
    if k > 1 {
      ParsePadded(n / 10, k - 1);
    } else {
      assert n / 10 == 0;
    }
  }

  /** Six decimals of a number of millionths, as %0.6f lays them out. */
  function FixedText(micros: nat): string {
    Decimal.PrintNat(micros / 1_000_000) + "." + Padded(micros % 1_000_000, 6)
  }

  /** The same with a sign. */
  function SignedText(micros: int): string {
    if micros < 0 then "-" + FixedText(-micros) else FixedText(micros)
  }

  /** The decimal number a text of that shape stands for, in millionths. */
  function FixedValue(s: string): Option<nat> {
    var n := |s|;
    if n < 8 || s[n - 7] != '.' then None
    else
      var (whole, rest) := (Decimal.ParseNat(s[..n - 7]), Decimal.ParseNat(s[n - 6..]));
      if whole.None? || rest.None? then None else Some(whole.value * 1_000_000 + rest.value)
  }

  lemma FixedRoundTrip(micros: nat)
    ensures FixedValue(FixedText(micros)) == Some(micros)
  {
    var whole, rest := micros / 1_000_000, micros % 1_000_000;
    var a, b := Decimal.PrintNat(whole), Padded(rest, 6);
    var s := a + "." + b;
    PaddedLength(rest, 6);
    SixDigits();
    Decimal.ParsePrintNat(whole);
    ParsePadded(rest, 6);
    assert s[..|s| - 7] == a && s[|s| - 7] == '.' && s[|s| - 6..] == b;
  }

  /** Digits, a point and six digits. */
  lemma FixedShape(micros: nat)
    ensures var (s, n) := (FixedText(micros), |FixedText(micros)|);
            n >= 8 && s[n - 7] == '.' && forall i :: 0 <= i < n && i != n - 7 ==> '0' <= s[i] <= '9'
  {
    var a, b := Decimal.PrintNat(micros / 1_000_000), Padded(micros % 1_000_000, 6);
    PaddedLength(micros % 1_000_000, 6);
    PaddedDigits(micros % 1_000_000, 6);
    assert |FixedText(micros)| - 7 == |a| && FixedText(micros)[..|a|] == a && FixedText(micros)[|a| + 1..] == b;
    forall i | 0 <= i < |a| + 7 && i != |a|
      ensures '0' <= FixedText(micros)[i] <= '9'
    {
      if i < |a| {
        assert FixedText(micros)[i] == a[i];
      } else {
        assert FixedText(micros)[i] == b[i - |a| - 1] && b[i - |a| - 1] in b;
      }
    }
  }

  lemma {:induction false} PaddedDigits(n: nat, k: nat)
    ensures forall c :: c in Padded(n, k) ==> '0' <= c <= '9'
    decreases k
  {
    if k > 0 {
      PaddedDigits(n / 10, k - 1);
    }
  }

  lemma SixDigits()
    ensures Pow10(6) == 1_000_000
  {
    assert Pow10(2) == 100;
    assert Pow10(4) == 10_000;
  }

  /**
   A store's cursor, sent back by the client, is the very score it was printed from: the text of the rounded double
   reads as a decimal whose rounding is that double.
   */
  lemma CursorRoundTrip(c: Sum, seconds: int, m: int, printed: nat, parsed: int)
    requires InRange(seconds, m) && Computes(c, seconds, m) && Rounds(printed, c.units * MILLION, TWO_22)
    requires FixedValue(FixedText(printed)).Some? ==>
               Rounds(parsed, FixedValue(FixedText(printed)).value * TWO_22, MILLION)
    ensures FixedText(printed) == FixedText(seconds * 1_000_000 + m) && parsed == c.units
  {
    FixedRoundTrip(printed);
    CursorIsExact(c, seconds, m, printed, parsed);
  }
}
