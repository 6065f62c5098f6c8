/** Integers as Redis keeps them: base-ten text, printed by strconv.FormatInt and HINCRBY, read by strconv.ParseInt. */
module Decimal {
  import opened Common

  function DigitChar(d: nat): char
    requires d < 10
  {
    '0' + (d as char)
  }

  function DigitValue(c: char): Option<nat> {
    if '0' <= c <= '9' then Some((c as int) - ('0' as int)) else None
  }

  lemma DigitRoundTrip(d: nat)
    requires d < 10
    ensures DigitValue(DigitChar(d)) == Some(d)
    ensures '0' <= DigitChar(d) <= '9'
  {
  }

  lemma DigitsAreDecimal(d: nat)
    requires d < 10
    ensures DigitChar(d) == "0123456789"[d]
  {
  }

  function PrintNat(n: nat): (s: string)
    ensures s != ""
    ensures forall i :: 0 <= i < |s| ==> '0' <= s[i] <= '9'
  {
    if n < 10 then [DigitChar(n)] else PrintNat(n / 10) + [DigitChar(n % 10)]
  }

  function Print(n: int): string {
    if n < 0 then "-" + PrintNat(-n) else PrintNat(n)
  }

  function ParseNat(s: string): Option<nat> {
    if s == "" then None
    else
      match DigitValue(s[|s| - 1])
      case None => None
      case Some(d) =>
        if |s| == 1 then Some(d)
        else
          match ParseNat(s[..|s| - 1])
          case None => None
          case Some(n) => Some(10 * n + d)
  }

  function Signed(negative: bool, r: Option<nat>): Option<int> {
    if r.None? then None
    else
      var n: int := r.value;
      Some(if negative then -n else n)
  }

  /** strconv.ParseInt in base ten, with its optional sign; errors are ignored by callers, who read zero. */
  function Parse(s: string): Option<int> {
    if s == "" then None
    else if s[0] == '-' then Signed(true, ParseNat(s[1..]))
    else if s[0] == '+' then Signed(false, ParseNat(s[1..]))
    else Signed(false, ParseNat(s))
  }

  function ParseOrZero(s: string): int {
    match Parse(s) case None => 0 case Some(n) => n
  }

  lemma {:induction false} ParsePrintNat(n: nat)
    ensures ParseNat(PrintNat(n)) == Some(n)
  {
    DigitRoundTrip(n % 10);
    if n >= 10 {
      ParsePrintNat(n / 10);
      var s := PrintNat(n);
      assert s[..|s| - 1] == PrintNat(n / 10);
    }
  }

  lemma ParseNegative(s: string)
    requires s != ""
    ensures Parse("-" + s) == Signed(true, ParseNat(s))
  {
    assert ("-" + s)[1..] == s;
  }

  /** Reading back a printed integer gives the integer. */
  lemma ParsePrint(n: int)
    ensures Parse(Print(n)) == Some(n)
    ensures ParseOrZero(Print(n)) == n
    ensures Print(n) != "" && (Print(n)[0] == '-' <==> n < 0)
  {
    if n < 0 {
      ParsePrintNat(-n);
      ParseNegative(PrintNat(-n));
    } else {
      ParsePrintNat(n);
      assert '0' <= PrintNat(n)[0] <= '9';
    }
  }

  lemma PrintDistinct(m: int, n: int)
    requires Print(m) == Print(n)
    ensures m == n
  {
    ParsePrint(m);
    ParsePrint(n);
  }
}
