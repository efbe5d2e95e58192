/** Decimal text of machine integers: `fmt.Sprint` on an int and `strconv.Atoi`. */
module Decimal {
  import opened Outcomes

  const MIN_INT := -0x8000_0000_0000_0000
  const MAX_INT := 0x7FFF_FFFF_FFFF_FFFF

  type int64 = n: int | MIN_INT <= n <= MAX_INT

  predicate IsDigit(c: char) {
    '0' <= c <= '9'
  }

  predicate AllDigits(s: string) {
    forall c <- s :: IsDigit(c)
  }

  function DigitChar(d: nat): char
    requires d < 10
  {
    '0' + d as char
  }

  function DigitValue(c: char): (d: nat)
    requires IsDigit(c)
    ensures d < 10 && DigitChar(d) == c
  {
    (c - '0') as nat
  }

  function PrintNat(n: nat): string {
    if n < 10 then [DigitChar(n)] else PrintNat(n / 10) + [DigitChar(n % 10)]
  }

  function PrintInt(n: int): string {
    if n < 0 then "-" + PrintNat(-n) else PrintNat(n)
  }

  function ParseNat(s: string): nat
    requires AllDigits(s)
  {
    if s == [] then 0 else 10 * ParseNat(s[..|s| - 1]) + DigitValue(s[|s| - 1])
  }

  /** An optional sign, then at least one digit, within the range of a 64-bit int. */
  function Atoi(s: string): Option<int> {
    var digits := if s != [] && (s[0] == '+' || s[0] == '-') then s[1..] else s;
    if digits == [] || !AllDigits(digits) then None
    else
      var magnitude: int := ParseNat(digits);
      var n := if s[0] == '-' then -magnitude else magnitude;
      if MIN_INT <= n <= MAX_INT then Some(n) else None
  }

  /** A decimal numeral without superfluous zeros. */
  predicate PlainNat(s: string) {
    s != [] && AllDigits(s) && (|s| > 1 ==> s[0] != '0')
  }

  /** Zero, or a numeral that begins with a digit other than zero, perhaps after a minus sign. */
  predicate Plain(s: string) {
    s == "0" || (s != "" && '1' <= s[0] <= '9') || (|s| > 1 && s[0] == '-' && '1' <= s[1] <= '9')
  }

  lemma {:induction false} PrintNatIsPlain(n: nat)
    ensures PlainNat(PrintNat(n)) && ParseNat(PrintNat(n)) == n
    ensures n > 0 ==> PrintNat(n)[0] != '0'
  {
    if n < 10 {
      assert ParseNat([]) == 0 && [DigitChar(n)][..0] == [];
    } else {
      PrintNatIsPlain(n / 10);
      var s := PrintNat(n / 10);
      assert (s + [DigitChar(n % 10)])[..|s|] == s;
    }
  }

  lemma {:induction false} PrintOfParseNat(s: string)
    requires PlainNat(s)
    ensures PrintNat(ParseNat(s)) == s
    ensures s[0] != '0' ==> ParseNat(s) > 0
  {
    var front, last := s[..|s| - 1], s[|s| - 1];
    assert s == front + [last];
    if front == [] {
      assert ParseNat(front) == 0;
    } else {
      PrintOfParseNat(front);
      assert ParseNat(front) > 0;
    }
  }

  /** Among the digit strings of a value, the one that PrintNat writes is the plain one. */
  lemma OnlyPlainNatIsPrinted(s: string)
    requires s != [] && AllDigits(s)
    ensures s == PrintNat(ParseNat(s)) <==> PlainNat(s)
    ensures PlainNat(s) <==> s == "0" || s[0] != '0'
    ensures PlainNat(s) && ParseNat(s) == 0 ==> s == "0"
  {
    assert |s| == 1 ==> s == [s[0]];
    PrintNatIsPlain(ParseNat(s));
    if PlainNat(s) {
      PrintOfParseNat(s);
    }
  }

  /** Printing any machine integer and parsing the text gives it back. */
  lemma AtoiOfPrint(n: int64)
    ensures Atoi(PrintInt(n)) == Some(n)
  {
    var sign, digits := if n < 0 then "-" else "", PrintNat(Magnitude(n));
    assert PrintInt(n) == sign + digits;
    PrintNatIsPlain(Magnitude(n));
    AtoiOfSigned(PrintInt(n), sign, digits, n);
  }

  lemma FirstPrinted(n: nat)
    ensures PrintNat(n) != [] && IsDigit(PrintNat(n)[0])
  {
    PrintNatIsPlain(n);
    assert PrintNat(n)[0] in PrintNat(n);
  }

  lemma SamePrefix(a: string, x: string, y: string)
    ensures a + x == a + y <==> x == y
  {
    assert (a + x)[|a|..] == x && (a + y)[|a|..] == y;
  }

  lemma PlainIsPositive(digits: string)
    requires digits != [] && AllDigits(digits)
    ensures ParseNat(digits) > 0 && digits == PrintNat(ParseNat(digits)) <==> digits[0] != '0'
  {
    if digits[0] != '0' {
      PrintOfParseNat(digits);
    }
    PrintNatIsPlain(ParseNat(digits));
  }

  lemma MinusIsPrinted(digits: string, n: int)
    requires n <= 0
    ensures "-" + digits == PrintInt(n) <==> n < 0 && digits == PrintNat(-n)
  {
    if n < 0 {
      SamePrefix("-", digits, PrintNat(-n));
    } else {
      FirstPrinted(0);
    }
  }

  lemma PrintedWithMinus(digits: string, n: int)
    requires digits != [] && AllDigits(digits) && n == -(ParseNat(digits) as int)
    ensures "-" + digits == PrintInt(n) <==> '1' <= digits[0] <= '9'
  {
    assert '1' <= digits[0] <= '9' <==> digits[0] != '0' by { assert digits[0] in digits; }
    PlainIsPositive(digits);
    MinusIsPrinted(digits, n);
  }

  lemma OnlyPlainSignedIsPrinted(s: string)
    requires Atoi(s).Some? && (s[0] == '-' || s[0] == '+')
    ensures s == PrintInt(Atoi(s).value) <==> Plain(s)
  {
    var digits := s[1..];
    if s[0] == '-' {
      assert s == "-" + digits;
      PrintedWithMinus(digits, Atoi(s).value);
    } else {
      FirstPrinted(ParseNat(digits));
    }
  }

  /** Of all the spellings Atoi accepts for an integer, exactly the plain one is its printed form. */
  lemma OnlyPlainIsPrinted(s: string)
    requires Atoi(s).Some?
    ensures s == PrintInt(Atoi(s).value) <==>
              s == "0" || (s != "" && '1' <= s[0] <= '9') || (|s| > 1 && s[0] == '-' && '1' <= s[1] <= '9')
  {
    if s[0] == '-' || s[0] == '+' {
      OnlyPlainSignedIsPrinted(s);
    } else {
      assert s[0] in s;
      OnlyPlainNatIsPrinted(s);
    }
  }

  // ---------- Which texts are accepted ----------

  function Zeros(k: nat): string {
    if k == 0 then "" else "0" + Zeros(k - 1)
  }

  function Magnitude(n: int): nat {
    if n < 0 then -n else n
  }

  predicate IsSign(sign: string) {
    sign == "" || sign == "+" || sign == "-"
  }

  /** A sign that fits the number, `k` zeros, and the plain digits of the number. */
  predicate SpellsWith(s: string, n: int, sign: string, k: nat) {
    && s == sign + (Zeros(k) + PrintNat(Magnitude(n)))
    && IsSign(sign) && (n < 0 ==> sign == "-") && (n > 0 ==> sign != "-")
  }

  /** An optional sign, any number of zeros, and the plain digits of the number. */
  ghost predicate Spells(s: string, n: int) {
    exists sign, k :: SpellsWith(s, n, sign, k)
  }

  lemma {:induction false} ZeroInFront(digits: string)
    requires AllDigits(digits)
    ensures AllDigits("0" + digits) && ParseNat("0" + digits) == ParseNat(digits)
  {
    if digits == [] {
      assert "0" + digits == "0" && "0"[..0] == [];
    } else {
      var front := digits[..|digits| - 1];
      ZeroInFront(front);
      assert ("0" + digits)[..|digits|] == "0" + front;
    }
  }

  lemma {:induction false} ZerosInFront(k: nat, digits: string)
    requires digits != [] && AllDigits(digits)
    ensures AllDigits(Zeros(k) + digits) && ParseNat(Zeros(k) + digits) == ParseNat(digits)
  {
    if k == 0 {
      assert Zeros(0) + digits == digits;
    } else {
      assert Zeros(k) + digits == "0" + (Zeros(k - 1) + digits);
      ZerosInFront(k - 1, digits);
      ZeroInFront(Zeros(k - 1) + digits);
    }
  }

  lemma {:induction false} DigitsAreZerosAndPlain(digits: string) returns (k: nat)
    requires digits != [] && AllDigits(digits)
    ensures digits == Zeros(k) + PrintNat(ParseNat(digits))
  {
    if PlainNat(digits) {
      PrintOfParseNat(digits);
      k := 0;
    } else {
      var rest := digits[1..];
      k := DigitsAreZerosAndPlain(rest);
      assert digits == "0" + rest;
      ZeroInFront(rest);
      k := k + 1;
    }
  }

  lemma AtoiOfDigits(sign: string, digits: string)
    requires IsSign(sign) && digits != [] && AllDigits(digits)
    ensures var n: int := if sign == "-" then -(ParseNat(digits) as int) else ParseNat(digits);
            Atoi(sign + digits) == if MIN_INT <= n <= MAX_INT then Some(n) else None
  {
    var s := sign + digits;
    if sign == "" {
      assert s == digits && digits[0] in digits;
    } else {
      assert s[1..] == digits && s[0] == sign[0];
    }
  }

  /** The text is a sign or none, and the rest, which is all digits if the text is accepted. */
  lemma SignAndDigits(s: string) returns (sign: string, digits: string)
    ensures s == sign + digits && IsSign(sign)
    ensures sign == "-" <==> s != "" && s[0] == '-'
    ensures sign == "" ==> s == "" || (s[0] != '+' && s[0] != '-')
    ensures Atoi(s).Some? ==> digits != [] && AllDigits(digits)
  {
    if s != "" && s[0] == '+' {
      sign, digits := "+", s[1..];
    } else if s != "" && s[0] == '-' {
      sign, digits := "-", s[1..];
    } else {
      sign, digits := "", s;
    }
  }

  lemma DigitsOfSpelling(k: nat, m: nat)
    ensures var digits := Zeros(k) + PrintNat(m);
            digits != [] && AllDigits(digits) && ParseNat(digits) == m
  {
    PrintNatIsPlain(m);
    ZerosInFront(k, PrintNat(m));
  }

  lemma AtoiOfSigned(s: string, sign: string, digits: string, n: int)
    requires IsSign(sign) && digits != [] && AllDigits(digits) && s == sign + digits
    requires MIN_INT <= n <= MAX_INT && ParseNat(digits) == Magnitude(n)
    requires (n < 0 ==> sign == "-") && (n > 0 ==> sign != "-")
    ensures Atoi(s) == Some(n)
  {
    AtoiOfDigits(sign, digits);
  }

  lemma AtoiOfSpelling(s: string, n: int)
    requires MIN_INT <= n <= MAX_INT && Spells(s, n)
    ensures Atoi(s) == Some(n)
  {
    var sign, k :| SpellsWith(s, n, sign, k);
    DigitsOfSpelling(k, Magnitude(n));
    AtoiOfSigned(s, sign, Zeros(k) + PrintNat(Magnitude(n)), n);
  }

  lemma SpellingOfAtoi(s: string)
    requires Atoi(s).Some?
    ensures Spells(s, Atoi(s).value)
  {
    var n := Atoi(s).value;
    var sign, digits := SignAndDigits(s);
    AtoiOfDigits(sign, digits);
    var k := DigitsAreZerosAndPlain(digits);
    assert ParseNat(digits) == Magnitude(n);
    assert SpellsWith(s, n, sign, k);
  }

  /** Accepted are exactly the spellings of the 64-bit integers, each for its number. */
  lemma AtoiExactly(s: string, n: int)
    ensures Atoi(s) == Some(n) <==> -0x8000_0000_0000_0000 <= n <= 0x7FFF_FFFF_FFFF_FFFF && Spells(s, n)
  {
    if MIN_INT <= n <= MAX_INT && Spells(s, n) {
      AtoiOfSpelling(s, n);
    }
    if Atoi(s) == Some(n) {
      SpellingOfAtoi(s);
    }
  }

  // ---------- What they stand for, digit by digit ----------

  lemma AtoiOfOneDigit(i: nat)
    requires i < 10
    ensures Atoi(["0123456789"[i]]) == Some(i)
  {
    DigitAt(i);
    assert ["0123456789"[i]][..0] == [];
    AtoiOfDigits("", ["0123456789"[i]]);
    assert "" + ["0123456789"[i]] == ["0123456789"[i]];
  }

  lemma DigitAt(i: nat)
    requires i < 10
    ensures IsDigit("0123456789"[i]) && DigitValue("0123456789"[i]) == i
  {
    assert "0123456789"[i] == DigitChar(i);
  }

  /** One more digit makes ten times the number and the digit, out of range or not. */
  lemma AtoiOfNextDigit(s: string, i: nat)
    requires Atoi(s).Some? && i < 10
    ensures var v := Atoi(s).value;
            var n := if s[0] == '-' then 10 * v - i else 10 * v + i;
            var inRange := -0x8000_0000_0000_0000 <= n <= 0x7FFF_FFFF_FFFF_FFFF;
            Atoi(s + ["0123456789"[i]]) == if inRange then Some(n) else None
  {
    var c := "0123456789"[i];
    var sign, digits := SignAndDigits(s);
    assert s + [c] == sign + (digits + [c]);
    assert AllDigits(digits + [c]) && ParseNat(digits + [c]) == 10 * ParseNat(digits) + i by {
      DigitAt(i);
      assert (digits + [c])[..|digits|] == digits;
    }
    AtoiOfDigits(sign, digits);
    AtoiOfDigits(sign, digits + [c]);
  }

  /** A plus sign in front of an unsigned text changes nothing, and a minus sign negates it. */
  lemma AtoiOfSign(s: string)
    requires s != "" && s[0] != '+' && s[0] != '-'
    ensures Atoi("+" + s) == Atoi(s)
    ensures Atoi(s).Some? ==> Atoi("-" + s) == Some(-Atoi(s).value)
  {
    assert Atoi("+" + s) == Atoi(s) by { assert ("+" + s)[1..] == s; }
    if Atoi(s).Some? {
      assert ("-" + s)[1..] == s;
      AtoiOfDigits("-", s);
    }
  }

  /** After an optional sign at least one digit is needed, and digits are all that may follow. */
  lemma AtoiNeedsDigits(s: string)
    requires Atoi(s).Some?
    ensures var digits := if s != "" && (s[0] == '+' || s[0] == '-') then s[1..] else s;
            digits != "" && forall c <- digits :: '0' <= c <= '9'
  {
    var sign, digits := SignAndDigits(s);
    assert forall c <- digits :: IsDigit(c);
  }

  /** What is accepted stays accepted without its last digit. */
  lemma AtoiOfFront(s: string, c: char)
    requires Atoi(s + [c]).Some? && s !in ["", "+", "-"]
    ensures Atoi(s).Some?
  {
    var sign, digits := SignAndDigits(s + [c]);
    var front := digits[..|digits| - 1];
    assert s == sign + front;
    assert AllDigits(front) && ParseNat(digits) == 10 * ParseNat(front) + DigitValue(c) by {
      assert digits == front + [c] && c in digits && forall d <- front :: d in digits;
    }
    AtoiOfDigits(sign, digits);
    AtoiOfDigits(sign, front);
  }
}
