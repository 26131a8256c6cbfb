/** Characters, trimming and suffixes of strings, and decimal numerals as Ruby reads and prints them. */
module Text {

  // ------------------------------------------------------------------ trimming

  predicate IsSpace(c: char) {
    c == ' ' || c == '\t' || c == '\n' || c == '\r' || c == '\0' || c as int == 11 || c as int == 12
  }

  function TrimLeft(s: string): (r: string)
    ensures |r| <= |s| && r == s[|s| - |r|..]
    ensures r == "" || !IsSpace(r[0])
    ensures forall i :: 0 <= i < |s| - |r| ==> IsSpace(s[i])
  {
    if s == "" || !IsSpace(s[0]) then s else TrimLeft(s[1..])
  }

  function TrimRight(s: string): (r: string)
    ensures |r| <= |s| && r == s[..|r|]
    ensures r == "" || !IsSpace(r[|r| - 1])
    ensures forall i :: |r| <= i < |s| ==> IsSpace(s[i])
  {
    if s == "" || !IsSpace(s[|s| - 1]) then s else TrimRight(s[..|s| - 1])
  }

  function Strip(s: string): string {
    TrimRight(TrimLeft(s))
  }

  predicate Blank(s: string) {
    forall i :: 0 <= i < |s| ==> IsSpace(s[i])
  }

  lemma StripBlank(s: string)
    ensures Strip(s) == "" <==> Blank(s)
  {
    var t := TrimLeft(s);
    if t != "" {
      assert t[0] == s[|s| - |t|];
    }
  }

  /** The characters that are stripped: null, tab, line feed, vertical tab, form feed, return, blank. */
  lemma SpaceCodes(c: char)
    ensures IsSpace(c) <==> c as int in {0, 9, 10, 11, 12, 13, 32}
  {
  }

  lemma {:induction false} TrimLeftPadded(left: string, s: string)
    requires Blank(left) && s != "" && !IsSpace(s[0])
    ensures TrimLeft(left + s) == s
  {
    if left == "" {
      assert left + s == s;
    } else {
      assert (left + s)[1..] == left[1..] + s;
      TrimLeftPadded(left[1..], s);
    }
  }

  lemma {:induction false} TrimRightPadded(s: string, right: string)
    requires Blank(right) && s != "" && !IsSpace(s[|s| - 1])
    ensures TrimRight(s + right) == s
  {
    if right == "" {
      assert s + right == s;
    } else {
      assert (s + right)[..|s + right| - 1] == s + right[..|right| - 1];
      TrimRightPadded(s, right[..|right| - 1]);
    }
  }

  /** What surrounds a text is stripped, and nothing of the text. */
  lemma StripPadded(left: string, s: string, right: string)
    requires Blank(left) && Blank(right) && s != "" && !IsSpace(s[0]) && !IsSpace(s[|s| - 1])
    ensures Strip(left + s + right) == s
  {
    assert left + s + right == left + (s + right) && (s + right)[0] == s[0];
    TrimLeftPadded(left, s + right);
    TrimRightPadded(s, right);
  }

  lemma StripTight(s: string)
    requires s != "" && !IsSpace(s[0]) && !IsSpace(s[|s| - 1])
    ensures Strip(s) == s
  {
  }

  // ------------------------------------------------------------------ suffixes

  predicate EndsWith(s: string, suffix: string) {
    |suffix| <= |s| && s[|s| - |suffix|..] == suffix
  }

  function Lower(c: char): char {
    if 'A' <= c <= 'Z' then (c as int + 32) as char else c
  }

  function Downcase(s: string): string {
    seq(|s|, i requires 0 <= i < |s| => Lower(s[i]))
  }

  // ------------------------------------------------------------------ numerals

  predicate IsDigit(c: char) {
    '0' <= c <= '9'
  }

  function DigitValue(c: char): nat
    requires IsDigit(c)
  {
    c as int - '0' as int
  }

  function DigitChar(d: nat): (c: char)
    requires d < 10
    ensures IsDigit(c) && DigitValue(c) == d
  {
    ('0' as int + d) as char
  }

  predicate AllDigits(s: string) {
    forall i :: 0 <= i < |s| ==> IsDigit(s[i])
  }

  /** How many digits a string starts with. */
  function Digits(s: string): (n: nat)
    ensures n <= |s| && AllDigits(s[..n])
    ensures n < |s| ==> !IsDigit(s[n])
  {
    if s == "" || !IsDigit(s[0]) then 0 else 1 + Digits(s[1..])
  }

  function NatValue(s: string): nat
    requires AllDigits(s)
  {
    if s == "" then 0 else NatValue(s[..|s| - 1]) * 10 + DigitValue(s[|s| - 1])
  }

  function PrintNat(n: nat): (s: string)
    ensures s != "" && AllDigits(s)
  {
    if n < 10 then [DigitChar(n)] else PrintNat(n / 10) + [DigitChar(n % 10)]
  }

  function PrintInt(n: int): string {
    if n < 0 then "-" + PrintNat(-n) else PrintNat(n)
  }

  lemma {:induction false} PrintNatValue(n: nat)
    ensures NatValue(PrintNat(n)) == n
  {
    if n >= 10 {
      PrintNatValue(n / 10);
      assert PrintNat(n)[..|PrintNat(n)| - 1] == PrintNat(n / 10);
    } else {
      assert PrintNat(n)[..0] == "";
    }
  }

  /** The digits at the start of a numeral end where the numeral does. */
  lemma {:induction false} DigitsOf(digits: string, rest: string)
    requires AllDigits(digits) && (rest != "" ==> !IsDigit(rest[0]))
    ensures Digits(digits + rest) == |digits| && (digits + rest)[..|digits|] == digits
  {
    if digits == "" {
      assert digits + rest == rest;
    } else {
      assert (digits + rest)[1..] == digits[1..] + rest;
      DigitsOf(digits[1..], rest);
    }
  }

  /** The value of digits after the point. */
  function Fraction(s: string): (x: real)
    requires AllDigits(s)
    ensures 0.0 <= x < 1.0
  {
    if s == "" then 0.0 else (DigitValue(s[0]) as real + Fraction(s[1..])) / 10.0
  }

  /** Without the sign: leading digits, then a point that has digits after it. */
  function Unsigned(s: string): (x: real)
    ensures x >= 0.0
  {
    var n := Digits(s);
    var whole := NatValue(s[..n]) as real;
    if n < |s| && s[n] == '.' then
      var tail := s[n + 1..];
      whole + Fraction(tail[..Digits(tail)])
    else whole
  }

  function WholePart(s: string): (n: int)
    ensures n >= 0
  {
    NatValue(s[..Digits(s)])
  }

  predicate Signed(s: string) {
    s != "" && (s[0] == '-' || s[0] == '+')
  }

  /** Reading a number from the start of a trimmed string; exponents and underscores are not read. */
  function ToF(s: string): real {
    if Signed(s) then (if s[0] == '-' then -Unsigned(s[1..]) else Unsigned(s[1..])) else Unsigned(s)
  }

  function ToI(s: string): int {
    if Signed(s) then (if s[0] == '-' then -WholePart(s[1..]) else WholePart(s[1..])) else WholePart(s)
  }

  /** Rounding towards zero, which is what `to_i` does to a float. */
  function Truncate(x: real): int {
    if x >= 0.0 then x.Floor else -((-x).Floor)
  }

  lemma UnsignedFloor(s: string)
    ensures Unsigned(s).Floor == WholePart(s)
  {
    var x := Unsigned(s);
    assert WholePart(s) as real <= x < WholePart(s) as real + 1.0;
  }

  /** Reading an integer is reading a float and truncating it. */
  lemma ToIIsTruncatedToF(s: string)
    ensures ToI(s) == Truncate(ToF(s))
  {
    if Signed(s) {
      UnsignedFloor(s[1..]);
    } else {
      UnsignedFloor(s);
    }
  }

  lemma PrintNatReads(n: nat, rest: string)
    requires rest != "" ==> !IsDigit(rest[0]) && rest[0] != '.'
    ensures WholePart(PrintNat(n) + rest) == n && Unsigned(PrintNat(n) + rest) == n as real
  {
    DigitsOf(PrintNat(n), rest);
    PrintNatValue(n);
  }

  /** Printing an integer and reading it back, whatever non-digit follows it. */
  lemma PrintIntRoundTrip(n: int, rest: string)
    requires rest != "" ==> !IsDigit(rest[0]) && rest[0] != '.'
    ensures ToI(PrintInt(n) + rest) == n && ToF(PrintInt(n) + rest) == n as real
  {
    if n < 0 {
      PrintNatReads(-n, rest);
      ReadsNegative(PrintNat(-n), rest);
    } else {
      PrintNatReads(n, rest);
      ReadsUnsigned(PrintNat(n), rest);
    }
  }

  lemma ReadsNegative(digits: string, rest: string)
    ensures ToF("-" + digits + rest) == -Unsigned(digits + rest) && ToI("-" + digits + rest) == -WholePart(digits + rest)
  {
    assert ("-" + digits + rest)[1..] == digits + rest;
  }

  lemma ReadsUnsigned(digits: string, rest: string)
    requires digits != "" && IsDigit(digits[0])
    ensures ToF(digits + rest) == Unsigned(digits + rest) && ToI(digits + rest) == WholePart(digits + rest)
  {
    assert (digits + rest)[0] == digits[0];
  }

  lemma UnsignedOfParts(whole: string, fraction: string, rest: string)
    requires AllDigits(whole) && AllDigits(fraction) && (rest != "" ==> !IsDigit(rest[0]))
    ensures Unsigned(whole + ("." + (fraction + rest))) == NatValue(whole) as real + Fraction(fraction)
  {
    var s := whole + ("." + (fraction + rest));
    DigitsOf(whole, "." + (fraction + rest));
    assert s[|whole|] == '.' && s[|whole| + 1..] == fraction + rest;
    DigitsOf(fraction, rest);
  }

  function Power10(n: nat): nat {
    if n == 0 then 1 else 10 * Power10(n - 1)
  }

  /** A digit in front adds its value at its place. */
  lemma {:induction false} NatValueCons(d: char, s: string)
    requires IsDigit(d) && AllDigits(s)
    ensures AllDigits([d] + s) && NatValue([d] + s) == DigitValue(d) * Power10(|s|) + NatValue(s)
  {
    if s == "" {
      assert [d] + s == [d] && [d][..0] == "";
    } else {
      var rest := s[..|s| - 1];
      NatValueCons(d, rest);
      assert ([d] + s)[..|s|] == [d] + rest;
    }
  }

  /** The number with its point moved some places to the right. */
  function MovePoint(x: real, places: nat): real
    decreases places
  {
    if places == 0 then x else MovePoint(x * 10.0, places - 1)
  }

  lemma {:induction false} MovePointAdds(x: real, y: real, places: nat)
    ensures MovePoint(x + y, places) == MovePoint(x, places) + MovePoint(y, places)
    decreases places
  {
    if places > 0 {
      MovePointAdds(x * 10.0, y * 10.0, places - 1);
    }
  }

  lemma {:induction false} MovePointOfWhole(n: nat, places: nat)
    ensures MovePoint(n as real, places) == (n * Power10(places)) as real
    decreases places
  {
    if places > 0 {
      MovePointOfWhole(n * 10, places - 1);
      Tenfold(n, Power10(places - 1));
    }
  }

  lemma Tenfold(n: nat, p: nat)
    ensures n * 10 * p == n * (10 * p)
  {
  }

  /** Digits after the point are those of a whole number, once the point is moved behind them. */
  lemma {:induction false} FractionIsDecimal(s: string)
    requires AllDigits(s)
    ensures MovePoint(Fraction(s), |s|) == NatValue(s) as real
  {
    if s != "" {
      var d, rest := DigitValue(s[0]), s[1..];
      FractionIsDecimal(rest);
      MovePointAdds(d as real, Fraction(rest), |rest|);
      MovePointOfWhole(d, |rest|);
      NatValueCons(s[0], rest);
      assert s == [s[0]] + rest;
      assert Fraction(s) * 10.0 == d as real + Fraction(rest);
    }
  }

  lemma PlainIsUnsigned(s: string)
    requires !Signed(s)
    ensures ToF(s) == Unsigned(s) && ToI(s) == WholePart(s)
  {
  }

  /** A decimal numeral, however long, is read as the number it writes. */
  lemma DecimalReads(whole: string, fraction: string)
    requires AllDigits(whole) && AllDigits(fraction)
    ensures ToF(whole + ("." + (fraction + ""))) == NatValue(whole) as real + Fraction(fraction)
    ensures MovePoint(Fraction(fraction), |fraction|) == NatValue(fraction) as real
  {
    UnsignedOfParts(whole, fraction, "");
    assert (whole + ("." + (fraction + "")))[0] == if whole == "" then '.' else whole[0];
    PlainIsUnsigned(whole + ("." + (fraction + "")));
    FractionIsDecimal(fraction);
  }

  /** A sign counts once, in front. */
  lemma SignsRead(s: string)
    requires !Signed(s)
    ensures ToF("-" + s) == -ToF(s) && ToI("-" + s) == -ToI(s)
    ensures ToF("+" + s) == ToF(s) && ToI("+" + s) == ToI(s)
  {
    assert ("-" + s)[1..] == s && ("+" + s)[1..] == s;
  }

  function PrintTenths(k: nat): string {
    PrintNat(k / 10) + "." + [DigitChar(k % 10)]
  }

  /** A number of tenths, printed with one decimal and read back. */
  lemma TenthsRoundTrip(k: nat, rest: string)
    requires rest != "" ==> !IsDigit(rest[0])
    ensures ToF(PrintTenths(k) + rest) == k as real / 10.0
  {
    var whole, d := PrintNat(k / 10), [DigitChar(k % 10)];
    var s := whole + ("." + (d + rest));
    assert PrintTenths(k) + rest == s;
    ReadsUnsigned(whole, "." + (d + rest));
    UnsignedOfParts(whole, d, rest);
    PrintNatValue(k / 10);
    assert Fraction(d[1..]) == 0.0;
    assert k == k / 10 * 10 + k % 10;
  }
}
