/** Numbers written out so that strtol(3) reads them back: in decimal, which reads alike with and without
    radix detection, and in hexadecimal and octal, which do not (src/libfootball/fb_parser.c:651-667 reads them). */
module NumberTexts {
  import opened CStrings
  import opened Patterns

  function DigitChar(d: nat): (c: char)
    requires d < 16
    ensures DigitOf(c) == d && c != '-' && c != '+' && !IsSpace(c) && (c == '0' <==> d == 0) && c != 'x' && c != 'X'
  {
    if d < 10 then (d + 48) as char else (d + 87) as char
  }

  function Digits(n: nat, base: nat): (r: string)
    requires base == 8 || base == 10 || base == 16
    ensures r != []
  {
    if n < base then [DigitChar(n)] else Digits(n / base, base) + [DigitChar(n % base)]
  }

  predicate AllDigits(s: string, base: nat) {
    forall i :: 0 <= i < |s| ==> DigitOf(s[i]) < base
  }

  lemma {:induction false} DigitsAre(n: nat, base: nat)
    requires base == 8 || base == 10 || base == 16
    ensures var s := Digits(n, base);
            && AllDigits(s, base) && DigitsValue(s, base) == n
            && s[0] != '-' && s[0] != '+' && !IsSpace(s[0])
            && (s[0] == '0' <==> n == 0) && (n == 0 ==> |s| == 1)
  {
    var s := Digits(n, base);
    if n < base {
      assert s[..0] == [];
      assert DigitsValue([], base) == 0;
    } else {
      DigitsAre(n / base, base);
      assert s[..|s| - 1] == Digits(n / base, base);
    }
  }

  /** What no digits of any base begin with. */
  predicate EndsNumber(rest: string) {
    rest == [] || DigitOf(rest[0]) == 36
  }

  lemma {:induction false} DigitsEndThere(digits: string, rest: string, before: string, base: nat)
    requires AllDigits(digits, base) && base <= 36 && (rest == [] || DigitOf(rest[0]) >= base)
    ensures DigitsEnd(before + digits + rest, |before|, base) == |before| + |digits|
    decreases |digits|
  {
    var s := before + digits + rest;
    if digits == [] {
      assert rest != [] ==> s[|before|] == rest[0];
    } else {
      assert s == (before + [digits[0]]) + digits[1..] + rest;
      assert s[|before|] == digits[0];
      DigitsEndThere(digits[1..], rest, before + [digits[0]], base);
    }
  }

  function Sign(v: int): string {
    if v < 0 then "-" else ""
  }

  function Size(v: int): nat {
    if v < 0 then -v else v
  }

  function Decimal(v: int): string {
    Sign(v) + Digits(Size(v), 10)
  }

  function Hexadecimal(v: int): string {
    Sign(v) + ("0x" + Digits(Size(v), 16))
  }

  function Octal(v: int): string {
    Sign(v) + ("0" + Digits(Size(v), 8))
  }

  predicate IsLong(v: int) {
    LONG_MIN <= v <= LONG_MAX
  }

  lemma SignEndsThere(v: int, rest: string)
    requires rest != [] && rest[0] != '-' && rest[0] != '+' && !IsSpace(rest[0])
    ensures var s := Sign(v) + rest;
            SkipSpace(s, 0) == 0 && SignEnd(s) == |Sign(v)| && (s[0] == '-' <==> v < 0)
  {
  }

  /** The base is told by what is behind the sign. */
  lemma BaseBehindSign(v: int, rest: string, radix: nat)
    requires rest != [] && rest[0] != '-' && rest[0] != '+' && !IsSpace(rest[0])
    ensures BaseOf(Sign(v) + rest, radix) == BaseAt(rest, 0, radix)
    ensures DigitsStart(Sign(v) + rest, radix) == |Sign(v)| + if BaseAt(rest, 0, radix) == 16 then 2 else 0
  {
    SignEndsThere(v, rest);
    hide SkipSpace, SignEnd;
    var s, j := Sign(v) + rest, |Sign(v)|;
    assert forall k :: 0 <= k < |rest| ==> s[j + k] == rest[k];
    assert rest[0] == s[j] && (|rest| > 2 ==> rest[1] == s[j + 1] && rest[2] == s[j + 2]);
  }

  /** What strtol makes of a number: a sign, what tells the base, digits, and something else behind. */
  lemma ReadsDigits(before: string, digits: string, rest: string, v: int, base: nat, radix: nat)
    requires radix == 0 || radix == 10
    requires base == 8 || base == 10 || base == 16
    requires digits != [] && AllDigits(digits, base) && DigitsValue(digits, base) == Size(v)
    requires rest == [] || DigitOf(rest[0]) >= base
    requires var s := before + digits + rest;
             && SkipSpace(s, 0) == 0 && (s[0] == '-' <==> v < 0)
             && BaseOf(s, radix) == base && DigitsStart(s, radix) == |before|
    ensures Strtol(before + digits + rest, radix) == Scan(Clamp(v), |before| + |digits|)
  {
    var s, from := before + digits + rest, |before|;
    DigitsEndThere(digits, rest, before, base);
    hide SkipSpace, SignEnd, BaseOf, DigitsStart, DigitsEnd, DigitsValue, AllDigits, DigitOf, Clamp;
    assert s[from..from + |digits|] == digits;
  }

  /** Every number in decimal is read, up to what is no digit, alike whether the radix is detected or not.
      Numbers that are no longs become the nearest one. */
  lemma ReadsDecimalThen(v: int, rest: string, radix: nat)
    requires (radix == 0 || radix == 10) && EndsNumber(rest)
    ensures Strtol(Decimal(v) + rest, radix) == Scan(Clamp(v), |Decimal(v)|)
  {
    var base := if radix == 0 && v == 0 then 8 else 10;
    DecimalParts(v, rest, radix);
    DecimalDigits(v, base);
    assert rest != [] ==> DigitOf(rest[0]) >= base;
    hide *;
    ReadsDigits(Sign(v), Digits(Size(v), 10), rest, v, base, radix);
  }

  /** A decimal text, piece by piece. */
  lemma DecimalParts(v: int, rest: string, radix: nat)
    requires (radix == 0 || radix == 10) && EndsNumber(rest)
    ensures Decimal(v) == Sign(v) + Digits(Size(v), 10)
    ensures var s := Sign(v) + Digits(Size(v), 10) + rest;
            && SkipSpace(s, 0) == 0 && (s[0] == '-' <==> v < 0)
            && BaseOf(s, radix) == (if radix == 0 && v == 0 then 8 else 10) && DigitsStart(s, radix) == |Sign(v)|
  {
    var digits := Digits(Size(v), 10);
    DigitsAre(Size(v), 10);
    SignEndsThere(v, digits + rest);
    BaseBehindSign(v, digits + rest, radix);
    DecimalBase(digits, rest, radix);
    hide SkipSpace, SignEnd, Digits, Sign, BaseAt, BaseOf, DigitsStart, AllDigits, DigitsValue, EndsNumber;
    assert Sign(v) + (digits + rest) == Sign(v) + digits + rest;
  }

  lemma DecimalDigits(v: int, base: nat)
    requires base == 10 || (base == 8 && v == 0)
    ensures var digits := Digits(Size(v), 10);
            digits != [] && AllDigits(digits, base) && DigitsValue(digits, base) == Size(v)
  {
    DigitsAre(Size(v), 10);
    ZeroIsOctal();
    assert v == 0 ==> Digits(Size(v), 10) == "0";
  }

  lemma DecimalBase(digits: string, rest: string, radix: nat)
    requires radix == 0 || radix == 10
    requires digits != [] && AllDigits(digits, 10) && (digits[0] == '0' ==> |digits| == 1) && EndsNumber(rest)
    ensures BaseAt(digits + rest, 0, radix) == if radix == 0 && digits[0] == '0' then 8 else 10
  {
    NoHexadecimal(digits, rest);
    hide HexAt, AllDigits, EndsNumber, DigitOf, DigitsValue;
  }

  lemma ZeroIsOctal()
    ensures AllDigits("0", 8) && DigitsValue("0", 8) == 0
  {
    assert "0"[..0] == "" && DigitsValue("", 8) == 0;
  }

  lemma NoHexadecimal(digits: string, rest: string)
    requires digits != [] && (digits[0] == '0' ==> |digits| == 1) && EndsNumber(rest)
    ensures (digits + rest)[0] == digits[0] && !HexAt(digits + rest, 0)
  {
    assert DigitOf('x') == DigitOf('X') == 33;
    hide DigitOf;
    var s := digits + rest;
    assert |digits| == 1 && |s| > 1 ==> s[1] == rest[0];
  }

  /** In decimal, a number reads alike whether the radix is detected or not. */
  lemma ReadsDecimal(v: int, radix: nat)
    requires IsLong(v) && (radix == 0 || radix == 10)
    ensures Strtol(Decimal(v), radix) == Scan(v, |Decimal(v)|)
  {
    ReadsDecimalThen(v, "", radix);
    assert Decimal(v) + "" == Decimal(v);
  }

  /** Numbers in hexadecimal are read where the radix is detected, */
  lemma ReadsHexadecimalThen(v: int, rest: string)
    requires EndsNumber(rest)
    ensures Strtol(Hexadecimal(v) + rest, 0) == Scan(Clamp(v), |Hexadecimal(v)|)
  {
    var digits := Digits(Size(v), 16);
    var tail := "0x" + digits + rest;
    HexadecimalParts(v, rest);
    assert Hexadecimal(v) + rest == Sign(v) + "0x" + digits + rest;
    DigitsAre(Size(v), 16);
    hide Digits, Sign, HexAt, DigitsValue;
    ReadsDigits(Sign(v) + "0x", digits, rest, v, 16, 0);
  }

  /** A hexadecimal text, piece by piece. */
  lemma HexadecimalParts(v: int, rest: string)
    ensures var s := Hexadecimal(v) + rest;
            && SkipSpace(s, 0) == 0 && SignEnd(s) == |Sign(v)| && (s[0] == '-' <==> v < 0)
            && |s| > |Sign(v)| + 2 && s[|Sign(v)|] == '0' && s[|Sign(v)| + 1] == 'x'
            && BaseOf(s, 0) == 16 && DigitsStart(s, 0) == |Sign(v)| + 2
  {
    var digits := Digits(Size(v), 16);
    var tail := "0x" + digits + rest;
    DigitsAre(Size(v), 16);
    SignEndsThere(v, tail);
    BaseBehindSign(v, tail, 0);
    assert tail[2] == digits[0];
    hide Digits, SkipSpace, SignEnd, DigitsValue;
    assert HexAt(tail, 0);
    assert Hexadecimal(v) + rest == Sign(v) + tail;
  }

  /** In hexadecimal, a number is read where the radix is detected. */
  lemma ReadsHexadecimal(v: int)
    requires IsLong(v)
    ensures Strtol(Hexadecimal(v), 0) == Scan(v, |Hexadecimal(v)|)
  {
    ReadsHexadecimalThen(v, "");
    assert Hexadecimal(v) + "" == Hexadecimal(v);
  }

  /** And it is no number where it is not: scanning stops at the x. */
  lemma StopsAtHexadecimal(v: int)
    ensures Strtol(Hexadecimal(v), 10).used < |Hexadecimal(v)|
  {
    var s, j := Hexadecimal(v), |Sign(v)|;
    HexadecimalParts(v, "");
    assert s + "" == s;
    hide Hexadecimal, Digits, Sign, DigitsValue;
    assert DigitOf(s[j + 1]) == 33;
    assert DigitsEnd(s, j + 1, 10) == j + 1;
  }

  /** In octal too, a number is read where the radix is detected. */
  lemma ReadsOctal(v: int)
    requires IsLong(v)
    ensures Strtol(Octal(v), 0) == Scan(v, |Octal(v)|)
  {
    var digits := Digits(Size(v), 8);
    var tail := "0" + digits;
    DigitsAre(Size(v), 8);
    SignEndsThere(v, tail);
    BaseBehindSign(v, tail, 0);
    assert tail[1] == digits[0];
    assert BaseAt(tail, 0, 0) == 8;
    assert Octal(v) == Sign(v) + tail == Sign(v) + tail + "";
    LeadingZero(digits, 8);
    hide Digits, SkipSpace, SignEnd, DigitsValue, Sign;
    ReadsDigits(Sign(v), tail, "", v, 8, 0);
  }

  lemma {:induction false} LeadingZero(digits: string, base: nat)
    ensures DigitsValue("0" + digits, base) == DigitsValue(digits, base)
    decreases |digits|
  {
    var s := "0" + digits;
    if digits == [] {
      assert s == "0" && s[..0] == "" && DigitsValue("", base) == 0;
    } else {
      LeadingZero(digits[..|digits| - 1], base);
      assert s[..|s| - 1] == "0" + digits[..|digits| - 1];
    }
  }

  /** A range with a number in it has one that can be written either way. */
  lemma RangeHasNumber(spec: ValueSpec, strtod: Strtod) returns (v: int)
    requires spec.IntRange? && ValidSpec(spec) && Satisfiable(spec, strtod)
    ensures IsLong(v) && spec.min <= v <= spec.max
  {
    var token :| FitOf(spec, token, strtod) == Fits;
    v := Strtol(token, spec.radix).value;
  }
}
