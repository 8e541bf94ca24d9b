/** Character references, in decimal and in hexadecimal, and what they stand for
    (src/libezxml/ezxml.c:176-188). */
module XmlReferences {
  import opened Basics
  import opened CStrings
  import opened Patterns
  import opened NumberTexts
  import opened XmlText

  lemma DecimalNumber(c: nat, rest: string)
    requires EndsNumber(rest)
    ensures Number(Digits(c, 10) + rest, false) == Scan(Clamp(c), |Digits(c, 10)|)
  {
    var s := Digits(c, 10) + rest;
    assert Decimal(c) + rest == s;
    ReadsDecimalThen(c, rest, 10);
    assert Number(s, false) == Strtol(s, 10);
  }

  lemma HexadecimalNumber(c: nat, rest: string)
    requires EndsNumber(rest)
    ensures Number(Digits(c, 16) + rest, true) == Scan(Clamp(c), |Digits(c, 16)|)
  {
    var digits := Digits(c, 16);
    HexadecimalAt(c, rest);
    DigitsAre(c, 16);
    NotPrefixed(c, rest);
    hide *;
    NumberIs(digits, rest, c);
  }

  lemma HexadecimalAt(c: nat, rest: string)
    requires EndsNumber(rest)
    ensures var s := Digits(c, 16) + rest;
            && SkipSpace(s, 0) == 0 && SignEnd(s) == 0 && s[0] != '-' && DigitsEnd(s, 0, 16) == |Digits(c, 16)|
  {
    var digits := Digits(c, 16);
    DigitsAre(c, 16);
    SignEndsThere(c, digits + rest);
    assert Sign(c) + (digits + rest) == digits + rest;
    DigitsEndThere(digits, rest, "", 16);
    assert "" + digits + rest == digits + rest;
    hide Digits, SkipSpace, SignEnd, DigitsEnd, DigitsValue;
  }

  lemma NumberIs(digits: string, rest: string, c: nat)
    requires digits != "" && DigitsValue(digits, 16) == c
    requires var s := digits + rest;
             && SkipSpace(s, 0) == 0 && SignEnd(s) == 0 && s[0] != '-' && DigitsEnd(s, 0, 16) == |digits| && !HexAt(s, 0)
    ensures Number(digits + rest, true) == Scan(Clamp(c), |digits|)
  {
    hide SkipSpace, SignEnd, DigitsEnd, DigitsValue, HexAt, Clamp;
    assert (digits + rest)[0..|digits|] == digits;
  }

  lemma NotPrefixed(c: nat, rest: string)
    requires EndsNumber(rest)
    ensures !HexAt(Digits(c, 16) + rest, 0)
  {
    var digits := Digits(c, 16);
    DigitsAre(c, 16);
    NoHexadecimal(digits, rest);
  }

  /** A number behind what starts a reference makes one, if a semicolon is behind it. */
  lemma NumberRefers(digits: string, hex: bool, c: nat, more: string, wide: Wide)
    requires 0 < c < 0x80 && digits != "" && digits[0] != 'x'
    requires Number(digits + (";" + more), hex) == Scan(c, |digits|)
    ensures var text := (if hex then "&#x" else "&#") + digits + ";";
            CharReference(text + more, wide) == Some(Reference([c as char], |text|))
  {
    hide Number;
    var start := if hex then 3 else 2;
    var s := (if hex then "&#x" else "&#") + digits + ";" + more;
    assert s[start..] == digits + (";" + more);
    assert s[start] == digits[0] && s[start + |digits|] == ';';
  }

  /** A character of 7 bits, referred to by its code, is that character. */
  lemma ReferenceIsRead(c: nat, hex: bool, more: string, wide: Wide)
    requires 0 < c < 0x80
    ensures var text := (if hex then "&#x" else "&#") + Digits(c, if hex then 16 else 10) + ";";
            CharReference(text + more, wide) == Some(Reference([c as char], |text|))
  {
    DigitsAre(c, if hex then 16 else 10);
    NotAnX(Digits(c, if hex then 16 else 10));
    hide Digits, DigitsValue, Number;
    if hex {
      HexadecimalNumber(c, ";" + more);
      NumberRefers(Digits(c, 16), hex, c, more, wide);
    } else {
      DecimalNumber(c, ";" + more);
      NumberRefers(Digits(c, 10), hex, c, more, wide);
    }
  }

  lemma NotAnX(digits: string)
    requires digits != "" && DigitOf(digits[0]) < 16
    ensures digits[0] != 'x'
  {
  }

  /** So a reference is decoded to the character it refers to. */
  lemma ReferenceIsDecoded(c: nat, hex: bool, wide: Wide)
    requires 0 < c < 0x80
    ensures Decode("", (if hex then "&#x" else "&#") + Digits(c, if hex then 16 else 10) + ";", wide) == [c as char]
  {
    var text := (if hex then "&#x" else "&#") + Digits(c, if hex then 16 else 10) + ";";
    ReferenceIsRead(c, hex, "", wide);
    assert text + "" == text && text[|text|..] == "";
    hide CharReference, Digits;
    assert "" + [c as char] == [c as char];
    DecodeNothing([c as char], wide);
  }
}
