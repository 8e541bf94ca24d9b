/** Attribute values on their way through a file: written with markup characters escaped
    (src/users.c:779-812), and read back by the entity decoder (src/libezxml/ezxml.c:158-218) with the
    entities it knows from the start (lines 836-837). */
module XmlText {
  import opened Basics
  import opened CStrings
  import opened Patterns

  // ---------------------------------------------------------------- writing

  function EscapedChar(c: char): string {
    if c == '\'' then "&apos;"
    else if c == '"' then "&quot;"
    else if c == '<' then "&lt;"
    else if c == '>' then "&gt;"
    else if c == '&' then "&amp;"
    else [c]
  }

  function Escaped(value: string): string {
    if value == [] then [] else EscapedChar(value[0]) + Escaped(value[1..])
  }

  lemma {:induction false} EscapedMore(value: string, c: char)
    ensures Escaped(value + [c]) == Escaped(value) + EscapedChar(c)
  {
    if value != [] {
      assert (value + [c])[1..] == value[1..] + [c];
      EscapedMore(value[1..], c);
    }
  }

  method PrintChar(file: string, c: char) returns (file': string)
    ensures file' == file + EscapedChar(c)
  {
    match c
    case '\'' => file' := file + "&apos;";
    case '"' => file' := file + "&quot;";
    case '<' => file' := file + "&lt;";
    case '>' => file' := file + "&gt;";
    case '&' => file' := file + "&amp;";
    case _ => file' := file + [c];
  }

  /** The inner loop of fprintxml. */
  method PrintValue(file: string, val: string) returns (file': string)
    ensures file' == file + Escaped(val)
  {
    hide EscapedChar;
    file' := file;
    var i := 0;
    while i < |val|
      invariant i <= |val| && file' == file + Escaped(val[..i])
    {
      EscapedMore(val[..i], val[i]);
      assert val[..i + 1] == val[..i] + [val[i]];
      file' := PrintChar(file', val[i]);
      i := i + 1;
    }
    assert val[..i] == val;
  }

  predicate IsMarkup(c: char) {
    c == '\'' || c == '"' || c == '<' || c == '>'
  }

  /** Nothing written for a value can be taken for the end of it or for a tag. */
  lemma {:induction false} EscapedHasNoMarkup(value: string)
    ensures forall c :: c in Escaped(value) ==> !IsMarkup(c)
  {
    if value != [] {
      EscapedHasNoMarkup(value[1..]);
      assert forall c :: c in EscapedChar(value[0]) ==> !IsMarkup(c);
    }
  }

  /** A text without markup is read between quotes to its end and no further. */
  lemma QuotedIsRead(piece: string, quote: char, more: string)
    requires (quote == '\'' || quote == '"') && forall c :: c in piece ==> !IsMarkup(c)
    ensures Find(piece + [quote] + more, quote, 0) == Some(|piece|)
  {
    assert (piece + [quote] + more)[0..|piece|] == piece;
    FindIs(piece + [quote] + more, quote, 0, |piece|);
  }

  // ---------------------------------------------------------------- reading

  /** The entities known from the start, and what they stand for. */
  const NAMES := ["lt;", "gt;", "quot;", "apos;", "amp;"]
  const VALUES := ["&#60;", "&#62;", "&#34;", "&#39;", "&#38;"]

  /** The bytes for character codes other than 1 to 127 are not worked out here. */
  type Wide = int -> string

  /** What a reference stands for, and how much of the text it is. */
  datatype Reference = Reference(text: string, used: nat)

  /** strtol(3) in base 10 or 16. */
  function Number(s: string, hex: bool): Scan<int> {
    var j := SignEnd(s);
    var from := if hex && HexAt(s, j) then j + 2 else j;
    var base := if hex then 16 else 10;
    var to := DigitsEnd(s, from, base);
    if to == from then Scan(0, 0)
    else
      var n := DigitsValue(s[from..to], base);
      Scan(Clamp(if s[SkipSpace(s, 0)] == '-' then 0 - n else n), to)
  }

  /** A character reference at the start of a text that starts with "&#". */
  function CharReference(s: string, wide: Wide): (r: Option<Reference>)
    requires |s| >= 2
    ensures r.Some? ==> 2 < r.value.used <= |s|
  {
    var hex := |s| > 2 && s[2] == 'x';
    var start := if hex then 3 else 2;
    var number := Number(s[start..], hex);
    var end := start + number.used;
    if number.value == 0 || !(end < |s| && s[end] == ';') then None
    else Some(Reference(if 0 < number.value < 0x80 then [number.value as char] else wide(number.value), end + 1))
  }

  /** The first known entity that is named after the first character. */
  function Entity(s: string, b: nat): (r: Option<nat>)
    requires s != [] && b <= |NAMES|
    ensures r.Some? ==> b <= r.value < |NAMES| && NAMES[r.value] <= s[1..]
    decreases |NAMES| - b
  {
    if b == |NAMES| then None
    else if NAMES[b] <= s[1..] then Some(b)
    else Entity(s, b + 1)
  }

  /** How many ampersands could still start an entity. */
  function Bare(s: string): nat {
    if s == [] then 0
    else Bare(s[1..]) + if s[0] == '&' && !(|s| > 1 && s[1] == '#') then 1 else 0
  }

  lemma {:induction false} BareSkips(s: string, k: nat)
    requires k <= |s|
    ensures Bare(s[k..]) <= Bare(s)
    ensures '&' !in s[..k] ==> Bare(s[k..]) == Bare(s)
  {
    if k > 0 {
      assert s[1..][k - 1..] == s[k..];
      assert s[1..][..k - 1] == s[..k][1..];
      BareSkips(s[1..], k - 1);
    }
  }

  /** An entity turns into a character reference, which cannot start an entity again. */
  lemma EntityShrinks(s: string, b: nat)
    requires |s| > 1 && s[0] == '&' && s[1] != '#' && b < |NAMES| && NAMES[b] <= s[1..]
    ensures var k := 1 + |NAMES[b]|;
            k <= |s| && Bare(VALUES[b] + s[k..]) < Bare(s)
  {
    var tail := s[1 + |NAMES[b]|..];
    assert s[1..][..|NAMES[b]|] == NAMES[b];
    assert s == "&" + NAMES[b] + tail;
    NamesAndValues(b);
    hide Bare;
    ReferenceIsNotBare(NAMES[b], VALUES[b], tail);
  }

  lemma NamesAndValues(b: nat)
    requires b < |NAMES|
    ensures |NAMES[b]| > 2 && '&' !in NAMES[b] && NAMES[b][0] != '#'
    ensures |VALUES[b]| == 5 && VALUES[b][0] == '&' && VALUES[b][1] == '#' && '&' !in VALUES[b][1..]
  {
  }

  lemma ReferenceIsNotBare(name: string, val: string, tail: string)
    requires |name| > 0 && '&' !in name && name[0] != '#'
    requires |val| > 1 && val[0] == '&' && val[1] == '#' && '&' !in val[1..]
    ensures Bare(val + tail) < Bare("&" + name + tail)
  {
    hide Bare;
    BareAfter(name, tail);
    BareAfter(val[1..], tail);
    BareFirst(name + tail);
    BareFirst(val[1..] + tail);
    assert val + tail == "&" + (val[1..] + tail);
    assert "&" + name + tail == "&" + (name + tail);
  }

  lemma BareFirst(s: string)
    requires s != []
    ensures Bare("&" + s) == Bare(s) + if s[0] == '#' then 0 else 1
  {
    assert ("&" + s)[1..] == s;
  }

  lemma BareAfter(p: string, tail: string)
    requires '&' !in p
    ensures Bare(p + tail) == Bare(tail)
  {
    assert (p + tail)[..|p|] == p && (p + tail)[|p|..] == tail;
    BareSkips(p + tail, |p|);
  }

  /** The decoding loop for attribute values: `done` is behind the reading position, `rest` before it. */
  function Decode(done: string, rest: string, wide: Wide): string
    decreases Bare(rest), |rest|
  {
    if rest == [] then done
    else if |rest| > 1 && rest[0] == '&' && rest[1] == '#' then
      match CharReference(rest, wide)
      case Some(reference) => BareSkips(rest, reference.used); Decode(done + reference.text, rest[reference.used..], wide)
      case None => BareSkips(rest, 1); Decode(done + [rest[0]], rest[1..], wide)
    else if rest[0] == '&' then
      match Entity(rest, 0)
      case Some(b) => EntityShrinks(rest, b); Decode(done, VALUES[b] + rest[1 + |NAMES[b]|..], wide)
      case None => BareSkips(rest, 1); Decode(done + [rest[0]], rest[1..], wide)
    else
      BareSkips(rest, 1);
      Decode(done + [if IsSpace(rest[0]) then ' ' else rest[0]], rest[1..], wide)
  }

  // ---------------------------------------------------------------- line ends

  /** Every carriage return, with the newline behind it if there is one, becomes a newline. */
  function Normalized(text: string): string
    decreases |text|
  {
    if text == [] then []
    else if text[0] != '\r' then [text[0]] + Normalized(text[1..])
    else if |text| > 1 && text[1] == '\n' then ['\n'] + Normalized(text[2..])
    else ['\n'] + Normalized(text[1..])
  }

  /** A text whose last line end has a carriage return; the decoder looks for more behind its end. */
  predicate EndsInReturn(text: string) {
    var n := |text|;
    (n > 0 && text[n - 1] == '\r') || (n > 1 && text[n - 1] == '\n' && text[n - 2] == '\r')
  }

  lemma EndsLater(text: string, k: nat)
    requires k <= |text| && EndsInReturn(text[k..])
    ensures EndsInReturn(text)
  {
  }

  lemma {:induction false} NormalizedIsSame(text: string)
    ensures '\r' !in text ==> Normalized(text) == text
    ensures '\r' !in Normalized(text)
    decreases |text|
  {
    if text != [] {
      NormalizedIsSame(text[1..]);
      if |text| > 1 {
        NormalizedIsSame(text[2..]);
      }
      assert text == [text[0]] + text[1..];
    }
  }

  /** A piece without line ends goes through as it is. */
  lemma {:induction false} NormalizedPlain(plain: string, rest: string)
    requires '\r' !in plain
    ensures Normalized(plain + rest) == plain + Normalized(rest)
    decreases |plain|
  {
    if plain == [] {
      assert plain + rest == rest;
    } else {
      assert (plain + rest)[0] == plain[0] && (plain + rest)[1..] == plain[1..] + rest;
      NormalizedPlain(plain[1..], rest);
      assert plain == [plain[0]] + plain[1..];
    }
  }

  /** A carriage return becomes a newline, */
  lemma ReturnIsNormalized(line: string, rest: string)
    requires '\r' !in line && (rest == "" || rest[0] != '\n')
    ensures Normalized(line + (['\r'] + rest)) == line + (['\n'] + Normalized(rest))
  {
    NormalizedPlain(line, ['\r'] + rest);
    NormalizedReturn(rest);
    hide Normalized;
  }

  /** and takes a newline behind it along. */
  lemma PairIsNormalized(line: string, rest: string)
    requires '\r' !in line
    ensures Normalized(line + (['\r'] + (['\n'] + rest))) == line + (['\n'] + Normalized(rest))
  {
    NormalizedPlain(line, ['\r'] + (['\n'] + rest));
    NormalizedReturn(['\n'] + rest);
    hide Normalized;
    assert (['\n'] + rest)[1..] == rest;
  }

  lemma EscapedFirst(value: string)
    requires value != []
    ensures Escaped(value) == EscapedChar(value[0]) + Escaped(value[1..])
    ensures IsSpace(value[0]) ==> EscapedChar(value[0]) == [value[0]]
    ensures value[0] != '\r' ==> '\r' !in EscapedChar(value[0])
    ensures EscapedChar(value[0])[0] == '\n' <==> value[0] == '\n'
  {
  }

  lemma NormalizedReturn(rest: string)
    ensures Normalized(['\r'] + rest) == ['\n'] + Normalized(if rest != [] && rest[0] == '\n' then rest[1..] else rest)
  {
    var text := ['\r'] + rest;
    assert text[1..] == rest;
    if |text| > 1 {
      assert text[2..] == rest[1..];
    }
  }

  /** Escaping leaves line ends alone. */
  lemma {:induction false} NormalizedEscaped(value: string)
    ensures Normalized(Escaped(value)) == Escaped(Normalized(value))
    decreases |value|
  {
    if value != [] {
      var c, rest := value[0], value[1..];
      assert value == [c] + rest;
      EscapedFirst(value);
      hide Escaped, EscapedChar, Normalized;
      if c != '\r' {
        NormalizedPlain(EscapedChar(c), Escaped(rest));
        NormalizedPlain([c], rest);
        NormalizedEscaped(rest);
        EscapedCons(c, Normalized(rest));
      } else {
        NormalizedReturn(rest);
        NormalizedReturn(Escaped(rest));
        ReturnEscaped(rest);
        var next := if rest != [] && rest[0] == '\n' then rest[1..] else rest;
        NormalizedEscaped(next);
        EscapedCons('\n', Normalized(next));
      }
    }
  }

  /** What comes behind a carriage return is a newline just if it was one before escaping. */
  lemma ReturnEscaped(rest: string)
    ensures var escaped := Escaped(rest);
            if rest != [] && rest[0] == '\n' then escaped != [] && escaped[0] == '\n' && escaped[1..] == Escaped(rest[1..])
            else escaped == [] || escaped[0] != '\n'
  {
    if rest != [] {
      EscapedFirst(rest);
    }
  }

  lemma EscapedCons(c: char, value: string)
    ensures Escaped([c] + value) == EscapedChar(c) + Escaped(value)
    ensures EscapedChar('\n') == "\n"
  {
    assert ([c] + value)[1..] == value;
  }

  // ---------------------------------------------------------------- and back

  function Spaced(value: string): (r: string)
    ensures |r| == |value|
  {
    seq(|value|, i requires 0 <= i < |value| => if IsSpace(value[i]) then ' ' else value[i])
  }

  /** No whitespace but spaces. */
  predicate OnlySpaces(text: string) {
    forall i :: 0 <= i < |text| && IsSpace(text[i]) ==> text[i] == ' '
  }

  lemma DecodePlain(done: string, rest: string, wide: Wide)
    requires rest != [] && rest[0] != '&'
    ensures Decode(done, rest, wide) == Decode(done + [if IsSpace(rest[0]) then ' ' else rest[0]], rest[1..], wide)
  {
  }

  lemma {:induction false} EntityAt(s: string, b: nat, from: nat)
    requires s != [] && from <= b < |NAMES| && NAMES[b] <= s[1..]
    requires forall j :: from <= j < b ==> !(NAMES[j] <= s[1..])
    ensures Entity(s, from) == Some(b)
    decreases b - from
  {
    if from < b {
      EntityAt(s, b, from + 1);
    }
  }

  /** The first two letters tell names apart. */
  lemma NamesDiffer(b: nat, j: nat, rest: string)
    requires j < b < |NAMES|
    ensures !(NAMES[j] <= NAMES[b] + rest)
  {
    var s := NAMES[b] + rest;
    assert s[0] == NAMES[b][0] && s[1] == NAMES[b][1];
    assert forall p: string :: p <= s && |p| > 1 ==> p[0] == s[0] && p[1] == s[1];
  }

  lemma DecodeEntity(done: string, b: nat, rest: string, wide: Wide)
    requires b < |NAMES|
    ensures Decode(done, "&" + NAMES[b] + rest, wide) == Decode(done, VALUES[b] + rest, wide)
  {
    var s := "&" + NAMES[b] + rest;
    assert s[1..] == NAMES[b] + rest;
    forall j | 0 <= j < b ensures !(NAMES[j] <= s[1..]) {
      NamesDiffer(b, j, rest);
    }
    EntityAt(s, b, 0);
    assert s[1 + |NAMES[b]|..] == rest;
    assert s[1] == NAMES[b][0] != '#';
  }

  lemma TwoDigits(tens: char, ones: char, more: string)
    requires IsDigit(tens) && IsDigit(ones)
    ensures Number([tens, ones, ';'] + more, false) == Scan(10 * DigitOf(tens) + DigitOf(ones), 2)
  {
    var s := [tens, ones, ';'] + more;
    assert SignEnd(s) == 0;
    assert DigitsEnd(s, 2, 10) == 2;
    assert DigitsEnd(s, 1, 10) == 2;
    var digits := s[0..2];
    assert digits[..1] == [tens] && [tens][..0] == [];
    assert DigitsValue([tens], 10) == DigitOf(tens);
  }

  const MEANT := "<>\"'&"

  lemma DecodeReference(done: string, b: nat, rest: string, wide: Wide)
    requires b < |VALUES|
    ensures Decode(done, VALUES[b] + rest, wide) == Decode(done + [MEANT[b]], rest, wide)
  {
    var s := VALUES[b] + rest;
    TwoDigits(VALUES[b][2], VALUES[b][3], rest);
    assert s[2..] == [VALUES[b][2], VALUES[b][3], ';'] + rest;
    assert 10 * DigitOf(VALUES[b][2]) + DigitOf(VALUES[b][3]) == MEANT[b] as int;
    assert CharReference(s, wide) == Some(Reference([MEANT[b]], 5));
    assert s[5..] == rest;
  }

  /** A character that was escaped comes back. */
  lemma DecodeEscaped(done: string, b: nat, rest: string, wide: Wide)
    requires b < |NAMES|
    ensures Decode(done, "&" + NAMES[b] + rest, wide) == Decode(done + [MEANT[b]], rest, wide)
  {
    DecodeEntity(done, b, rest, wide);
    DecodeReference(done, b, rest, wide);
  }

  lemma DecodeChar(done: string, c: char, rest: string, wide: Wide)
    ensures Decode(done, EscapedChar(c) + rest, wide) == Decode(done + [if IsSpace(c) then ' ' else c], rest, wide)
  {
    hide Decode;
    if c == '<' {
      assert EscapedChar(c) == "&" + NAMES[0] && MEANT[0] == c;
      DecodeEscaped(done, 0, rest, wide);
    } else if c == '>' {
      assert EscapedChar(c) == "&" + NAMES[1] && MEANT[1] == c;
      DecodeEscaped(done, 1, rest, wide);
    } else if c == '"' {
      assert EscapedChar(c) == "&" + NAMES[2] && MEANT[2] == c;
      DecodeEscaped(done, 2, rest, wide);
    } else if c == '\'' {
      assert EscapedChar(c) == "&" + NAMES[3] && MEANT[3] == c;
      DecodeEscaped(done, 3, rest, wide);
    } else if c == '&' {
      assert EscapedChar(c) == "&" + NAMES[4] && MEANT[4] == c;
      DecodeEscaped(done, 4, rest, wide);
    } else {
      DecodePlain(done, [c] + rest, wide);
      assert ([c] + rest)[1..] == rest;
    }
  }

  lemma {:induction false} DecodeOfEscaped(done: string, value: string, wide: Wide)
    ensures Decode(done, Escaped(value), wide) == done + Spaced(value)
    decreases |value|
  {
    hide EscapedChar;
    if value == [] {
      assert Spaced(value) == [];
    } else {
      var first := if IsSpace(value[0]) then ' ' else value[0];
      DecodeChar(done, value[0], Escaped(value[1..]), wide);
      assert Spaced(value) == [first] + Spaced(value[1..]);
      assert Escaped(value) == EscapedChar(value[0]) + Escaped(value[1..]);
      hide *;
      DecodeOfEscaped(done + [first], value[1..], wide);
      assert done + [first] + Spaced(value[1..]) == done + ([first] + Spaced(value[1..]));
    }
  }

  lemma SpacedIsSame(value: string)
    ensures Spaced(value) == value <==> OnlySpaces(value)
  {
    hide IsSpace;
    if OnlySpaces(value) {
      assert Spaced(value) == value;
    } else {
      var i :| 0 <= i < |value| && IsSpace(value[i]) && value[i] != ' ';
      assert Spaced(value)[i] != value[i];
    }
  }

  /** What was written, with its line ends normalized and then decoded, is the value exactly if no
      whitespace but spaces is in it. */
  lemma WrittenIsReadBack(value: string, wide: Wide)
    ensures Decode("", Normalized(Escaped(value)), wide) == value <==> OnlySpaces(value)
  {
    hide Decode, Escaped, Normalized;
    NormalizedEscaped(value);
    DecodeOfEscaped("", Normalized(value), wide);
    assert "" + Spaced(Normalized(value)) == Spaced(Normalized(value));
    NormalizedIsSame(value);
    if '\r' in value {
      var i :| 0 <= i < |value| && value[i] == '\r';
      assert IsSpace(value[i]) && value[i] != ' ';
      assert '\r' !in Spaced(Normalized(value));
    } else {
      SpacedIsSame(value);
    }
  }

  // ---------------------------------------------------------------- printing and reading attributes

  /** fprintxml, without the NULL that ends its parameters: literals and values by turns, ending after
      either. The literals are written as they are. What is written for a value has no quote or angle bracket
      in it, and is read back as the value if there is no whitespace but spaces in that. */
  method FPrintXml(file: string, parameters: seq<string>) returns (file': string, ghost pieces: seq<string>)
    ensures |pieces| == |parameters| && file' == file + Joined(pieces)
    ensures forall i :: 0 <= i < |parameters| && i % 2 == 0 ==> pieces[i] == parameters[i]
    ensures forall i, c :: 0 <= i < |parameters| && i % 2 == 1 && c in pieces[i] ==> !IsMarkup(c)
    ensures forall i, wide :: 0 <= i < |parameters| && i % 2 == 1 && OnlySpaces(parameters[i]) ==>
              Decode("", Normalized(pieces[i]), wide) == parameters[i]
  {
    hide Escaped, Decode, Normalized, IsMarkup, OnlySpaces;
    file', pieces := file, [];
    var next := 0;
    while next < |parameters|
      invariant next <= |parameters| && (next % 2 == 0 || next == |parameters|)
      invariant |pieces| == next && file' == file + Joined(pieces)
      invariant forall i :: 0 <= i < next && i % 2 == 0 ==> pieces[i] == parameters[i]
      invariant forall i :: 0 <= i < next && i % 2 == 1 ==> pieces[i] == Escaped(parameters[i])
      decreases |parameters| - next
    {
      JoinedAppend(pieces, parameters[next]);
      file', pieces := file' + parameters[next], pieces + [parameters[next]];
      next := next + 1;
      if next < |parameters| {
        JoinedAppend(pieces, Escaped(parameters[next]));
        file' := PrintValue(file', parameters[next]);
        pieces := pieces + [Escaped(parameters[next])];
        next := next + 1;
      }
    }
    EscapedAllRead(pieces, parameters);
  }

  lemma JoinedAppend(pieces: seq<string>, piece: string)
    ensures Joined(pieces + [piece]) == Joined(pieces) + piece
  {
    JoinedMore(pieces + [piece], |pieces|);
    assert (pieces + [piece])[..|pieces|] == pieces && (pieces + [piece])[..|pieces| + 1] == pieces + [piece];
  }

  lemma EscapedAllRead(pieces: seq<string>, parameters: seq<string>)
    requires |pieces| == |parameters|
    requires forall i :: 0 <= i < |parameters| && i % 2 == 1 ==> pieces[i] == Escaped(parameters[i])
    ensures forall i, c :: 0 <= i < |parameters| && i % 2 == 1 && c in pieces[i] ==> !IsMarkup(c)
    ensures forall i, wide :: 0 <= i < |parameters| && i % 2 == 1 && OnlySpaces(parameters[i]) ==>
              Decode("", Normalized(pieces[i]), wide) == parameters[i]
  {
    hide Escaped, Decode, Normalized, IsMarkup, OnlySpaces;
    forall i | 0 <= i < |parameters| && i % 2 == 1
      ensures forall c :: c in pieces[i] ==> !IsMarkup(c)
    {
      EscapedHasNoMarkup(parameters[i]);
    }
    forall i, wide | 0 <= i < |parameters| && i % 2 == 1 && OnlySpaces(parameters[i])
      ensures Decode("", Normalized(pieces[i]), wide) == parameters[i]
    {
      WrittenIsReadBack(parameters[i], wide);
    }
  }

  /** Attribute values as ezxml_parse_str takes them out of a tag: from behind the quote to the next one. */
  datatype Attribute = Attribute(val: string, behind: string)

  function ReadAttribute(text: string, quote: char, wide: Wide): Option<Attribute> {
    match Find(text, quote, 0)
    case None => None
    case Some(end) => Some(Attribute(Decode("", Normalized(text[..end]), wide), text[end + 1..]))
  }

  /** What FPrintXml writes for a value is read as that value, if the literals around it are quotes. */
  lemma PieceIsRead(piece: string, val: string, quote: char, behind: string, wide: Wide)
    requires (quote == '\'' || quote == '"') && forall c :: c in piece ==> !IsMarkup(c)
    requires Decode("", Normalized(piece), wide) == val
    ensures ReadAttribute(piece + [quote] + behind, quote, wide) == Some(Attribute(val, behind))
  {
    hide Decode, Normalized, IsMarkup;
    QuotedIsRead(piece, quote, behind);
    var text := piece + [quote] + behind;
    assert text[..|piece|] == piece && text[|piece| + 1..] == behind;
  }

  // ---------------------------------------------------------------- decoding in place

  /** What is written for a character code is text, and no longer than the reference to it. */
  ghost predicate Compact(wide: Wide) {
    forall s: string :: |s| >= 2 && CharReference(s, wide).Some? ==>
      |CharReference(s, wide).value.text| <= CharReference(s, wide).value.used && IsCString(CharReference(s, wide).value.text)
  }

  /** A buffer with a text of this length in it. */
  ghost predicate HoldsText(buffer: array<char>, length: nat)
    reads buffer
  {
    length < buffer.Length && buffer[length] == '\0' && IsCString(buffer[..length])
  }

  lemma PiecesAreText(buffer: array<char>, at: nat, used: nat, length: nat)
    requires HoldsText(buffer, length) && at + used <= length
    ensures length < buffer.Length && buffer[length] == '\0' && IsCString(buffer[..at]) && IsCString(buffer[at + used..length])
  {
    var all := buffer[..length];
    assert forall c :: c in buffer[..at] ==> c in all;
    assert forall c :: c in buffer[at + used..length] ==> c in all;
  }

  lemma TextOfPieces(buffer: array<char>, a: nat, b: nat, length: nat)
    requires a <= b <= length < buffer.Length && buffer[length] == '\0'
    requires IsCString(buffer[..a]) && IsCString(buffer[a..b]) && IsCString(buffer[b..length])
    ensures HoldsText(buffer, length)
  {
    assert buffer[..length] == buffer[..a] + buffer[a..b] + buffer[b..length];
  }

  /** Puts a text in place of a stretch of another: by moving the rest down if it gets no longer, else in
      a new buffer of just the right size. */
  method Splice(buffer: array<char>, length: nat, at: nat, used: nat, text: string, ghost front: string, ghost back: string)
    returns (buffer': array<char>, length': nat)
    requires HoldsText(buffer, length) && at + used <= length && IsCString(text)
    requires front == buffer[..at] && back == buffer[at + used..length]
    modifies buffer
    ensures buffer' == buffer || (fresh(buffer') && |text| > used)
    ensures HoldsText(buffer', length') && length' == length - used + |text|
    ensures buffer'[..at] == front && buffer'[at + |text|..length'] == back
    ensures buffer'[..at + |text|] == front + text && buffer'[at..length'] == text + back
  {
    PiecesAreText(buffer, at, used, length);
    hide *;
    buffer', length' := MoveTail(buffer, length, at, used, |text|, front, back);
    WriteText(buffer', at, text, length', front, back);
    TextOfPieces(buffer', at, at + |text|, length');
    JoinSlices(buffer', at, at + |text|, length');
  }

  /** memmove, within the buffer or into a longer one. */
  method MoveTail(buffer: array<char>, length: nat, at: nat, used: nat, size: nat, ghost front: string, ghost back: string)
    returns (buffer': array<char>, length': nat)
    requires length < buffer.Length && buffer[length] == '\0' && at + used <= length
    requires front == buffer[..at] && back == buffer[at + used..length]
    modifies buffer
    ensures buffer' == buffer || (fresh(buffer') && size > used)
    ensures length' == length - used + size < buffer'.Length && buffer'[length'] == '\0'
    ensures buffer'[..at] == front && buffer'[at + size..length'] == back
  {
    length' := length - used + size;
    buffer' := buffer;
    if size > used {
      buffer' := new char[length' + 1](_ => '\0');
      forall i | 0 <= i < at {
        buffer'[i] := buffer[i];
      }
    }
    forall i | 0 <= i <= length - at - used {
      buffer'[at + size + i] := buffer[at + used + i];
    }
  }

  /** strncpy of the new text. */
  method WriteText(buffer: array<char>, at: nat, text: string, ghost length: nat, ghost front: string, ghost back: string)
    requires at + |text| <= length < buffer.Length && buffer[length] == '\0'
    requires buffer[..at] == front && buffer[at + |text|..length] == back
    modifies buffer
    ensures buffer[length] == '\0' && buffer[..at] == front
    ensures buffer[at..at + |text|] == text && buffer[at + |text|..length] == back
  {
    forall i | 0 <= i < |text| {
      buffer[at + i] := text[i];
    }
    assert forall i :: at <= i < at + |text| ==> buffer[i] == text[i - at];
  }

  /** A text that starts with a good character reference, or with a known entity. */
  predicate StartsReference(rest: string, wide: Wide) {
    |rest| > 1 && rest[0] == '&' && rest[1] == '#' && CharReference(rest, wide).Some?
  }

  predicate StartsEntity(rest: string) {
    |rest| > 0 && rest[0] == '&' && !(|rest| > 1 && rest[1] == '#') && Entity(rest, 0).Some?
  }

  /** One turn of the loop: what is decoded in the end stays the same, and either fewer entities are
      left or the reading position comes nearer the end. */
  ghost predicate Turned(done: string, rest: string, done': string, rest': string, wide: Wide) {
    && Decode(done', rest', wide) == Decode(done, rest, wide)
    && (Bare(rest') < Bare(rest) || (Bare(rest') <= Bare(rest) && |rest'| < |rest|))
  }

  lemma DecodeAsIs(done: string, rest: string, wide: Wide)
    requires rest != [] && !StartsReference(rest, wide) && !StartsEntity(rest)
    ensures Turned(done, rest, done + [if IsSpace(rest[0]) then ' ' else rest[0]], rest[1..], wide)
  {
    hide CharReference, Entity;
  }

  lemma DecodeCharReference(done: string, rest: string, wide: Wide)
    requires StartsReference(rest, wide)
    ensures var reference := CharReference(rest, wide).value;
            reference.used <= |rest| && Turned(done, rest, done + reference.text, rest[reference.used..], wide)
  {
    hide CharReference, Entity;
    BareSkips(rest, CharReference(rest, wide).value.used);
  }

  lemma DecodeKnownEntity(done: string, rest: string, wide: Wide)
    requires StartsEntity(rest)
    ensures var b := Entity(rest, 0).value;
            1 + |NAMES[b]| <= |rest| && Turned(done, rest, done, VALUES[b] + rest[1 + |NAMES[b]|..], wide)
  {
    hide CharReference;
    EntityShrinks(rest, Entity(rest, 0).value);
  }

  lemma GoodReference(done: string, rest: string, wide: Wide)
    requires Compact(wide) && StartsReference(rest, wide)
    ensures |rest| >= 2 && CharReference(rest, wide).Some?
    ensures var reference := CharReference(rest, wide).value;
            && |reference.text| <= reference.used <= |rest| && IsCString(reference.text)
            && Turned(done, rest, done + reference.text, rest[reference.used..], wide)
  {
    hide Turned;
    DecodeCharReference(done, rest, wide);
  }

  lemma ValuesAreText(b: nat)
    requires b < |NAMES|
    ensures IsCString(VALUES[b])
  {
  }

  /** What is done and what is ahead once a text has taken the place of the first bytes ahead. */
  ghost predicate Replaced(front: string, back: string, done: string, rest: string, used: nat, text: string) {
    used <= |rest| && front == done + text && back == rest[used..]
  }

  /** strtol on the reference ahead: how much of it there is, and what it stands for. */
  method ReadReference(rest: string, wide: Wide, ghost done: string)
    returns (used: nat, text: string, ghost front: string, ghost back: string)
    requires Compact(wide) && StartsReference(rest, wide)
    ensures |text| <= used <= |rest| && IsCString(text)
    ensures Replaced(front, back, done, rest, used, text) && Turned(done, rest, front, back, wide)
  {
    GoodReference(done, rest, wide);
    var reference := CharReference(rest, wide).value;
    used, text := reference.used, reference.text;
    front, back := done + text, rest[used..];
  }

  /** The text of a reference takes its place, and decoding goes on behind it. */
  method SpliceAhead(r: array<char>, end: nat, s: nat, used: nat, text: string,
                     ghost done: string, ghost rest: string, ghost front: string, ghost back: string)
    returns (r': array<char>, end': nat)
    requires HoldsText(r, end) && s + used <= end && IsCString(text) && done == r[..s] && rest == r[s..end]
    requires Replaced(front, back, done, rest, used, text)
    modifies r
    ensures HoldsText(r', end') && s + |text| <= end' && (r' == r || fresh(r'))
    ensures r'[..s + |text|] == front && r'[s + |text|..end'] == back
  {
    RestOf(r, s, end, used);
    r', end' := Splice(r, end, s, used, text, done, back);
  }

  lemma JoinSlices(r: array<char>, a: nat, b: nat, c: nat)
    requires a <= b <= c <= r.Length
    ensures r[a..c] == r[a..b] + r[b..c] && r[..b] == r[..a] + r[a..b]
  {
  }

  lemma RestOf(r: array<char>, s: nat, end: nat, used: nat)
    requires s + used <= end <= r.Length
    ensures r[s..end][used..] == r[s + used..end]
  {
  }

  method TurnEntity(r: array<char>, end: nat, s: nat, ghost wide: Wide, ghost done: string, rest: string)
    returns (r': array<char>, end': nat)
    requires HoldsText(r, end) && s < end && done == r[..s] && rest == r[s..end] && StartsEntity(rest)
    modifies r
    ensures HoldsText(r', end') && s <= end' && (r' == r || fresh(r'))
    ensures Turned(done, rest, r'[..s], r'[s..end'], wide)
  {
    assert |rest| == end - s;
    DecodeKnownEntity(done, rest, wide);
    EntityKnown(rest);
    hide *;
    var b := Entity(rest, 0).value;
    ValuesAreText(b);
    RestOf(r, s, end, 1 + |NAMES[b]|);
    r', end' := Splice(r, end, s, 1 + |NAMES[b]|, VALUES[b], done, rest[1 + |NAMES[b]|..]);
  }

  lemma EntityKnown(rest: string)
    requires StartsEntity(rest)
    ensures Entity(rest, 0).Some?
  {
  }

  method TurnChar(r: array<char>, end: nat, s: nat, ghost wide: Wide, ghost done: string, ghost rest: string)
    requires HoldsText(r, end) && s < end && done == r[..s] && rest == r[s..end]
    requires !StartsReference(rest, wide) && !StartsEntity(rest)
    modifies r
    ensures HoldsText(r, end) && Turned(done, rest, r[..s + 1], r[s + 1..end], wide)
  {
    ghost var all := r[..end];
    DecodeAsIs(done, rest, wide);
    hide Turned, StartsReference, StartsEntity;
    if IsSpace(r[s]) {
      r[s] := ' ';
    }
    assert r[..s + 1] == done + [r[s]];
    assert r[s + 1..end] == rest[1..];
    assert r[..end] == all[s := r[s]];
  }

  /** memmove by one: the character at `s` goes. */
  method DropChar(m: array<char>, end: nat, s: nat)
    requires HoldsText(m, end) && s < end
    modifies m
    ensures HoldsText(m, end - 1) && m[..s] == old(m[..s]) && m[s..end - 1] == old(m[s + 1..end])
  {
    ghost var was := m[..end];
    forall i | s <= i < end {
      m[i] := m[i + 1];
    }
    assert was[..s] == old(m[..s]) && was[s + 1..] == old(m[s + 1..end]);
    assert m[..end - 1] == was[..s] + was[s + 1..];
    assert forall c :: c in was[..s] + was[s + 1..] ==> c in was;
  }

  /** The inner loop's turn: a carriage return becomes a newline, and a newline behind it goes. The text
      does not end here, as it would not if a carriage return were behind it. */
  method TurnReturn(m: array<char>, end: nat, s: nat, ghost front: string, ghost ahead: string) returns (end': nat)
    requires HoldsText(m, end) && s < end && m[s] == '\r' && front == m[..s] && ahead == m[s..end] && !EndsInReturn(ahead)
    modifies m
    ensures s + 1 < end' <= end && HoldsText(m, end') && !EndsInReturn(m[s + 1..end'])
    ensures m[..s + 1] == front + ['\n'] && Normalized(ahead) == ['\n'] + Normalized(m[s + 1..end'])
  {
    ghost var rest, all := m[s + 1..end], m[..end];
    assert ahead == ['\r'] + rest;
    NormalizedReturn(rest);
    EndsBehind(rest);
    hide Normalized, EndsInReturn;
    m[s] := '\n';
    end' := end;
    assert m[..end] == all[s := '\n'] && m[s + 1..end] == rest && m[..s + 1] == front + ['\n'];
    if m[s + 1] == '\n' {
      DropChar(m, end, s + 1);
      end' := end - 1;
      assert rest[1..] == old(m[s + 2..end]);
    }
  }

  lemma EndsBehind(rest: string)
    ensures rest == [] || rest == "\n" ==> EndsInReturn(['\r'] + rest)
    ensures rest != [] && EndsInReturn(rest) ==> EndsInReturn(['\r'] + rest)
    ensures rest != [] && EndsInReturn(rest[1..]) ==> EndsInReturn(['\r'] + rest)
  {
  }

  /** The first pass of ezxml_decode. Where the text ends in a carriage return, or in one and a newline,
      it goes on behind the end. */
  method NormalizeLineEnds(m: array<char>, length: nat) returns (end: nat)
    requires HoldsText(m, length) && !EndsInReturn(m[..length])
    modifies m
    ensures HoldsText(m, end) && m[..end] == Normalized(old(m[..length]))
  {
    hide Normalized, EndsInReturn, IsCString;
    ghost var text := m[..length];
    end := length;
    var s := 0;
    assert m[0..end] == text && m[..0] == "";
    assert "" + Normalized(text) == Normalized(text);
    while s < end
      invariant s <= end && HoldsText(m, end) && !EndsInReturn(m[s..end])
      invariant Normalized(text) == m[..s] + Normalized(m[s..end])
      decreases end - s
    {
      while m[s] == '\r'
        invariant s < end && HoldsText(m, end) && !EndsInReturn(m[s..end])
        invariant Normalized(text) == m[..s] + Normalized(m[s..end])
        decreases end - s
      {
        ghost var front, ahead := m[..s], m[s..end];
        end := TurnReturn(m, end, s, front, ahead);
        s := s + 1;
        Regrouped(front, ['\n'], Normalized(m[s..end]));
      }
      PassChar(m, end, s);
      s := s + 1;
    }
    assert m[s..end] == "";
    NormalizedNothing();
  }

  lemma Regrouped(a: string, b: string, c: string)
    ensures a + (b + c) == a + b + c
  {
  }

  lemma PassChar(m: array<char>, end: nat, s: nat)
    requires HoldsText(m, end) && s < end && m[s] != '\r' && !EndsInReturn(m[s..end])
    ensures !EndsInReturn(m[s + 1..end])
    ensures m[..s] + Normalized(m[s..end]) == m[..s + 1] + Normalized(m[s + 1..end])
  {
    var rest := m[s + 1..end];
    assert m[s..end] == [m[s]] + rest;
    assert m[s..end][1..] == rest;
    if EndsInReturn(rest) {
      EndsLater(m[s..end], 1);
    }
    NormalizedPlain([m[s]], rest);
    hide Normalized;
    assert m[..s] + ([m[s]] + Normalized(rest)) == m[..s + 1] + Normalized(rest);
  }

  lemma NormalizedNothing()
    ensures Normalized("") == ""
  {
  }

  /** ezxml_decode with type ' ', in its own buffer as long as it fits there. */
  method EzxmlDecode(m: array<char>, length: nat, wide: Wide) returns (r: array<char>, end: nat)
    requires HoldsText(m, length) && !EndsInReturn(m[..length]) && Compact(wide)
    modifies m
    ensures HoldsText(r, end) && r[..end] == Decode("", Normalized(old(m[..length])), wide)
    ensures r == m || fresh(r)
  {
    hide Bare, Compact, StartsReference, StartsEntity, Decode, IsCString, Normalized, EndsInReturn;
    end := NormalizeLineEnds(m, length);
    ghost var original := m[..end];
    r := m;
    var s: nat := 0;
    assert r[s..end] == original && r[..s] == "";
    while s < end
      invariant s <= end && HoldsText(r, end) && (r == m || fresh(r))
      invariant Decode(r[..s], r[s..end], wide) == Decode("", original, wide)
      decreases Bare(r[s..end]), end - s
    {
      if StartsReference(r[s..end], wide) {
        ghost var done, rest := r[..s], r[s..end];
        var used, text, front, back := ReadReference(r[s..end], wide, done);
        r, end := SpliceAhead(r, end, s, used, text, done, rest, front, back);
        s := s + |text|;
      } else if StartsEntity(r[s..end]) {
        r, end := TurnEntity(r, end, s, wide, r[..s], r[s..end]);
      } else {
        TurnChar(r, end, s, wide, r[..s], r[s..end]);
        s := s + 1;
      }
    }
    DecodeNothing(r[..s], wide);
    assert r[s..end] == "";
  }

  lemma DecodeNothing(done: string, wide: Wide)
    ensures Decode(done, "", wide) == done
  {
  }
}
