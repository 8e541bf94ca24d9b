/** Command patterns: what one word of a pattern stands for, and which command lines a pattern
    accepts (src/libfootball/fb_parser.c, format described at lines 17-57). */
module Patterns {
  import opened Basics
  import opened CStrings

  // ---------------------------------------------------------------- number scanning

  /** What strtol(3) or strtod(3) makes of a string: a value, and how many characters it used. */
  datatype Scan<T> = Scan(value: T, used: nat)

  /** strtod(3) is not modelled; whatever it does, scanning just what it used scans the same. */
  type Strtod = string -> Scan<real>

  ghost predicate Stable(strtod: Strtod) {
    forall s :: strtod(s).used <= |s| && strtod(s[..strtod(s).used]) == strtod(s)
  }

  const LONG_MAX := 0x7fff_ffff_ffff_ffff
  const LONG_MIN := -0x8000_0000_0000_0000

  function DigitOf(c: char): nat {
    if IsDigit(c) then c as int - '0' as int
    else if 'a' <= c <= 'z' then c as int - 'a' as int + 10
    else if 'A' <= c <= 'Z' then c as int - 'A' as int + 10
    else 36
  }

  function DigitsEnd(s: string, i: nat, base: nat): (r: nat)
    requires i <= |s|
    ensures i <= r <= |s|
    decreases |s| - i
  {
    if i < |s| && DigitOf(s[i]) < base then DigitsEnd(s, i + 1, base) else i
  }

  function DigitsValue(digits: string, base: nat): nat {
    if digits == [] then 0
    else DigitsValue(digits[..|digits| - 1], base) * base + DigitOf(digits[|digits| - 1])
  }

  /** A "0x" with a hexadecimal digit after it, at `i`. */
  predicate HexAt(s: string, i: nat) {
    i + 2 < |s| && s[i] == '0' && (s[i + 1] == 'x' || s[i + 1] == 'X') && DigitOf(s[i + 2]) < 16
  }

  /** Where the digits start, counting a "0x" as digits: after whitespace and a sign. */
  function SignEnd(s: string): (j: nat)
    ensures j <= |s|
  {
    var i := SkipSpace(s, 0);
    if i < |s| && (s[i] == '-' || s[i] == '+') then i + 1 else i
  }

  function BaseAt(s: string, j: nat, radix: nat): nat {
    if radix == 10 then 10 else if HexAt(s, j) then 16 else if j < |s| && s[j] == '0' then 8 else 10
  }

  function BaseOf(s: string, radix: nat): nat {
    BaseAt(s, SignEnd(s), radix)
  }

  function DigitsStart(s: string, radix: nat): (r: nat)
    ensures r <= |s|
  {
    if BaseOf(s, radix) == 16 then SignEnd(s) + 2 else SignEnd(s)
  }

  function Clamp(n: int): int {
    if n < LONG_MIN then LONG_MIN else if n > LONG_MAX then LONG_MAX else n
  }

  /** strtol(3); radix 0 detects octal and hexadecimal. */
  function Strtol(s: string, radix: nat): Scan<int>
    requires radix == 0 || radix == 10
  {
    var from := DigitsStart(s, radix);
    var to := DigitsEnd(s, from, BaseOf(s, radix));
    if to == from then Scan(0, 0)
    else
      var n := DigitsValue(s[from..to], BaseOf(s, radix));
      Scan(Clamp(if s[SkipSpace(s, 0)] == '-' then 0 - n else n), to)
  }

  lemma {:induction false} DigitsEndPrefix(s: string, i: nat, base: nat, k: nat)
    requires i <= k <= |s|
    ensures DigitsEnd(s, i, base) <= k ==> DigitsEnd(s[..k], i, base) == DigitsEnd(s, i, base)
    ensures DigitsEnd(s, i, base) >= k ==> DigitsEnd(s[..k], i, base) == k
    decreases |s| - i
  {
    if i < k && DigitOf(s[i]) < base {
      DigitsEndPrefix(s, i + 1, base, k);
    }
  }

  lemma {:induction false} SkipSpacePrefix(s: string, i: nat, k: nat)
    requires i <= |s| && SkipSpace(s, i) < k <= |s|
    ensures SkipSpace(s[..k], i) == SkipSpace(s, i)
    decreases |s| - i
  {
    if i < |s| && IsSpace(s[i]) {
      SkipSpacePrefix(s, i + 1, k);
    }
  }

  lemma SignEndPrefix(s: string, k: nat)
    requires SignEnd(s) < k <= |s|
    ensures SkipSpace(s[..k], 0) == SkipSpace(s, 0) && SignEnd(s[..k]) == SignEnd(s)
  {
    SkipSpacePrefix(s, 0, k);
  }

  lemma DigitsStartPrefix(s: string, radix: nat, k: nat)
    requires radix == 0 || radix == 10
    requires DigitsStart(s, radix) < k <= |s|
    ensures BaseOf(s[..k], radix) == BaseOf(s, radix) && DigitsStart(s[..k], radix) == DigitsStart(s, radix)
  {
    SignEndPrefix(s, k);
    var j := SignEnd(s);
    assert HexAt(s[..k], j) ==> HexAt(s, j);
    assert BaseOf(s, radix) == 16 ==> HexAt(s[..k], j);
  }

  /** Scanning just the text of a number gives the same number. */
  lemma StrtolStable(s: string, radix: nat)
    requires radix == 0 || radix == 10
    ensures Strtol(s, radix).used <= |s|
    ensures Strtol(s[..Strtol(s, radix).used], radix) == Strtol(s, radix)
  {
    var k := Strtol(s, radix).used;
    var t := s[..k];
    if k > 0 {
      var from := DigitsStart(s, radix);
      assert from < k;
      DigitsStartPrefix(s, radix, k);
      SignEndPrefix(s, k);
      DigitsEndPrefix(s, from, BaseOf(s, radix), k);
      assert t[from..k] == s[from..k];
    } else {
      assert t == "";
    }
  }

  // ---------------------------------------------------------------- pattern words

  datatype ValueSpec =
    | AnyText
    | Numeric
    | IntRange(min: int, max: int, radix: nat)
    | RealRange(lo: real, hi: real)

  predicate ValidSpec(spec: ValueSpec) {
    spec.IntRange? ==> spec.radix == 0 || spec.radix == 10
  }

  /** A fill-in-the-blank: how it is shown when missing, its name, and what it takes. */
  datatype Blank = Blank(shown: string, name: string, spec: ValueSpec)

  datatype Term =
    | Keyword(word: string)
    | Choice(optional: bool, name: string, words: seq<string>)
    | FillIn(blank: Blank)
    | OptionalFillIn(blank: Blank)
    | Ellipsis
    | Invalid

  function CharAt(s: string, i: nat): char {
    if i < |s| then s[i] else '\0'
  }

  /** The radix a range asks for: a leading zero turns radix detection on. `range` and `upper` are
      where the range and the dash in its middle are. */
  function RangeRadix(word: string, range: nat, upper: nat): (r: nat)
    ensures r == 0 || r == 10
  {
    if || (CharAt(word, range) == '0' && CharAt(word, range + 1) != '-')
       || (CharAt(word, range) == '-' && CharAt(word, range + 1) == '0')
       || (CharAt(word, upper) == '0' && CharAt(word, range + 1) != '}')
       || (CharAt(word, upper) == '-' && CharAt(word, upper + 1) == '0')
    then 0 else 10
  }

  /** The range of a numeric blank, written from `range` on, with the dash in its middle at `upper`. */
  function ParseRange(word: string, range: nat, upper: nat, strtod: Strtod): (r: Option<ValueSpec>)
    requires range <= upper < |word|
    ensures r.Some? ==> ValidSpec(r.value)
  {
    if Find(word, '.', 0).Some? then
      var lo := strtod(word[range..]);
      var hi := strtod(word[upper + 1..]);
      if range + lo.used == upper && CharAt(word, upper + 1 + hi.used) == '}' && lo.value < hi.value
      then Some(RealRange(lo.value, hi.value)) else None
    else
      var radix := RangeRadix(word, range, upper);
      var lo := Strtol(word[range..], radix);
      var hi := Strtol(word[upper + 1..], radix);
      if range + lo.used == upper && CharAt(word, upper + 1 + hi.used) == '}' && lo.value < hi.value
      then Some(IntRange(lo.value, hi.value, radix)) else None
  }

  /** What a {blank} takes, if the blank is well-formed. */
  function ParseSpec(word: string, strtod: Strtod): (r: Option<ValueSpec>)
    ensures r.Some? ==> ValidSpec(r.value)
  {
    if CharAt(word, 1) != '#' then Some(AnyText)
    else
      match Find(word, ':', 0)
      case None => Some(Numeric)
      case Some(colon) =>
        var range := colon + 1;
        var from := if CharAt(word, range) == '-' then range + 1 else range;
        match if from <= |word| then Find(word, '-', from) else None
        case None => None
        case Some(upper) => ParseRange(word, range, upper, strtod)
  }

  function ParseBlank(word: string, strtod: Strtod): (r: Option<Blank>)
    requires |word| >= 2 && word[|word| - 1] == '}'
    ensures r.Some? ==> ValidSpec(r.value.spec)
  {
    match ParseSpec(word, strtod)
    case None => None
    case Some(spec) =>
      var start := if word[1] == '#' then 2 else 1;
      var stop := match Find(word, ':', start)
        case Some(colon) => colon
        case None =>
          assert '}' in word[start..] by { assert word[start..][|word| - 1 - start] == '}'; }
          Find(word, '}', start).value;
      var shown := match Find(word, ':', 0)
        case Some(colon) => word[..colon] + "}"
        case None => word;
      Some(Blank(shown, word[start..stop], spec))
  }

  /** The nonempty pieces of `s` between bars. */
  function SplitBars(s: string): seq<string>
    decreases |s|
  {
    if s == [] then []
    else
      match Find(s, '|', 0)
      case None => [s]
      case Some(bar) => (if bar == 0 then [] else [s[..bar]]) + SplitBars(s[bar + 1..])
  }

  /** The alternatives inside <> or []: the name given before a colon, or else the first piece. */
  function ParseChoice(optional: bool, body: string): Term {
    match Find(body, ':', 0)
    case Some(colon) => Choice(optional, body[..colon], SplitBars(body[colon + 1..]))
    case None =>
      var name := match Find(body, '|', 0) case Some(bar) => body[..bar] case None => body;
      Choice(optional, name, SplitBars(body))
  }

  /** What one word of a pattern stands for, in the order fb_parser_add tells them apart. */
  function Classify(word: string, strtod: Strtod): Term {
    var n := |word|;
    if n >= 2 && word[0] == '[' && word[1] == '{' && word[n - 2] == '}' && word[n - 1] == ']' then
      match ParseBlank(word[1..n - 1], strtod)
      case Some(blank) => OptionalFillIn(blank)
      case None => Invalid
    else if word == "..." then Ellipsis
    else if n >= 1 && word[0] == '{' && word[n - 1] == '}' then
      match ParseBlank(word, strtod)
      case Some(blank) => FillIn(blank)
      case None => Invalid
    else if n >= 1 && word[0] == '<' && word[n - 1] == '>' then ParseChoice(false, word[1..n - 1])
    else if n >= 1 && word[0] == '[' && word[n - 1] == ']' then ParseChoice(true, word[1..n - 1])
    else Keyword(word)
  }

  function ClassifyAll(words: seq<string>, strtod: Strtod): (r: seq<Term>)
    ensures |r| == |words|
  {
    seq(|words|, i requires 0 <= i < |words| => Classify(words[i], strtod))
  }

  // ---------------------------------------------------------------- what patterns accept

  datatype Fit = Fits | NotANumber | OutOfRange

  function Unsigned(token: string): string {
    if token != [] && token[0] == '-' then token[1..] else token
  }

  predicate OnlyDigits(s: string) {
    forall i :: 0 <= i < |s| ==> IsDigit(s[i])
  }

  /** Whether a token may stand in a blank. */
  function FitOf(spec: ValueSpec, token: string, strtod: Strtod): Fit
    requires ValidSpec(spec)
  {
    match spec
    case AnyText => Fits
    case Numeric =>
      if OnlyDigits(Unsigned(token)) then Fits else NotANumber
    case IntRange(min, max, radix) =>
      var n := Strtol(token, radix);
      if n.used < |token| then NotANumber else if min <= n.value <= max then Fits else OutOfRange
    case RealRange(lo, hi) =>
      var x := strtod(token);
      if x.used < |token| then NotANumber else if lo <= x.value <= hi then Fits else OutOfRange
  }

  ghost predicate Satisfiable(spec: ValueSpec, strtod: Strtod)
    requires ValidSpec(spec)
  {
    exists token :: FitOf(spec, token, strtod) == Fits
  }

  /** Every range that parses has a number in it: its own lower bound, as written. */
  lemma ParsedRangeSatisfiable(word: string, range: nat, upper: nat, strtod: Strtod)
    requires range <= upper < |word|
    requires Stable(strtod) && ParseRange(word, range, upper, strtod).Some?
    ensures Satisfiable(ParseRange(word, range, upper, strtod).value, strtod)
  {
    var spec := ParseRange(word, range, upper, strtod).value;
    var text := word[range..];
    if spec.IntRange? {
      LowerBoundFits(text, spec.min, spec.max, spec.radix, strtod);
    } else {
      assert FitOf(spec, text[..strtod(text).used], strtod) == Fits;
    }
  }

  lemma LowerBoundFits(text: string, min: int, max: int, radix: nat, strtod: Strtod)
    requires radix == 0 || radix == 10
    requires Strtol(text, radix).value == min <= max
    ensures Satisfiable(IntRange(min, max, radix), strtod)
  {
    StrtolStable(text, radix);
    hide Strtol;
    assert FitOf(IntRange(min, max, radix), text[..Strtol(text, radix).used], strtod) == Fits;
  }

  /** Every blank that parses can be filled in. */
  lemma ParsedSpecSatisfiable(word: string, strtod: Strtod)
    requires Stable(strtod) && ParseSpec(word, strtod).Some?
    ensures Satisfiable(ParseSpec(word, strtod).value, strtod)
  {
    if CharAt(word, 1) != '#' {
      assert FitOf(AnyText, "", strtod) == Fits;
    } else if Find(word, ':', 0).None? {
      assert FitOf(Numeric, "", strtod) == Fits;
    } else {
      var range := Find(word, ':', 0).value + 1;
      var from := if CharAt(word, range) == '-' then range + 1 else range;
      ParsedRangeSatisfiable(word, range, Find(word, '-', from).value, strtod);
    }
  }

  predicate OneOf(words: seq<string>, token: string) {
    exists w :: w in words && Lower(w) == Lower(token)
  }

  predicate ValidTerms(terms: seq<Term>) {
    forall t :: t in terms ==> t.FillIn? || t.OptionalFillIn? ==> ValidSpec(t.blank.spec)
  }

  /** The command lines a pattern stands for. */
  predicate Accepts(terms: seq<Term>, tokens: seq<string>, strtod: Strtod)
    requires ValidTerms(terms)
    decreases |terms|
  {
    if terms == [] then tokens == []
    else
      var rest := terms[1..];
      match terms[0]
      case Keyword(w) => tokens != [] && Lower(tokens[0]) == Lower(w) && Accepts(rest, tokens[1..], strtod)
      case Choice(optional, _, words) =>
        || (optional && Accepts(rest, tokens, strtod))
        || (tokens != [] && OneOf(words, tokens[0]) && Accepts(rest, tokens[1..], strtod))
      case FillIn(b) => tokens != [] && FitOf(b.spec, tokens[0], strtod) == Fits && Accepts(rest, tokens[1..], strtod)
      case OptionalFillIn(b) =>
        tokens == [] || (FitOf(b.spec, tokens[0], strtod) == Fits && Accepts(rest, tokens[1..], strtod))
      case Ellipsis => true
      case Invalid => false
  }

  /** The beginnings of command lines a pattern can be matched along. */
  predicate Reaches(terms: seq<Term>, tokens: seq<string>, strtod: Strtod)
    requires ValidTerms(terms)
    decreases |terms|
  {
    if tokens == [] then true
    else if terms == [] then false
    else
      var rest := terms[1..];
      match terms[0]
      case Keyword(w) => Lower(tokens[0]) == Lower(w) && Reaches(rest, tokens[1..], strtod)
      case Choice(optional, _, words) =>
        || (optional && Reaches(rest, tokens, strtod))
        || (OneOf(words, tokens[0]) && Reaches(rest, tokens[1..], strtod))
      case FillIn(b) => FitOf(b.spec, tokens[0], strtod) == Fits && Reaches(rest, tokens[1..], strtod)
      case OptionalFillIn(b) => FitOf(b.spec, tokens[0], strtod) == Fits && Reaches(rest, tokens[1..], strtod)
      case Ellipsis => true
      case Invalid => false
  }

  /** What a pattern may ask for next. */
  datatype Expectation = AKeyword | AValue(spec: ValueSpec) | Anything

  /** After `tokens`, the pattern may go on with `e`. */
  predicate Expects(terms: seq<Term>, tokens: seq<string>, e: Expectation, strtod: Strtod)
    requires ValidTerms(terms)
    decreases |terms|
  {
    if terms == [] then false
    else
      var rest := terms[1..];
      match terms[0]
      case Keyword(w) =>
        if tokens == [] then e == AKeyword
        else Lower(tokens[0]) == Lower(w) && Expects(rest, tokens[1..], e, strtod)
      case Choice(optional, _, words) =>
        || (tokens == [] && e == AKeyword)
        || (optional && Expects(rest, tokens, e, strtod))
        || (tokens != [] && OneOf(words, tokens[0]) && Expects(rest, tokens[1..], e, strtod))
      case FillIn(b) =>
        if tokens == [] then e == AValue(b.spec)
        else FitOf(b.spec, tokens[0], strtod) == Fits && Expects(rest, tokens[1..], e, strtod)
      case OptionalFillIn(b) =>
        if tokens == [] then e == AValue(b.spec)
        else FitOf(b.spec, tokens[0], strtod) == Fits && Expects(rest, tokens[1..], e, strtod)
      case Ellipsis => e == Anything
      case Invalid => false
  }

  /** A pattern none of whose words is a dead end: every blank can be filled in, every required
      choice has an alternative, and nothing is malformed. */
  ghost predicate Live(terms: seq<Term>, strtod: Strtod)
    requires ValidTerms(terms)
  {
    forall t :: t in terms ==>
      && !t.Invalid?
      && (t.Choice? && !t.optional ==> t.words != [])
      && (t.FillIn? || t.OptionalFillIn? ==> Satisfiable(t.blank.spec, strtod))
  }

  /** A live pattern can always be completed. */
  lemma {:induction false} LiveCompletes(terms: seq<Term>, strtod: Strtod) returns (ext: seq<string>)
    requires ValidTerms(terms) && Live(terms, strtod)
    ensures Accepts(terms, ext, strtod)
  {
    if terms == [] {
      return [];
    }
    var rest := terms[1..];
    ext := LiveCompletes(rest, strtod);
    match terms[0]
    case Keyword(w) =>
      ext := [w] + ext;
    case Choice(optional, _, words) =>
      if !optional {
        assert words[0] in words && OneOf(words, words[0]);
        ext := [words[0]] + ext;
      }
    case FillIn(b) =>
      var token :| FitOf(b.spec, token, strtod) == Fits;
      ext := [token] + ext;
    case OptionalFillIn(b) =>
      ext := [];
    case Ellipsis =>
    case Invalid =>
  }

  /** In a live pattern, what can be matched along is just what can be extended to a full match. */
  lemma {:induction false} ReachesIsViable(terms: seq<Term>, tokens: seq<string>, strtod: Strtod)
    requires ValidTerms(terms)
    ensures (exists ext :: Accepts(terms, tokens + ext, strtod)) ==> Reaches(terms, tokens, strtod)
    ensures Live(terms, strtod) && Reaches(terms, tokens, strtod) ==> exists ext :: Accepts(terms, tokens + ext, strtod)
    decreases |terms|
  {
    if ext :| Accepts(terms, tokens + ext, strtod) {
      ExtensionReaches(terms, tokens, ext, strtod);
    }
    if Live(terms, strtod) && Reaches(terms, tokens, strtod) {
      var ext := ReachesCompletes(terms, tokens, strtod);
    }
  }

  lemma {:induction false} ExtensionReaches(terms: seq<Term>, tokens: seq<string>, ext: seq<string>, strtod: Strtod)
    requires ValidTerms(terms) && Accepts(terms, tokens + ext, strtod)
    ensures Reaches(terms, tokens, strtod)
    decreases |terms|
  {
    if tokens != [] && terms != [] {
      var rest := terms[1..];
      assert (tokens + ext)[1..] == tokens[1..] + ext;
      if terms[0].Choice? && terms[0].optional && Accepts(rest, tokens + ext, strtod) {
        ExtensionReaches(rest, tokens, ext, strtod);
      } else if !terms[0].Ellipsis? {
        ExtensionReaches(rest, tokens[1..], ext, strtod);
      }
    }
  }

  lemma {:induction false} ReachesCompletes(terms: seq<Term>, tokens: seq<string>, strtod: Strtod) returns (ext: seq<string>)
    requires ValidTerms(terms) && Live(terms, strtod) && Reaches(terms, tokens, strtod)
    ensures Accepts(terms, tokens + ext, strtod)
    decreases |terms|
  {
    if tokens == [] {
      ext := LiveCompletes(terms, strtod);
      assert tokens + ext == ext;
    } else {
      var rest := terms[1..];
      if terms[0].Choice? && terms[0].optional && Reaches(rest, tokens, strtod) {
        ext := ReachesCompletes(rest, tokens, strtod);
      } else if terms[0].Ellipsis? {
        ext := [];
      } else {
        ext := ReachesCompletes(rest, tokens[1..], strtod);
        assert (tokens + ext)[1..] == tokens[1..] + ext;
      }
    }
  }
}
