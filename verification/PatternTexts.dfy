/** Patterns written out: the compiler reads back what was written, word by word, so the words stand for
    what the head of the parser says they do (src/libfootball/fb_parser.c:17-57, 322-368 and 434-549). */
module PatternTexts {
  import opened Basics
  import opened CStrings
  import opened Patterns
  import opened NumberTexts
  import opened PlainTerms
  import Tokenizer

  // ---------------------------------------------------------------- choices of words

  /** Words with bars between them. */
  function Bars(words: seq<string>): string {
    if words == [] then ""
    else if |words| == 1 then words[0]
    else words[0] + "|" + Bars(words[1..])
  }

  /** Words that bars keep apart. */
  predicate BarFree(words: seq<string>) {
    forall w :: w in words ==> w != "" && '|' !in w
  }

  predicate ColonFree(words: seq<string>) {
    forall w :: w in words ==> ':' !in w
  }

  lemma BarsFirst(words: seq<string>)
    requires words != [] && BarFree(words)
    ensures words[0] != "" && '|' !in words[0] && BarFree(words[1..])
    ensures Find(Bars(words), '|', 0) == if |words| == 1 then None else Some(|words[0]|)
    ensures |words| > 1 ==> Bars(words)[..|words[0]|] == words[0] && Bars(words)[|words[0]| + 1..] == Bars(words[1..])
  {
    assert words[0] in words && forall w :: w in words[1..] ==> w in words;
    if |words| == 1 {
      FindNone(words[0], '|', 0);
    } else {
      FindIs(Bars(words), '|', 0, |words[0]|);
    }
  }

  /** What is written with bars is taken apart at them. */
  lemma {:induction false} BarsAreSplit(words: seq<string>)
    requires BarFree(words)
    ensures SplitBars(Bars(words)) == words
    decreases |words|
  {
    if words != [] {
      BarsFirst(words);
      assert words == [words[0]] + words[1..];
      if |words| > 1 {
        hide BarFree, Find;
        BarsAreSplit(words[1..]);
      }
    }
  }

  lemma {:induction false} BarsWithout(words: seq<string>)
    requires ColonFree(words)
    ensures ':' !in Bars(words)
    decreases |words|
  {
    if words != [] {
      assert words[0] in words;
      if |words| > 1 {
        BarsWithout(words[1..]);
      }
    }
  }

  /** Alternatives without a name go by the first of them. */
  lemma UnnamedIsRead(optional: bool, words: seq<string>)
    requires words != [] && BarFree(words) && ColonFree(words)
    ensures ParseChoice(optional, Bars(words)) == Choice(optional, words[0], words)
  {
    BarsWithout(words);
    FindNone(Bars(words), ':', 0);
    BarsFirst(words);
    BarsAreSplit(words);
  }

  lemma NamedIsRead(optional: bool, name: string, words: seq<string>)
    requires ':' !in name && BarFree(words)
    ensures ParseChoice(optional, name + ":" + Bars(words)) == Choice(optional, name, words)
  {
    var body := name + ":" + Bars(words);
    FindIs(body, ':', 0, |name|);
    BarsAreSplit(words);
    assert body[..|name|] == name && body[|name| + 1..] == Bars(words);
  }

  /** Angle brackets around what is required, square ones around what may be left out. */
  function Bracketed(optional: bool, body: string): string {
    if optional then "[" + body + "]" else "<" + body + ">"
  }

  /** Something in braces, which in square brackets is an optional blank. */
  predicate Braced(body: string) {
    Wrapped(body, '{', '}')
  }

  predicate Wrapped(word: string, open: char, close: char) {
    |word| >= 2 && word[0] == open && word[|word| - 1] == close
  }

  lemma BracketsAreRead(optional: bool, body: string, strtod: Strtod)
    requires optional ==> !Braced(body)
    ensures Classify(Bracketed(optional, body), strtod) == ParseChoice(optional, body)
  {
    hide ParseChoice, ParseBlank;
    var word := Bracketed(optional, body);
    assert word[1..|word| - 1] == body;
    assert |body| > 0 ==> word[1] == body[0] && word[|word| - 2] == body[|body| - 1];
  }

  // ---------------------------------------------------------------- blanks

  /** How a blank is shown, whatever its range is. */
  function Shown(name: string, spec: ValueSpec): string {
    (if spec.AnyText? then "{" else "{#") + name + "}"
  }

  /** A range as texts for its bounds. */
  function Ranged(name: string, lo: string, hi: string): string {
    "{#" + name + ":" + lo + "-" + hi + "}"
  }

  /** What stands in the blank from its lower and from its upper bound on. */
  function FromLower(lo: string, hi: string): string {
    lo + ("-" + hi + "}")
  }

  function FromUpper(hi: string): string {
    hi + "}"
  }

  /** A lower bound that ends where the dash between the bounds is. */
  predicate LowerText(lo: string) {
    lo != "" && '-' !in lo[1..]
  }

  predicate NameText(name: string) {
    ':' !in name && '}' !in name
  }

  lemma RangedAt(name: string, lo: string, hi: string)
    ensures var word, range := Ranged(name, lo, hi), |name| + 3;
            var upper := range + |lo|;
            && |word| == upper + |hi| + 2
            && (forall k :: 0 <= k < |name| ==> word[2 + k] == name[k])
            && (forall k :: 0 <= k < |lo| ==> word[range + k] == lo[k])
            && word[0] == '{' && word[1] == '#' && word[range - 1] == ':' && word[upper] == '-' && word[|word| - 1] == '}'
            && word[range..] == FromLower(lo, hi) && word[upper + 1..] == FromUpper(hi)
            && word[2..range - 1] == name && word[..range - 1] == "{#" + name
  {
  }

  /** Where the parts of a blank with a range are. */
  lemma RangedParts(name: string, lo: string, hi: string)
    requires NameText(name) && LowerText(lo)
    ensures var word, colon := Ranged(name, lo, hi), |name| + 2;
            var range := colon + 1;
            var upper := range + |lo|;
            && |word| == upper + |hi| + 2 && word[0] == '{' && word[1] == '#' && word[|word| - 1] == '}'
            && Find(word, ':', 0) == Find(word, ':', 2) == Some(colon)
            && word[2..colon] == name && word[..colon] + "}" == "{#" + name + "}"
            && Find(word, '-', if CharAt(word, range) == '-' then range + 1 else range) == Some(upper)
            && word[range..] == FromLower(lo, hi) && word[upper + 1..] == FromUpper(hi)
  {
    var word, colon := Ranged(name, lo, hi), |name| + 2;
    var range := colon + 1;
    RangedAt(name, lo, hi);
    hide Ranged, FromLower, FromUpper, Find;
    assert forall k :: 1 <= k < |lo| ==> lo[k] == lo[1..][k - 1];
    FindIs(word, ':', 0, colon);
    FindIs(word, ':', 2, colon);
    var from := if CharAt(word, range) == '-' then range + 1 else range;
    forall k | from <= k < range + |lo| ensures word[k] != '-' {
      assert word[k] == lo[k - range];
    }
    FindIs(word, '-', from, range + |lo|);
  }

  /** Whether a bound has a leading zero, which turns radix detection on. */
  predicate Detects(lo: string, hi: string)
    requires lo != ""
  {
    (lo[0] == '0' && |lo| > 1) || (|lo| > 1 && lo[0] == '-' && lo[1] == '0') || (hi != "" && hi[0] == '0')
  }

  lemma RadixIsRead(name: string, lo: string, hi: string)
    requires NameText(name) && LowerText(lo)
    ensures RangeRadix(Ranged(name, lo, hi), |name| + 3, |name| + 3 + |lo|) == if Detects(lo, hi) then 0 else 10
  {
    var word, range := Ranged(name, lo, hi), |name| + 3;
    var upper := range + |lo|;
    RangedParts(name, lo, hi);
    hide Find, Ranged;
    assert forall k :: 0 <= k < |word| - range ==> word[range + k] == word[range..][k];
    assert word[range] == lo[0] && word[upper] == '-' && word[upper + 1] == (hi + "}")[0];
    assert word[range + 1] == if |lo| > 1 then lo[1] else '-';
    assert |lo| > 1 ==> lo[1] == lo[1..][0];
  }

  lemma RangeIsFound(name: string, lo: string, hi: string, strtod: Strtod)
    requires NameText(name) && LowerText(lo)
    ensures |name| + 3 + |lo| < |Ranged(name, lo, hi)|
    ensures ParseSpec(Ranged(name, lo, hi), strtod)
         == ParseRange(Ranged(name, lo, hi), |name| + 3, |name| + 3 + |lo|, strtod)
  {
    RangedParts(name, lo, hi);
    hide ParseRange, Find, Ranged;
  }

  lemma BoundsAre(name: string, lo: string, hi: string)
    requires NameText(name) && LowerText(lo)
    ensures var word, range := Ranged(name, lo, hi), |name| + 3;
            var upper := range + |lo|;
            && upper < |word| && word[range..] == FromLower(lo, hi) && word[upper + 1..] == FromUpper(hi)
            && CharAt(word, upper + 1 + |hi|) == '}'
  {
    RangedParts(name, lo, hi);
    hide Find, Ranged;
  }

  /** What a range comes to, by what strtol makes of its bounds: nothing unless both are numbers to
      their ends and the first is the smaller. */
  lemma IntegersAreRead(name: string, lo: string, hi: string, min: int, max: int, radix: nat, strtod: Strtod)
    requires NameText(name) && LowerText(lo) && Find(Ranged(name, lo, hi), '.', 0) == None
    requires radix == if Detects(lo, hi) then 0 else 10
    requires Strtol(FromLower(lo, hi), radix) == Scan(min, |lo|)
    requires Strtol(FromUpper(hi), radix) == Scan(max, |hi|)
    ensures ParseSpec(Ranged(name, lo, hi), strtod) == if min < max then Some(IntRange(min, max, radix)) else None
  {
    BoundsAre(name, lo, hi);
    hide *;
    RadixIsRead(name, lo, hi);
    RangeIsFound(name, lo, hi, strtod);
  }

  lemma RealsAreRead(name: string, lo: string, hi: string, min: real, max: real, strtod: Strtod)
    requires NameText(name) && LowerText(lo) && Find(Ranged(name, lo, hi), '.', 0).Some?
    requires strtod(FromLower(lo, hi)) == Scan(min, |lo|) && strtod(FromUpper(hi)) == Scan(max, |hi|)
    ensures ParseSpec(Ranged(name, lo, hi), strtod) == if min < max then Some(RealRange(min, max)) else None
  {
    BoundsAre(name, lo, hi);
    hide *;
    RangeIsFound(name, lo, hi, strtod);
  }

  /** A blank is read with its name and what it takes, and shown without its range. */
  lemma RangedIsRead(name: string, lo: string, hi: string, strtod: Strtod)
    requires NameText(name) && LowerText(lo)
    ensures var word := Ranged(name, lo, hi); var spec := ParseSpec(word, strtod);
            Classify(word, strtod) == if spec.None? then Invalid else FillIn(Blank("{#" + name + "}", name, spec.value))
  {
    RangedParts(name, lo, hi);
    hide Find, Ranged, ParseSpec;
  }

  lemma UnrangedParts(name: string, spec: ValueSpec)
    requires NameText(name) && (spec == Numeric || spec == AnyText)
    ensures var word, start := Shown(name, spec), if spec.AnyText? then 1 else 2;
            && |word| == start + |name| + 1 && word[0] == '{' && word[|word| - 1] == '}'
            && Find(word, ':', 0) == None && Find(word, ':', start) == None
            && Find(word, '}', start) == Some(|word| - 1) && word[start..|word| - 1] == name
            && word[1] == (if spec.Numeric? then '#' else if name == "" then '}' else name[0])
  {
    var word, start := Shown(name, spec), if spec.AnyText? then 1 else 2;
    assert forall k :: 0 <= k < |name| ==> word[start + k] == name[k];
    FindNone(word, ':', 0);
    FindNone(word, ':', start);
    FindIs(word, '}', start, |word| - 1);
    hide Find;
    assert word[start..|word| - 1] == name;
  }

  lemma UnrangedIsRead(name: string, spec: ValueSpec, strtod: Strtod)
    requires NameText(name) && (spec == Numeric || (spec == AnyText && (name == "" || name[0] != '#')))
    ensures Classify(Shown(name, spec), strtod) == FillIn(Blank(Shown(name, spec), name, spec))
  {
    var word := Shown(name, spec);
    UnrangedParts(name, spec);
    hide Find, Shown, NameText;
    assert ParseSpec(word, strtod) == Some(spec);
    hide ParseSpec;
    assert ParseBlank(word, strtod) == Some(Blank(word, name, spec));
  }

  /** The bounds as they are written: in hexadecimal for radix detection, in decimal without it. A zero
      above would turn detection on. */
  function LowerOf(min: int, radix: nat): string {
    if radix == 0 then Hexadecimal(min) else Decimal(min)
  }

  function UpperOf(max: int, radix: nat): string {
    if radix == 0 then Hexadecimal(max) else if max == 0 then "+0" else Decimal(max)
  }

  /** A sign and something without one can stand below, and has a leading zero just if that has. */
  lemma SignedLower(v: int, rest: string)
    requires rest != "" && '-' !in rest && '.' !in rest
    ensures LowerText(Sign(v) + rest) && '.' !in Sign(v) + rest
    ensures Detects(Sign(v) + rest, "") <==> rest[0] == '0' && (v < 0 || |rest| > 1)
  {
    if v < 0 {
      assert (Sign(v) + rest)[1..] == rest && (Sign(v) + rest)[1] == rest[0];
    } else {
      assert Sign(v) + rest == rest;
      assert forall c :: c in rest[1..] ==> c in rest;
    }
  }

  lemma LowerOfIs(min: int, radix: nat)
    requires radix == 0 || radix == 10
    ensures var lo := LowerOf(min, radix);
            && LowerText(lo) && '.' !in lo
            && (radix == 0 ==> Detects(lo, "")) && (radix == 10 ==> !Detects(lo, ""))
  {
    var base := if radix == 0 then 16 else 10;
    DigitsAre(Size(min), base);
    DigitsHaveNo(Size(min), base);
    SignedLower(min, if radix == 0 then "0x" + Digits(Size(min), 16) else Digits(Size(min), 10));
    hide Digits, DigitsValue, AllDigits, Sign, Detects, LowerText;
  }

  lemma {:induction false} DigitsHaveNo(n: nat, base: nat)
    requires base == 8 || base == 10 || base == 16
    ensures '-' !in Digits(n, base) && '.' !in Digits(n, base)
  {
    if n >= base {
      DigitsHaveNo(n / base, base);
    }
  }

  lemma UpperOfIs(max: int, radix: nat)
    requires radix == 0 || radix == 10
    ensures var hi := UpperOf(max, radix);
            hi != "" && '.' !in hi && (radix == 10 ==> hi[0] != '0')
  {
    DigitsAre(Size(max), 10);
    DigitsHaveNo(Size(max), 10);
    DigitsHaveNo(Size(max), 16);
    hide Digits, DigitsValue;
  }

  lemma UpperOfReads(max: int, radix: nat)
    requires IsLong(max) && (radix == 0 || radix == 10)
    ensures Strtol(FromUpper(UpperOf(max, radix)), radix) == Scan(max, |UpperOf(max, radix)|)
  {
    if radix == 0 {
      ReadsHexadecimalThen(max, "}");
    } else if max != 0 {
      ReadsDecimalThen(max, "}", 10);
    } else {
      var s := "+0" + "}";
      assert SkipSpace(s, 0) == 0 && SignEnd(s) == 1;
      assert s == "+" + "0" + "}";
      ZeroIsOctal();
      assert "0"[..0] == "" && DigitsValue("", 10) == 0;
      ReadsDigits("+", "0", "}", 0, 10, 10);
    }
  }

  lemma LowerOfReads(min: int, hi: string, radix: nat)
    requires IsLong(min) && (radix == 0 || radix == 10)
    ensures Strtol(FromLower(LowerOf(min, radix), hi), radix) == Scan(min, |LowerOf(min, radix)|)
  {
    if radix == 0 {
      ReadsHexadecimalThen(min, "-" + hi + "}");
    } else {
      ReadsDecimalThen(min, "-" + hi + "}", 10);
    }
  }

  /** A range of longs is read back, with its radix, if it has two numbers at least. */
  lemma IntRangeIsRead(name: string, min: int, max: int, radix: nat, strtod: Strtod)
    requires NameText(name) && '.' !in name && IsLong(min) && IsLong(max) && (radix == 0 || radix == 10)
    ensures var word := Ranged(name, LowerOf(min, radix), UpperOf(max, radix));
            Classify(word, strtod)
            == if min < max then FillIn(Blank("{#" + name + "}", name, IntRange(min, max, radix))) else Invalid
  {
    var lo, hi := LowerOf(min, radix), UpperOf(max, radix);
    LowerOfIs(min, radix);
    UpperOfIs(max, radix);
    LowerOfReads(min, hi, radix);
    UpperOfReads(max, radix);
    hide LowerOf, UpperOf, Strtol, ParseSpec, Classify;
    DetectsAs(lo, hi, radix);
    NoPoint(name, lo, hi);
    hide *;
    IntegersAreRead(name, lo, hi, min, max, radix, strtod);
    RangedIsRead(name, lo, hi, strtod);
  }

  lemma DetectsAs(lo: string, hi: string, radix: nat)
    requires LowerText(lo) && hi != "" && (radix == 0 || radix == 10)
    requires (radix == 0 ==> Detects(lo, "")) && (radix == 10 ==> !Detects(lo, "") && hi[0] != '0')
    ensures Detects(lo, hi) <==> radix == 0
  {
  }

  lemma NoPoint(name: string, lo: string, hi: string)
    requires '.' !in name && '.' !in lo && '.' !in hi
    ensures Find(Ranged(name, lo, hi), '.', 0) == None
  {
    FindNone(Ranged(name, lo, hi), '.', 0);
  }

  // ---------------------------------------------------------------- whole patterns

  function WrittenBlank(blank: Blank): string {
    match blank.spec
    case IntRange(min, max, radix) => Ranged(blank.name, LowerOf(min, radix), UpperOf(max, radix))
    case _ => Shown(blank.name, blank.spec)
  }

  /** Blanks that WrittenBlank writes; reals would need texts for strtod. */
  predicate WritableBlank(blank: Blank) {
    && blank.shown == Shown(blank.name, blank.spec) && NameText(blank.name)
    && match blank.spec
       case AnyText => blank.name == "" || blank.name[0] != '#'
       case Numeric => true
       case IntRange(min, max, radix) =>
         '.' !in blank.name && IsLong(min) && IsLong(max) && min < max && (radix == 0 || radix == 10)
       case RealRange(_, _) => false
  }

  lemma BlankIsRead(blank: Blank, strtod: Strtod)
    requires WritableBlank(blank)
    ensures Wrapped(WrittenBlank(blank), '{', '}') && Classify(WrittenBlank(blank), strtod) == FillIn(blank)
  {
    hide Classify, LowerOf, UpperOf;
    match blank.spec
    case IntRange(min, max, radix) =>
      IntRangeIsRead(blank.name, min, max, radix, strtod);
    case _ =>
      UnrangedIsRead(blank.name, blank.spec, strtod);
  }

  lemma BlankInside(inner: string, blank: Blank, strtod: Strtod)
    requires Wrapped(inner, '{', '}') && Classify(inner, strtod) == FillIn(blank)
    ensures ParseBlank(inner, strtod) == Some(blank)
  {
    hide ParseBlank;
  }

  lemma InSquareBrackets(inner: string, strtod: Strtod)
    requires Wrapped(inner, '{', '}')
    ensures Classify("[" + inner + "]", strtod)
         == match ParseBlank(inner, strtod) case Some(blank) => OptionalFillIn(blank) case None => Invalid
  {
    hide ParseBlank;
    var word := "[" + inner + "]";
    assert word[1..|word| - 1] == inner && word[1] == inner[0] && word[|word| - 2] == inner[|inner| - 1];
  }

  /** The same blank in square brackets is an optional one. */
  lemma OptionalBlankIsRead(blank: Blank, strtod: Strtod)
    requires WritableBlank(blank)
    ensures Classify("[" + WrittenBlank(blank) + "]", strtod) == OptionalFillIn(blank)
  {
    BlankIsRead(blank, strtod);
    hide *;
    BlankInside(WrittenBlank(blank), blank, strtod);
    InSquareBrackets(WrittenBlank(blank), strtod);
  }

  /** Alternatives as they are written: by themselves if they go by the first, else behind their name. */
  function WrittenWords(name: string, words: seq<string>): string {
    if words != [] && name == words[0] && ColonFree(words) then Bars(words) else name + ":" + Bars(words)
  }

  lemma WordsAreRead(optional: bool, name: string, words: seq<string>)
    requires ':' !in name && BarFree(words)
    ensures ParseChoice(optional, WrittenWords(name, words)) == Choice(optional, name, words)
  {
    if words != [] && name == words[0] && ColonFree(words) {
      UnnamedIsRead(optional, words);
    } else {
      NamedIsRead(optional, name, words);
    }
  }

  function Written(term: Term): string {
    match term
    case Keyword(word) => word
    case Choice(optional, name, words) => Bracketed(optional, WrittenWords(name, words))
    case FillIn(blank) => WrittenBlank(blank)
    case OptionalFillIn(blank) => "[" + WrittenBlank(blank) + "]"
    case Ellipsis => "..."
    case Invalid => ""
  }

  /** Terms that a word of a pattern can be written for. */
  predicate Writable(term: Term) {
    match term
    case Keyword(word) =>
      word != "..." && !Wrapped(word, '{', '}') && !Wrapped(word, '<', '>') && !Wrapped(word, '[', ']')
    case Choice(optional, name, words) =>
      ':' !in name && BarFree(words) && (optional ==> !Braced(WrittenWords(name, words)))
    case FillIn(blank) => WritableBlank(blank)
    case OptionalFillIn(blank) => WritableBlank(blank)
    case Ellipsis => true
    case Invalid => false
  }

  lemma BareIsRead(word: string, strtod: Strtod)
    requires Writable(Keyword(word))
    ensures Classify(word, strtod) == Keyword(word)
  {
    hide ParseBlank, ParseChoice;
  }

  lemma BracketedIsRead(optional: bool, name: string, words: seq<string>, strtod: Strtod)
    requires Writable(Choice(optional, name, words))
    ensures Classify(Bracketed(optional, WrittenWords(name, words)), strtod) == Choice(optional, name, words)
  {
    hide WrittenWords, BarFree, Braced, Classify, ParseChoice, Bracketed;
    BracketsAreRead(optional, WrittenWords(name, words), strtod);
    WordsAreRead(optional, name, words);
  }

  /** What is written for a term is read as that term. */
  lemma WrittenIsRead(term: Term, strtod: Strtod)
    requires Writable(term)
    ensures Classify(Written(term), strtod) == term
  {
    hide Classify, WrittenBlank, WritableBlank, Bracketed, WrittenWords;
    match term
    case Keyword(word) => BareIsRead(word, strtod);
    case Choice(optional, name, words) => BracketedIsRead(optional, name, words, strtod);
    case FillIn(blank) => BlankIsRead(blank, strtod);
    case OptionalFillIn(blank) => OptionalBlankIsRead(blank, strtod);
    case Ellipsis => EllipsisIsRead(strtod);
  }

  lemma EllipsisIsRead(strtod: Strtod)
    ensures Classify("...", strtod) == Ellipsis
  {
  }

  /** Patterns of such terms, in words that need no quotes. */
  predicate WritableTerms(terms: seq<Term>) {
    forall t :: t in terms ==> Writable(t) && Plain(Written(t))
  }

  function WrittenTerms(terms: seq<Term>): (r: seq<string>)
    ensures |r| == |terms|
  {
    seq(|terms|, i requires 0 <= i < |terms| => Written(terms[i]))
  }

  /** The statement of a pattern: its words with spaces between. */
  function Statement(terms: seq<Term>): string {
    WritePlain(WrittenTerms(terms))
  }

  /** A statement written for a pattern is read as that pattern. */
  lemma StatementIsRead(terms: seq<Term>, strtod: Strtod)
    requires WritableTerms(terms)
    ensures ClassifyAll(Tokenizer.Texts(Tokenizer.Terms(Statement(terms))), strtod) == terms
  {
    var words := WrittenTerms(terms);
    forall i | 0 <= i < |terms| ensures Plain(words[i]) && Classify(words[i], strtod) == terms[i] {
      assert terms[i] in terms;
      WrittenIsRead(terms[i], strtod);
    }
    PlainRoundTrip(words);
  }

  // ---------------------------------------------------------------- what written words accept

  /** A bare word accepts itself, in upper or lower case, */
  lemma KeywordAccepts(word: string, tokens: seq<string>, strtod: Strtod)
    requires Writable(Keyword(word))
    ensures ValidTerms(ClassifyAll([word], strtod))
    ensures Accepts(ClassifyAll([word], strtod), tokens, strtod) <==> |tokens| == 1 && Lower(tokens[0]) == Lower(word)
  {
    OneWord(word, Keyword(word), strtod);
  }

  lemma OneWord(word: string, term: Term, strtod: Strtod)
    requires Classify(word, strtod) == term
    ensures ClassifyAll([word], strtod) == [term]
  {
    hide Classify;
  }

  /** words in angle brackets accept any one of them, */
  lemma ChoiceAccepts(words: seq<string>, tokens: seq<string>, strtod: Strtod)
    requires words != [] && BarFree(words) && ColonFree(words)
    ensures ValidTerms(ClassifyAll(["<" + Bars(words) + ">"], strtod))
    ensures Accepts(ClassifyAll(["<" + Bars(words) + ">"], strtod), tokens, strtod)
            <==> |tokens| == 1 && OneOf(words, tokens[0])
  {
    BracketsAreRead(false, Bars(words), strtod);
    UnnamedIsRead(false, words);
    hide ParseChoice, Classify, Bars, OneOf;
    OneWord("<" + Bars(words) + ">", Choice(false, words[0], words), strtod);
  }

  /** and words in square brackets any one of them or none. */
  lemma OptionAccepts(words: seq<string>, tokens: seq<string>, strtod: Strtod)
    requires words != [] && BarFree(words) && ColonFree(words) && !Braced(Bars(words))
    ensures ValidTerms(ClassifyAll(["[" + Bars(words) + "]"], strtod))
    ensures Accepts(ClassifyAll(["[" + Bars(words) + "]"], strtod), tokens, strtod)
            <==> tokens == [] || (|tokens| == 1 && OneOf(words, tokens[0]))
  {
    BracketsAreRead(true, Bars(words), strtod);
    UnnamedIsRead(true, words);
    hide ParseChoice, Classify, Bars, OneOf;
    OneWord("[" + Bars(words) + "]", Choice(true, words[0], words), strtod);
  }

  /** A name before the words makes no difference to that. */
  lemma NamedAccepts(optional: bool, name: string, words: seq<string>, tokens: seq<string>, strtod: Strtod)
    requires ':' !in name && BarFree(words) && (optional ==> !Braced(name + ":" + Bars(words)))
    ensures ValidTerms(ClassifyAll([Bracketed(optional, name + ":" + Bars(words))], strtod))
    ensures Accepts(ClassifyAll([Bracketed(optional, name + ":" + Bars(words))], strtod), tokens, strtod)
            <==> (optional && tokens == []) || (|tokens| == 1 && OneOf(words, tokens[0]))
  {
    BracketsAreRead(optional, name + ":" + Bars(words), strtod);
    NamedIsRead(optional, name, words);
    hide ParseChoice, Classify, Bars, OneOf, Bracketed;
    OneWord(Bracketed(optional, name + ":" + Bars(words)), Choice(optional, name, words), strtod);
  }

  lemma BlankAccepts(word: string, blank: Blank, tokens: seq<string>, strtod: Strtod)
    requires Classify(word, strtod) == FillIn(blank) && ValidSpec(blank.spec)
    ensures ValidTerms(ClassifyAll([word], strtod))
    ensures Accepts(ClassifyAll([word], strtod), tokens, strtod)
            <==> |tokens| == 1 && FitOf(blank.spec, tokens[0], strtod) == Fits
  {
    hide Classify, FitOf;
    OneWord(word, FillIn(blank), strtod);
  }

  lemma OptionalBlankAccepts(word: string, blank: Blank, tokens: seq<string>, strtod: Strtod)
    requires Classify(word, strtod) == OptionalFillIn(blank) && ValidSpec(blank.spec)
    ensures ValidTerms(ClassifyAll([word], strtod))
    ensures Accepts(ClassifyAll([word], strtod), tokens, strtod)
            <==> tokens == [] || (|tokens| == 1 && FitOf(blank.spec, tokens[0], strtod) == Fits)
  {
    hide Classify, FitOf;
    OneWord(word, OptionalFillIn(blank), strtod);
  }

  /** A blank for text accepts any term, */
  lemma TextAccepts(name: string, tokens: seq<string>, strtod: Strtod)
    requires NameText(name) && (name == "" || name[0] != '#')
    ensures ValidTerms(ClassifyAll(["{" + name + "}"], strtod))
    ensures Accepts(ClassifyAll(["{" + name + "}"], strtod), tokens, strtod) <==> |tokens| == 1
  {
    UnrangedIsRead(name, AnyText, strtod);
    hide Classify, NameText;
    BlankAccepts("{" + name + "}", Blank(Shown(name, AnyText), name, AnyText), tokens, strtod);
  }

  /** and any blank, in square brackets, what it does without them or nothing. */
  lemma MaybeAccepts(blank: Blank, tokens: seq<string>, strtod: Strtod)
    requires WritableBlank(blank)
    ensures var once, maybe := ClassifyAll([WrittenBlank(blank)], strtod), ClassifyAll(["[" + WrittenBlank(blank) + "]"], strtod);
            && ValidTerms(once) && ValidTerms(maybe)
            && (Accepts(maybe, tokens, strtod) <==> tokens == [] || Accepts(once, tokens, strtod))
  {
    BlankIsRead(blank, strtod);
    OptionalBlankIsRead(blank, strtod);
    hide Classify, WrittenBlank;
    BlankAccepts(WrittenBlank(blank), blank, tokens, strtod);
    OptionalBlankAccepts("[" + WrittenBlank(blank) + "]", blank, tokens, strtod);
  }

  /** A blank for a range of longs accepts those of it, in decimal, whatever its radix. */
  lemma RangeAccepts(name: string, min: int, max: int, radix: nat, v: int, strtod: Strtod)
    requires NameText(name) && '.' !in name && IsLong(min) && IsLong(max) && min < max && (radix == 0 || radix == 10)
    requires IsLong(v)
    ensures var terms := ClassifyAll([Ranged(name, LowerOf(min, radix), UpperOf(max, radix))], strtod);
            ValidTerms(terms) && (Accepts(terms, [Decimal(v)], strtod) <==> min <= v <= max)
  {
    var blank := Blank("{#" + name + "}", name, IntRange(min, max, radix));
    IntRangeIsRead(name, min, max, radix, strtod);
    hide Classify, Ranged, LowerOf, UpperOf, IsLong, NameText;
    BlankAccepts(Ranged(name, LowerOf(min, radix), UpperOf(max, radix)), blank, [Decimal(v)], strtod);
    DecimalFits(blank.spec, v, strtod);
  }

  /** A blank for a range of reals, written with bounds that strtod reads to their ends, accepts the numbers of
      that range. */
  lemma RealsAccept(name: string, lo: string, hi: string, min: real, max: real, token: string, strtod: Strtod)
    requires NameText(name) && LowerText(lo) && Find(Ranged(name, lo, hi), '.', 0).Some? && min < max
    requires strtod(FromLower(lo, hi)) == Scan(min, |lo|) && strtod(FromUpper(hi)) == Scan(max, |hi|)
    ensures var terms := ClassifyAll([Ranged(name, lo, hi)], strtod);
            && ValidTerms(terms)
            && (Accepts(terms, [token], strtod)
                <==> strtod(token).used >= |token| && min <= strtod(token).value <= max)
  {
    RealsAreRead(name, lo, hi, min, max, strtod);
    RangedIsRead(name, lo, hi, strtod);
    hide Classify, Ranged, ParseSpec, NameText, LowerText;
    BlankAccepts(Ranged(name, lo, hi), Blank("{#" + name + "}", name, RealRange(min, max)), [token], strtod);
  }

  /** A number in decimal is in a range, or not, as its value is. */
  lemma DecimalFits(spec: ValueSpec, v: int, strtod: Strtod)
    requires ValidSpec(spec) && spec.IntRange? && IsLong(v)
    ensures FitOf(spec, Decimal(v), strtod) == if spec.min <= v <= spec.max then Fits else OutOfRange
  {
    ReadsDecimal(v, spec.radix);
    hide Strtol;
  }

  /** With something behind it that is no digit it is no number, */
  lemma JunkDoesNotFit(spec: ValueSpec, v: int, junk: string, strtod: Strtod)
    requires ValidSpec(spec) && spec.IntRange? && junk != "" && DigitOf(junk[0]) == 36
    ensures FitOf(spec, Decimal(v) + junk, strtod) == NotANumber
  {
    ReadsDecimalThen(v, junk, spec.radix);
    hide Strtol;
  }

  /** nor is it one where any number will do; there every number in decimal is taken. */
  lemma NumericAccepts(name: string, v: int, junk: string, strtod: Strtod)
    requires NameText(name)
    ensures var terms := ClassifyAll(["{#" + name + "}"], strtod);
            && ValidTerms(terms) && Accepts(terms, [Decimal(v)], strtod)
            && (Accepts(terms, [Decimal(v) + junk], strtod) <==> forall c :: c in junk ==> IsDigit(c))
  {
    var word, blank := "{#" + name + "}", Blank(Shown(name, Numeric), name, Numeric);
    UnrangedIsRead(name, Numeric, strtod);
    assert word == Shown(name, Numeric);
    hide *;
    BlankAccepts(word, blank, [Decimal(v)], strtod);
    BlankAccepts(word, blank, [Decimal(v) + junk], strtod);
    NumericFits(v, junk, strtod);
    NumericFits(v, "", strtod);
    assert Decimal(v) + "" == Decimal(v);
  }

  lemma NumericFits(v: int, junk: string, strtod: Strtod)
    ensures FitOf(Numeric, Decimal(v) + junk, strtod)
         == if forall c :: c in junk ==> IsDigit(c) then Fits else NotANumber
  {
    var digits := Digits(Size(v), 10);
    DigitsAre(Size(v), 10);
    assert forall i :: 0 <= i < |digits| ==> DigitOf(digits[i]) < 10 && IsDigit(digits[i]);
    hide Digits, DigitsValue;
    OnlyMoreDigits(digits, junk);
    assert Unsigned(Decimal(v) + junk) == digits + junk by {
      var token := Sign(v) + (digits + junk);
      assert Decimal(v) + junk == token;
      assert v < 0 ==> token[1..] == digits + junk;
      assert v >= 0 ==> token == digits + junk;
    }
  }

  lemma OnlyMoreDigits(digits: string, junk: string)
    requires OnlyDigits(digits)
    ensures OnlyDigits(digits + junk) <==> forall c :: c in junk ==> IsDigit(c)
  {
    assert forall i :: 0 <= i < |junk| ==> (digits + junk)[|digits| + i] == junk[i];
  }

  /** Three dots accept anything. */
  lemma EllipsisAccepts(tokens: seq<string>, strtod: Strtod)
    ensures ValidTerms(ClassifyAll(["..."], strtod)) && Accepts(ClassifyAll(["..."], strtod), tokens, strtod)
  {
    OneWord("...", Ellipsis, strtod);
  }

  /** Neither an optional blank nor three dots, which end a pattern. */
  predicate GoesOn(terms: seq<Term>) {
    forall t :: t in terms ==> !t.OptionalFillIn? && !t.Ellipsis?
  }

  /** What one pattern after the other accepts is what the first accepts with what the second does. */
  lemma {:induction false} AcceptsJoined(a: seq<Term>, b: seq<Term>, tokens: seq<string>, strtod: Strtod)
    requires ValidTerms(a) && ValidTerms(b) && ValidTerms(a + b) && GoesOn(a)
    ensures Accepts(a + b, tokens, strtod)
            <==> exists k :: 0 <= k <= |tokens| && Accepts(a, tokens[..k], strtod) && Accepts(b, tokens[k..], strtod)
  {
    JoinedAccepts(a, b, tokens, strtod);
    if Accepts(a + b, tokens, strtod) {
      var k := AcceptedParts(a, b, tokens, strtod);
    }
  }

  lemma {:induction false} AcceptedParts(a: seq<Term>, b: seq<Term>, tokens: seq<string>, strtod: Strtod) returns (k: nat)
    requires ValidTerms(a) && ValidTerms(b) && ValidTerms(a + b) && GoesOn(a) && Accepts(a + b, tokens, strtod)
    ensures k <= |tokens| && Accepts(a, tokens[..k], strtod) && Accepts(b, tokens[k..], strtod)
    decreases |a|
  {
    if a == [] {
      assert a + b == b && tokens[0..] == tokens;
      k := 0;
    } else {
      assert (a + b)[1..] == a[1..] + b && (a + b)[0] == a[0] && a[0] in a;
      if a[0].Choice? && a[0].optional && Accepts(a[1..] + b, tokens, strtod) {
        k := AcceptedParts(a[1..], b, tokens, strtod);
      } else {
        k := AcceptedParts(a[1..], b, tokens[1..], strtod);
        k := k + 1;
        assert tokens[..k][1..] == tokens[1..][..k - 1] && tokens[k..] == tokens[1..][k - 1..];
      }
    }
  }

  lemma JoinedAccepts(a: seq<Term>, b: seq<Term>, tokens: seq<string>, strtod: Strtod)
    requires ValidTerms(a) && ValidTerms(b) && ValidTerms(a + b) && GoesOn(a)
    ensures (exists k :: 0 <= k <= |tokens| && Accepts(a, tokens[..k], strtod) && Accepts(b, tokens[k..], strtod))
            ==> Accepts(a + b, tokens, strtod)
  {
    if k :| 0 <= k <= |tokens| && Accepts(a, tokens[..k], strtod) && Accepts(b, tokens[k..], strtod) {
      PartsAccept(a, b, tokens, k, strtod);
    }
  }

  lemma {:induction false} PartsAccept(a: seq<Term>, b: seq<Term>, tokens: seq<string>, k: nat, strtod: Strtod)
    requires ValidTerms(a) && ValidTerms(b) && ValidTerms(a + b) && GoesOn(a)
    requires k <= |tokens| && Accepts(a, tokens[..k], strtod) && Accepts(b, tokens[k..], strtod)
    ensures Accepts(a + b, tokens, strtod)
    decreases |a|
  {
    if a == [] {
      assert a + b == b && tokens[0..] == tokens;
    } else {
      assert (a + b)[1..] == a[1..] + b && (a + b)[0] == a[0] && a[0] in a;
      if a[0].Choice? && a[0].optional && Accepts(a[1..], tokens[..k], strtod) {
        PartsAccept(a[1..], b, tokens, k, strtod);
      } else {
        assert tokens[..k][1..] == tokens[1..][..k - 1] && tokens[k..] == tokens[1..][k - 1..];
        PartsAccept(a[1..], b, tokens[1..], k - 1, strtod);
      }
    }
  }
}
