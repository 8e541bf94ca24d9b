/** Two statements the C compiler accepts although their shared blank differs in radix, and a
    command line that then goes wrong. */
module RadixExample {
  import opened Basics
  import opened CStrings
  import opened Patterns
  import opened CommandTrie
  import opened CommandParser
  import opened CommandLanguage
  import Tokenizer

  lemma StrtolOneDigit(s: string, radix: nat)
    requires |s| >= 2 && IsDigit(s[0]) && DigitOf(s[1]) == 36 && (radix == 10 || (radix == 0 && s[0] != '0'))
    ensures Strtol(s, radix) == Scan(DigitOf(s[0]), 1)
  {
    assert SkipSpace(s, 0) == 0;
    assert DigitsEnd(s, 1, 10) == 1;
    assert DigitsEnd(s, 0, 10) == 1;
    assert s[0..1] == [s[0]];
    assert DigitsValue([], 10) == 0;
    assert [s[0]][..0] == [];
    assert DigitsValue([s[0]], 10) == DigitOf(s[0]);
  }

  /** "01" with radix detection is octal 1. */
  lemma StrtolOctal(s: string)
    requires |s| >= 3 && s[0] == '0' && s[1] == '1' && DigitOf(s[2]) == 36
    ensures Strtol(s, 0) == Scan(1, 2)
  {
    assert SkipSpace(s, 0) == 0;
    assert !HexAt(s, 0);
    assert DigitsEnd(s, 2, 8) == 2;
    assert DigitsEnd(s, 1, 8) == 2;
    assert s[0..2] == "01";
    assert "01"[..1] == "0" && "0"[..0] == "";
    assert DigitsValue("", 8) == 0;
    assert DigitsValue("0", 8) == 0;
    assert DigitsValue("01", 8) == 1;
  }

  /** "0x5" is 5 with radix detection, and 0 with something after it without. */
  lemma StrtolHex()
    ensures Strtol("0x5", 0) == Scan(5, 3)
    ensures Strtol("0x5", 10).used == 1
  {
    var s := "0x5";
    assert SkipSpace(s, 0) == 0;
    assert HexAt(s, 0);
    assert DigitsEnd(s, 3, 16) == 3 && DigitsEnd(s, 2, 16) == 3;
    assert s[2..3] == "5" && "5"[..0] == "";
    assert DigitsValue("", 16) == 0;
    assert DigitsValue("5", 16) == 5;
    assert DigitsEnd(s, 1, 10) == 1 && DigitsEnd(s, 0, 10) == 1;
  }

  const DECIMAL := "{#n:1-9}"
  const DETECTED := "{#n:01-9}"

  lemma DecimalRange(strtod: Strtod)
    ensures ParseRange(DECIMAL, 4, 5, strtod) == Some(IntRange(1, 9, 10))
  {
    var w := DECIMAL;
    FindNone(w, '.', 0);
    assert w[4..][0] == '1' && w[4..][1] == '-';
    assert w[6..][0] == '9' && w[6..][1] == '}';
    StrtolOneDigit(w[4..], 10);
    StrtolOneDigit(w[6..], 10);
    hide Strtol, Find;
    assert RangeRadix(w, 4, 5) == 10;
  }

  lemma DecimalSpec(strtod: Strtod)
    ensures ParseSpec(DECIMAL, strtod) == Some(IntRange(1, 9, 10))
  {
    FindIs(DECIMAL, ':', 0, 3);
    FindIs(DECIMAL, '-', 4, 5);
    DecimalRange(strtod);
    hide ParseRange, Find, Strtol;
  }

  /** A blank with a range. */
  lemma RangeBlankIs(word: string, colon: nat, spec: ValueSpec, strtod: Strtod)
    requires |word| > 2 && word[0] == '{' && word[1] == '#' && word[|word| - 1] == '}'
    requires Find(word, ':', 0) == Find(word, ':', 2) == Some(colon) && ParseSpec(word, strtod) == Some(spec)
    ensures Classify(word, strtod) == FillIn(Blank(word[..colon] + "}", word[2..colon], spec))
  {
    hide ParseSpec, Find;
  }

  lemma DecimalName()
    ensures DECIMAL[2..3] == "n" && DECIMAL[0] == '{' && DECIMAL[1] == '#' && DECIMAL[|DECIMAL| - 1] == '}' && |DECIMAL| > 3
  {
  }

  lemma DecimalBlank(strtod: Strtod)
    ensures Classify(DECIMAL, strtod).FillIn?
    ensures Classify(DECIMAL, strtod).blank.name == "n" && Classify(DECIMAL, strtod).blank.spec == IntRange(1, 9, 10)
  {
    FindIs(DECIMAL, ':', 0, 3);
    FindIs(DECIMAL, ':', 2, 3);
    DecimalSpec(strtod);
    DecimalName();
    hide *;
    RangeBlankIs(DECIMAL, 3, ParseSpec(DECIMAL, strtod).value, strtod);
  }

  lemma DetectedRadix()
    ensures RangeRadix(DETECTED, 4, 6) == 0
  {
  }

  /** A range of two one-digit numbers, up to the closing brace. */
  lemma RangeIs(w: string, range: nat, upper: nat, radix: nat, min: int, max: int, strtod: Strtod)
    requires range <= upper < |w| && (radix == 0 || radix == 10) && min < max
    requires Find(w, '.', 0).None? && RangeRadix(w, range, upper) == radix
    requires Strtol(w[range..], radix) == Scan(min, upper - range) && Strtol(w[upper + 1..], radix) == Scan(max, 1)
    requires upper + 3 == |w| && w[upper + 2] == '}'
    ensures ParseRange(w, range, upper, strtod) == Some(IntRange(min, max, radix))
  {
    hide Strtol, Find, RangeRadix;
  }

  lemma DetectedBounds()
    ensures Strtol(DETECTED[4..], 0) == Scan(1, 2) && Strtol(DETECTED[7..], 0) == Scan(9, 1)
  {
    var w := DETECTED;
    assert w[4..][0] == '0' && w[4..][1] == '1' && w[4..][2] == '-';
    StrtolOctal(w[4..]);
    assert w[7..][0] == '9' && w[7..][1] == '}';
    StrtolOneDigit(w[7..], 0);
  }

  lemma DetectedRange(strtod: Strtod)
    ensures ParseRange(DETECTED, 4, 6, strtod) == Some(IntRange(1, 9, 0))
  {
    FindNone(DETECTED, '.', 0);
    DetectedBounds();
    DetectedRadix();
    hide *;
    RangeIs(DETECTED, 4, 6, 0, 1, 9, strtod);
  }

  lemma DetectedSpec(strtod: Strtod)
    ensures ParseSpec(DETECTED, strtod) == Some(IntRange(1, 9, 0))
  {
    FindIs(DETECTED, ':', 0, 3);
    FindIs(DETECTED, '-', 4, 6);
    DetectedRange(strtod);
    hide ParseRange, Find, Strtol;
  }

  lemma DetectedName()
    ensures DETECTED[2..3] == "n" && DETECTED[0] == '{' && DETECTED[1] == '#' && DETECTED[|DETECTED| - 1] == '}' && |DETECTED| > 3
  {
  }

  lemma DetectedBlank(strtod: Strtod)
    ensures Classify(DETECTED, strtod).FillIn?
    ensures Classify(DETECTED, strtod).blank.name == "n" && Classify(DETECTED, strtod).blank.spec == IntRange(1, 9, 0)
  {
    FindIs(DETECTED, ':', 0, 3);
    FindIs(DETECTED, ':', 2, 3);
    DetectedSpec(strtod);
    DetectedName();
    hide *;
    RangeBlankIs(DETECTED, 3, ParseSpec(DETECTED, strtod).value, strtod);
  }

  function Example(): seq<Definition> {
    [Definition(1, Tokenizer.WriteQuoted([DECIMAL])), Definition(2, Tokenizer.WriteQuoted([DETECTED, "y"]))]
  }

  lemma KeywordY(strtod: Strtod)
    ensures Classify("y", strtod) == Keyword("y")
  {
  }

  lemma ExampleTerms(strtod: Strtod) returns (ten: Blank, any: Blank)
    ensures TermsOf(Example()[0], strtod) == [FillIn(ten)] && TermsOf(Example()[1], strtod) == [FillIn(any), Keyword("y")]
    ensures ten.name == any.name == "n" && ten.spec == IntRange(1, 9, 10) && any.spec == IntRange(1, 9, 0)
  {
    DecimalBlank(strtod);
    DetectedBlank(strtod);
    KeywordY(strtod);
    hide Classify;
    ten, any := Classify(DECIMAL, strtod).blank, Classify(DETECTED, strtod).blank;
    var words := [DETECTED, "y"];
    assert Tokenizer.Quotable(DECIMAL) && Tokenizer.Quotable(DETECTED) && Tokenizer.Quotable("y");
    Tokenizer.QuotedRoundTrip([DECIMAL]);
    Tokenizer.QuotedRoundTrip(words);
    assert ClassifyAll([DECIMAL], strtod) == [FillIn(ten)];
    assert ClassifyAll(words, strtod) == [FillIn(any), Keyword("y")];
  }

  /** What adding `{ten}` and then `{any} y` makes of an empty tree. */
  function TreeOne(ten: Blank): Node {
    EmptyParser.(name := BlankName(ten), kind := Value(ten.spec), children := [NewNode(ten.shown, false).(response := 1)])
  }

  function Below(ten: Blank): Node {
    NewNode(ten.shown, false).(response := 1, kind := Keywords, children := [NewNode("y", false).(response := 2)])
  }

  function TreeTwo(ten: Blank): Node {
    TreeOne(ten).(children := [Below(ten)])
  }

  lemma AddFirst(ten: Blank, strict: bool)
    ensures Add(EmptyParser, 1, [FillIn(ten)], strict) == Some(TreeOne(ten))
  {
    assert [FillIn(ten)][1..] == [];
    assert Add(NewNode(ten.shown, false), 1, [], strict) == Some(NewNode(ten.shown, false).(response := 1));
  }

  lemma AddBelow(ten: Blank)
    ensures Add(NewNode(ten.shown, false).(response := 1), 2, [Keyword("y")], false) == Some(Below(ten))
  {
    var one := NewNode(ten.shown, false).(response := 1, kind := Keywords);
    assert [Keyword("y")][1..] == [];
    assert Keys(one.children) == [];
    assert LFind(Keys(one.children), Lower("y"), 0) == None;
    assert [] + [NewNode("y", false).(response := 2)] == [NewNode("y", false).(response := 2)];
    assert Add(NewNode("y", false), 2, [], false) == Some(NewNode("y", false).(response := 2));
    assert AddKeyword(one, 2, [], "y", None, false) == Some(Below(ten));
  }

  lemma AddSecond(ten: Blank, any: Blank)
    requires ten.name == any.name && SameSpec(ten.spec, any.spec) && ten.spec != any.spec
    ensures Add(TreeOne(ten), 2, [FillIn(any), Keyword("y")], true) == None
    ensures Add(TreeOne(ten), 2, [FillIn(any), Keyword("y")], false) == Some(TreeTwo(ten))
  {
    assert [FillIn(any), Keyword("y")][1..] == [Keyword("y")];
    AddBelow(ten);
  }

  lemma SortSecond(ten: Blank)
    ensures SortAll(TreeTwo(ten)) == TreeTwo(ten)
  {
    var leaf := NewNode("y", false).(response := 2);
    assert SortEach(leaf) == [] && SortAll(leaf) == leaf;
    assert SortEach(Below(ten)) == [leaf] && SortByKey([leaf]) == [leaf];
    assert SortAll(Below(ten)) == Below(ten);
    assert SortEach(TreeTwo(ten)) == [Below(ten)] && SortByKey([Below(ten)]) == [Below(ten)];
  }

  /** The example as the C code compiles it: one node for both blanks, with the first one's radix. */
  lemma ExampleTree(ten: Blank, any: Blank, strtod: Strtod)
    requires TermsOf(Example()[0], strtod) == [FillIn(ten)] && TermsOf(Example()[1], strtod) == [FillIn(any), Keyword("y")]
    requires ten.name == any.name && SameSpec(ten.spec, any.spec) && ten.spec != any.spec
    ensures Compile([Example()], true, strtod) == None
    ensures Compile([Example()], false, strtod) == Some(TreeTwo(ten))
  {
    AddFirst(ten, true);
    AddFirst(ten, false);
    AddSecond(ten, any);
    SortSecond(ten);
    var defs := Example();
    assert defs[1..] == [defs[1]] && [defs[1]][1..] == [];
    assert AddAll(TreeOne(ten), defs[1..], false, strtod) == Some(TreeTwo(ten));
    assert AddAll(TreeOne(ten), defs[1..], true, strtod) == None;
    var sets := [defs];
    assert sets[1..] == [];
  }

  lemma ExampleAccepts(any: Blank, strtod: Strtod)
    requires any.spec == IntRange(1, 9, 0)
    ensures Accepts([FillIn(any), Keyword("y")], ["0x5", "y"], strtod)
  {
    StrtolHex();
    assert [FillIn(any), Keyword("y")][1..] == [Keyword("y")] && ["0x5", "y"][1..] == ["y"];
    assert [Keyword("y")][1..] == [] && ["y"][1..] == [];
    assert Accepts([Keyword("y")], ["y"], strtod);
  }

  lemma TreeTwoMisleads(ten: Blank, strtod: Strtod)
    requires ten.spec == IntRange(1, 9, 10)
    ensures WellFormed(TreeTwo(ten)) && Interpret(TreeTwo(ten), ["0x5", "y"], strtod) == BadNumber(0)
  {
    StrtolHex();
    assert FitOf(ten.spec, "0x5", strtod) == NotANumber;
    assert ["0x5", "y"][0] == "0x5";
    assert WellFormed(NewNode("y", false).(response := 2));
    assert WellFormed(Below(ten));
  }

  /** The second statement allows "0x5 y", but the compiled parser calls the 0x5 a bad number. */
  lemma RadixMergeMisleads(strtod: Strtod)
    ensures Numbered(Example()) && SomeAccepts(Example(), ["0x5", "y"], 2, strtod)
    ensures Compile([Example()], false, strtod).Some? && WellFormed(Compile([Example()], false, strtod).value)
    ensures Interpret(Compile([Example()], false, strtod).value, ["0x5", "y"], strtod) == BadNumber(0)
  {
    var ten, any := ExampleTerms(strtod);
    ExampleTree(ten, any, strtod);
    ExampleAccepts(any, strtod);
    TreeTwoMisleads(ten, strtod);
    assert Example()[1] in Example();
  }
}
