/** What a compiled parser means: fb_parser_add_statements and fb_interpret against the patterns
    themselves (src/libfootball/fb_parser.c). */
module CommandLanguage {
  import opened Basics
  import opened Patterns
  import opened CommandTrie
  import opened CommandParser
  import opened RadixClash
  import opened RadixErasure
  import Tokenizer

  /** FB_PARSE_DEFINITION: responses are positive, as the header reserves the rest for errors. */
  datatype Definition = Definition(response: int, statement: string)

  /** The pattern of a definition: its statement split by fb_create_argv, word by word. */
  function TermsOf(d: Definition, strtod: Strtod): (r: seq<Term>)
    ensures ValidTerms(r)
  {
    ClassifyAll(Tokenizer.Texts(Tokenizer.Terms(d.statement)), strtod)
  }

  function AddAll(n: Node, defs: seq<Definition>, strict: bool, strtod: Strtod): Option<Node>
    decreases |defs|
  {
    if defs == [] then Some(n)
    else
      match Add(n, defs[0].response, TermsOf(defs[0], strtod), strict)
      case None => None
      case Some(n') => AddAll(n', defs[1..], strict, strtod)
  }

  /** fb_parser_add_statements. */
  function CompileSet(n: Node, defs: seq<Definition>, strict: bool, strtod: Strtod): Option<Node> {
    SortedNode(AddAll(n, defs, strict, strtod))
  }

  function AddSets(n: Node, sets: seq<seq<Definition>>, strict: bool, strtod: Strtod): Option<Node>
    decreases |sets|
  {
    if sets == [] then Some(n)
    else
      match CompileSet(n, sets[0], strict, strtod)
      case None => None
      case Some(n') => AddSets(n', sets[1..], strict, strtod)
  }

  /** fb_create_parser. */
  const EmptyParser := NewNode("", false)

  /** A parser given sets of definitions one after another. */
  function Compile(sets: seq<seq<Definition>>, strict: bool, strtod: Strtod): Option<Node> {
    AddSets(EmptyParser, sets, strict, strtod)
  }

  function Flatten(sets: seq<seq<Definition>>): seq<Definition> {
    if sets == [] then [] else sets[0] + Flatten(sets[1..])
  }

  predicate Numbered(defs: seq<Definition>) {
    forall d :: d in defs ==> d.response > 0
  }

  // ---------------------------------------------------------------- what some definition allows

  predicate SomeReaches(defs: seq<Definition>, tokens: seq<string>, strtod: Strtod) {
    exists d :: d in defs && Reaches(TermsOf(d, strtod), tokens, strtod)
  }

  predicate SomeExpects(defs: seq<Definition>, tokens: seq<string>, e: Expectation, strtod: Strtod) {
    exists d :: d in defs && Expects(TermsOf(d, strtod), tokens, e, strtod)
  }

  predicate SomeAccepts(defs: seq<Definition>, tokens: seq<string>, response: int, strtod: Strtod) {
    exists d :: d in defs && d.response == response && Accepts(TermsOf(d, strtod), tokens, strtod)
  }

  /** The tree means exactly what the definitions mean together. */
  ghost predicate MeansUnion(n: Node, defs: seq<Definition>, tokens: seq<string>, strtod: Strtod)
    requires WellFormed(n)
  {
    && (Reached(n, tokens, strtod) <==> tokens == [] || SomeReaches(defs, tokens, strtod))
    && (forall e :: Takes(n, tokens, e, strtod) <==> SomeExpects(defs, tokens, e, strtod))
    && (forall r :: r != 0 ==> (Complete(n, tokens, strtod) == r <==> SomeAccepts(defs, tokens, r, strtod)))
  }

  lemma SomeSplit(defs: seq<Definition>, d: Definition, tokens: seq<string>, strtod: Strtod)
    ensures SomeReaches(defs + [d], tokens, strtod) <==> SomeReaches(defs, tokens, strtod) || Reaches(TermsOf(d, strtod), tokens, strtod)
    ensures forall e :: SomeExpects(defs + [d], tokens, e, strtod) <==>
                        SomeExpects(defs, tokens, e, strtod) || Expects(TermsOf(d, strtod), tokens, e, strtod)
    ensures forall r :: SomeAccepts(defs + [d], tokens, r, strtod) <==>
                        SomeAccepts(defs, tokens, r, strtod) || (d.response == r && Accepts(TermsOf(d, strtod), tokens, strtod))
  {
    assert d in defs + [d];
    assert forall x :: x in defs + [d] <==> x in defs || x == d;
  }

  lemma AddOneMeans(n: Node, n': Node, defs: seq<Definition>, d: Definition, tokens: seq<string>, strtod: Strtod)
    requires WellFormed(n) && WellFormed(n') && d.response > 0
    requires MeansUnion(n, defs, tokens, strtod)
    requires Extends(n, n', d.response, TermsOf(d, strtod), tokens, strtod)
    ensures MeansUnion(n', defs + [d], tokens, strtod)
  {
    SomeSplit(defs, d, tokens, strtod);
  }

  lemma AddDefinitionMeans(n: Node, done: seq<Definition>, d: Definition, tokens: seq<string>, strtod: Strtod)
    requires WellFormed(n) && d.response > 0 && MeansUnion(n, done, tokens, strtod)
    requires Add(n, d.response, TermsOf(d, strtod), true).Some?
    ensures var n' := Add(n, d.response, TermsOf(d, strtod), true).value;
            WellFormed(n') && Settled(n') && MeansUnion(n', done + [d], tokens, strtod)
  {
    AddKeeps(n, d.response, TermsOf(d, strtod), true);
    AddExtends(n, d.response, TermsOf(d, strtod), tokens, strtod);
    AddOneMeans(n, Add(n, d.response, TermsOf(d, strtod), true).value, done, d, tokens, strtod);
  }

  lemma {:induction false} AddAllMeans(n: Node, done: seq<Definition>, defs: seq<Definition>, all: seq<Definition>,
                                       tokens: seq<string>, strtod: Strtod)
    requires WellFormed(n) && Numbered(defs) && MeansUnion(n, done, tokens, strtod) && all == done + defs
    requires AddAll(n, defs, true, strtod).Some?
    ensures WellFormed(AddAll(n, defs, true, strtod).value)
    ensures MeansUnion(AddAll(n, defs, true, strtod).value, all, tokens, strtod)
    ensures Settled(n) || defs != [] ==> Settled(AddAll(n, defs, true, strtod).value)
    decreases |defs|
  {
    hide MeansUnion, WellFormed, Settled, Add, TermsOf;
    if defs == [] {
      assert all == done;
    } else {
      var d := defs[0];
      assert all == done + [d] + defs[1..];
      AddDefinitionMeans(n, done, d, tokens, strtod);
      AddAllMeans(Add(n, d.response, TermsOf(d, strtod), true).value, done + [d], defs[1..], all, tokens, strtod);
    }
  }

  lemma SortMeans(n: Node, defs: seq<Definition>, tokens: seq<string>, strtod: Strtod)
    requires WellFormed(n) && MeansUnion(n, defs, tokens, strtod)
    ensures WellFormed(SortAll(n)) && Sorted(SortAll(n)) && MeansUnion(SortAll(n), defs, tokens, strtod)
    ensures Settled(n) ==> Settled(SortAll(n))
  {
    SortAllSorts(n);
    SortKeepsNodes(n, tokens, strtod);
    hide SortAll, WellFormed, Sorted;
    assert forall e :: Takes(SortAll(n), tokens, e, strtod) <==> Takes(n, tokens, e, strtod);
  }

  lemma {:induction false} AddSetsMeans(n: Node, done: seq<Definition>, sets: seq<seq<Definition>>, all: seq<Definition>,
                                        tokens: seq<string>, strtod: Strtod)
    requires WellFormed(n) && Sorted(n) && Numbered(Flatten(sets)) && MeansUnion(n, done, tokens, strtod)
    requires AddSets(n, sets, true, strtod).Some? && all == done + Flatten(sets)
    ensures WellFormed(AddSets(n, sets, true, strtod).value) && Sorted(AddSets(n, sets, true, strtod).value)
    ensures MeansUnion(AddSets(n, sets, true, strtod).value, all, tokens, strtod)
    ensures Settled(n) || Flatten(sets) != [] ==> Settled(AddSets(n, sets, true, strtod).value)
    decreases |sets|
  {
    if sets == [] {
      assert all == done;
    } else {
      var first := done + sets[0];
      assert all == first + Flatten(sets[1..]);
      var n1 := AddAll(n, sets[0], true, strtod).value;
      AddAllMeans(n, done, sets[0], first, tokens, strtod);
      SortMeans(n1, first, tokens, strtod);
      AddSetsMeans(SortAll(n1), first, sets[1..], all, tokens, strtod);
    }
  }

  /** Compiling sets of definitions gives a sorted tree that means what the definitions mean. */
  lemma CompiledMeans(sets: seq<seq<Definition>>, tokens: seq<string>, strtod: Strtod)
    requires Numbered(Flatten(sets)) && Compile(sets, true, strtod).Some?
    ensures var n := Compile(sets, true, strtod).value;
            && WellFormed(n) && Sorted(n) && MeansUnion(n, Flatten(sets), tokens, strtod)
            && (Flatten(sets) != [] ==> Settled(n))
  {
    assert MeansUnion(EmptyParser, [], tokens, strtod);
    assert [] + Flatten(sets) == Flatten(sets);
    AddSetsMeans(EmptyParser, [], sets, Flatten(sets), tokens, strtod);
  }

  // ---------------------------------------------------------------- the outcome, from the definitions alone

  /** The tokens are the beginning of a command some definition allows. */
  predicate Viable(defs: seq<Definition>, tokens: seq<string>, strtod: Strtod) {
    tokens == [] || SomeReaches(defs, tokens, strtod)
  }

  /** The token at `at` is the first that makes the command line unviable. */
  predicate FirstBad(defs: seq<Definition>, tokens: seq<string>, at: nat, strtod: Strtod) {
    at < |tokens| && Viable(defs, tokens[..at], strtod) && !Viable(defs, tokens[..at + 1], strtod)
  }

  ghost predicate ExpectsUnfit(defs: seq<Definition>, tokens: seq<string>, at: nat, unfit: Fit, strtod: Strtod)
    requires at < |tokens|
  {
    exists spec :: ValidSpec(spec) && SomeExpects(defs, tokens[..at], AValue(spec), strtod)
                   && FitOf(spec, tokens[at], strtod) == unfit
  }

  /** When an outcome is the right one for these definitions, in whatever order they were given. */
  ghost predicate Explains(defs: seq<Definition>, tokens: seq<string>, o: Outcome, strtod: Strtod) {
    match o
    case Accepted(r, at) =>
      && at <= |tokens| && SomeAccepts(defs, tokens, r, strtod)
      && (at < |tokens| ==> SomeExpects(defs, tokens[..at], Anything, strtod))
      && (forall k :: 0 <= k < at ==> !SomeExpects(defs, tokens[..k], Anything, strtod))
    case Incomplete(_) => Viable(defs, tokens, strtod) && forall r :: !SomeAccepts(defs, tokens, r, strtod)
    case InvalidKeyword(at) =>
      FirstBad(defs, tokens, at, strtod) && SomeExpects(defs, tokens[..at], AKeyword, strtod)
    case ExtraTerms(at) =>
      FirstBad(defs, tokens, at, strtod) && forall e :: !SomeExpects(defs, tokens[..at], e, strtod)
    case BadNumber(at) => FirstBad(defs, tokens, at, strtod) && ExpectsUnfit(defs, tokens, at, NotANumber, strtod)
    case BadRange(at) => FirstBad(defs, tokens, at, strtod) && ExpectsUnfit(defs, tokens, at, OutOfRange, strtod)
  }

  lemma CompleteIsExplained(n: Node, defs: seq<Definition>, tokens: seq<string>, strtod: Strtod)
    requires WellFormed(n) && Numbered(defs) && MeansUnion(n, defs, tokens, strtod)
    ensures !SomeAccepts(defs, tokens, 0, strtod)
    ensures Complete(n, tokens, strtod) == 0 <==> forall r :: !SomeAccepts(defs, tokens, r, strtod)
  {
    assert Complete(n, tokens, strtod) != 0 ==> SomeAccepts(defs, tokens, Complete(n, tokens, strtod), strtod);
  }

  lemma AcceptedIsExplained(n: Node, defs: seq<Definition>, tokens: seq<string>, o: Outcome, strtod: Strtod)
    requires WellFormed(n) && Numbered(defs) && o.Accepted? && o.at <= |tokens|
    requires forall p :: MeansUnion(n, defs, p, strtod)
    ensures Verdict(n, tokens, o, strtod) <==> Explains(defs, tokens, o, strtod)
  {
    CompleteIsExplained(n, defs, tokens, strtod);
    assert MeansUnion(n, defs, tokens, strtod);
    forall k | 0 <= k <= o.at
      ensures Takes(n, tokens[..k], Anything, strtod) <==> SomeExpects(defs, tokens[..k], Anything, strtod)
    {
      assert MeansUnion(n, defs, tokens[..k], strtod);
    }
  }

  /** What the tree at a prefix says about the next token is what the definitions say. */
  lemma KindIsExplained(n: Node, defs: seq<Definition>, tokens: seq<string>, at: nat, unfit: Fit, strtod: Strtod)
    requires WellFormed(n) && at < |tokens|
    requires MeansUnion(n, defs, tokens[..at], strtod) && Reached(n, tokens[..at], strtod)
    ensures TakesNothing(n, tokens[..at], strtod) <==> forall e :: !SomeExpects(defs, tokens[..at], e, strtod)
    ensures TakesBad(n, tokens, at, unfit, strtod) <==> ExpectsUnfit(defs, tokens, at, unfit, strtod)
  {
    var p := tokens[..at];
    var kind := NodeAt(n, p, strtod).value.kind;
    match kind
    case Value(spec) => assert Takes(n, p, AValue(spec), strtod);
    case Keywords => assert Takes(n, p, AKeyword, strtod);
    case OpenEnd => assert Takes(n, p, Anything, strtod);
    case Undetermined =>
  }

  lemma StopIsFirstBad(n: Node, defs: seq<Definition>, tokens: seq<string>, at: nat, strtod: Strtod)
    requires WellFormed(n) && at < |tokens|
    requires MeansUnion(n, defs, tokens[..at], strtod) && MeansUnion(n, defs, tokens[..at + 1], strtod)
    ensures FirstBad(defs, tokens, at, strtod) <==> StopsAt(n, tokens, at, strtod)
  {
  }

  lemma StopIsExplained(n: Node, defs: seq<Definition>, tokens: seq<string>, o: Outcome, strtod: Strtod)
    requires WellFormed(n) && !o.Accepted? && !o.Incomplete? && o.at < |tokens|
    requires MeansUnion(n, defs, tokens[..o.at], strtod) && MeansUnion(n, defs, tokens[..o.at + 1], strtod)
    ensures Verdict(n, tokens, o, strtod) <==> Explains(defs, tokens, o, strtod)
  {
    var p := tokens[..o.at];
    StopIsFirstBad(n, defs, tokens, o.at, strtod);
    if Reached(n, p, strtod) {
      match o
      case InvalidKeyword(_) =>
      case ExtraTerms(_) => KindIsExplained(n, defs, tokens, o.at, NotANumber, strtod);
      case BadNumber(_) => KindIsExplained(n, defs, tokens, o.at, NotANumber, strtod);
      case BadRange(_) => KindIsExplained(n, defs, tokens, o.at, OutOfRange, strtod);
    }
  }

  /** A tree that means what the definitions mean gives the verdicts the definitions explain. */
  lemma VerdictIsExplained(n: Node, defs: seq<Definition>, tokens: seq<string>, o: Outcome, strtod: Strtod)
    requires WellFormed(n) && Numbered(defs)
    requires forall p :: MeansUnion(n, defs, p, strtod)
    ensures Verdict(n, tokens, o, strtod) <==> Explains(defs, tokens, o, strtod)
  {
    if o.Incomplete? {
      CompleteIsExplained(n, defs, tokens, strtod);
      assert MeansUnion(n, defs, tokens, strtod);
    } else if o.Accepted? {
      if o.at <= |tokens| {
        AcceptedIsExplained(n, defs, tokens, o, strtod);
      }
    } else if o.at < |tokens| {
      StopIsExplained(n, defs, tokens, o, strtod);
    }
  }

  /** fb_interpret gives an outcome exactly when the definitions explain it: it returns a response
      just for the command lines of that definition, and each error just where it should. */
  lemma InterpretIsExact(sets: seq<seq<Definition>>, tokens: seq<string>, o: Outcome, strtod: Strtod)
    requires Numbered(Flatten(sets)) && Compile(sets, true, strtod).Some?
    ensures WellFormed(Compile(sets, true, strtod).value)
    ensures Explains(Flatten(sets), tokens, o, strtod) <==>
            SameOutcome(o, Interpret(Compile(sets, true, strtod).value, tokens, strtod))
  {
    var n := Compile(sets, true, strtod).value;
    var defs := Flatten(sets);
    forall p
      ensures WellFormed(n) && MeansUnion(n, defs, p, strtod)
    {
      CompiledMeans(sets, p, strtod);
    }
    CompiledMeans(sets, tokens, strtod);
    var r := Interpret(n, tokens, strtod);
    InterpretVerdict(n, tokens, strtod);
    VerdictIsExplained(n, defs, tokens, o, strtod);
    if Verdict(n, tokens, o, strtod) {
      VerdictUnique(n, tokens, o, r, strtod);
    }
  }

  /** Neither the order of the definitions nor how they are divided into sets makes a difference. */
  lemma OrderIrrelevant(sets1: seq<seq<Definition>>, sets2: seq<seq<Definition>>, tokens: seq<string>, strtod: Strtod)
    requires Numbered(Flatten(sets1)) && Numbered(Flatten(sets2))
    requires Compile(sets1, true, strtod).Some? && Compile(sets2, true, strtod).Some?
    requires forall d :: d in Flatten(sets1) <==> d in Flatten(sets2)
    ensures WellFormed(Compile(sets1, true, strtod).value) && WellFormed(Compile(sets2, true, strtod).value)
    ensures SameOutcome(Interpret(Compile(sets1, true, strtod).value, tokens, strtod),
                        Interpret(Compile(sets2, true, strtod).value, tokens, strtod))
  {
    CompiledMeans(sets1, tokens, strtod);
    CompiledMeans(sets2, tokens, strtod);
    var o := Interpret(Compile(sets1, true, strtod).value, tokens, strtod);
    InterpretIsExact(sets1, tokens, o, strtod);
    ExplainsAlike(Flatten(sets1), Flatten(sets2), tokens, o, strtod);
    InterpretIsExact(sets2, tokens, o, strtod);
  }

  lemma SomeAlike(defs1: seq<Definition>, defs2: seq<Definition>, tokens: seq<string>, strtod: Strtod)
    requires forall d :: d in defs1 <==> d in defs2
    ensures SomeReaches(defs1, tokens, strtod) == SomeReaches(defs2, tokens, strtod)
    ensures forall e :: SomeExpects(defs1, tokens, e, strtod) == SomeExpects(defs2, tokens, e, strtod)
    ensures forall r :: SomeAccepts(defs1, tokens, r, strtod) == SomeAccepts(defs2, tokens, r, strtod)
  {
  }

  lemma ExplainsAlike(defs1: seq<Definition>, defs2: seq<Definition>, tokens: seq<string>, o: Outcome, strtod: Strtod)
    requires forall d :: d in defs1 <==> d in defs2
    requires Explains(defs1, tokens, o, strtod)
    ensures Explains(defs2, tokens, o, strtod)
  {
    SomeAlike(defs1, defs2, tokens, strtod);
    forall k | 0 <= k <= |tokens|
      ensures SomeReaches(defs1, tokens[..k], strtod) == SomeReaches(defs2, tokens[..k], strtod)
      ensures forall e :: SomeExpects(defs1, tokens[..k], e, strtod) == SomeExpects(defs2, tokens[..k], e, strtod)
    {
      SomeAlike(defs1, defs2, tokens[..k], strtod);
    }
  }

  // ---------------------------------------------------------------- viable means extendable

  /** No pattern has a malformed blank or a required choice of nothing. */
  predicate WellMade(defs: seq<Definition>, strtod: Strtod) {
    forall d :: d in defs ==> forall t :: t in TermsOf(d, strtod) ==>
      !t.Invalid? && (t.Choice? && !t.optional ==> t.words != [])
  }

  lemma ClassifySatisfiable(word: string, strtod: Strtod)
    requires Stable(strtod)
    ensures var t := Classify(word, strtod);
            && (t.FillIn? || t.OptionalFillIn? ==> ValidSpec(t.blank.spec) && Satisfiable(t.blank.spec, strtod))
  {
    var t := Classify(word, strtod);
    if t.FillIn? {
      ParsedSpecSatisfiable(word, strtod);
    } else if t.OptionalFillIn? {
      ParsedSpecSatisfiable(word[1..|word| - 1], strtod);
    }
  }

  lemma DefinitionFillable(d: Definition, strtod: Strtod)
    requires Stable(strtod)
    ensures Fillable(TermsOf(d, strtod), strtod)
  {
    var words := Tokenizer.Texts(Tokenizer.Terms(d.statement));
    forall t | t in TermsOf(d, strtod) && (t.FillIn? || t.OptionalFillIn?)
      ensures Satisfiable(t.blank.spec, strtod)
    {
      var i :| 0 <= i < |words| && TermsOf(d, strtod)[i] == t;
      ClassifySatisfiable(words[i], strtod);
    }
  }

  /** Viable command lines, which the errors speak of, are those that can be typed on to a full one. */
  lemma ViableIsExtendable(defs: seq<Definition>, tokens: seq<string>, strtod: Strtod)
    requires Stable(strtod) && WellMade(defs, strtod) && defs != []
    ensures Viable(defs, tokens, strtod) <==> exists ext, r :: SomeAccepts(defs, tokens + ext, r, strtod)
  {
    if Viable(defs, tokens, strtod) {
      var d :| d in defs && Reaches(TermsOf(d, strtod), tokens, strtod) by {
        assert tokens == [] ==> Reaches(TermsOf(defs[0], strtod), tokens, strtod);
      }
      DefinitionFillable(d, strtod);
      ReachesIsViable(TermsOf(d, strtod), tokens, strtod);
      var ext :| Accepts(TermsOf(d, strtod), tokens + ext, strtod);
      assert SomeAccepts(defs, tokens + ext, d.response, strtod);
    }
    if ext, r :| SomeAccepts(defs, tokens + ext, r, strtod) {
      var d :| d in defs && d.response == r && Accepts(TermsOf(d, strtod), tokens + ext, strtod);
      ReachesIsViable(TermsOf(d, strtod), tokens, strtod);
    }
  }

  /** Extra terms are only complained of after a complete command. */
  lemma ExtraTermsFollowCommand(sets: seq<seq<Definition>>, tokens: seq<string>, at: nat, strtod: Strtod)
    requires Numbered(Flatten(sets)) && Compile(sets, true, strtod).Some? && Flatten(sets) != []
    requires at < |tokens| && Explains(Flatten(sets), tokens, ExtraTerms(at), strtod)
    ensures exists r :: SomeAccepts(Flatten(sets), tokens[..at], r, strtod)
  {
    var n := Compile(sets, true, strtod).value;
    var p := tokens[..at];
    CompiledMeans(sets, p, strtod);
    KindIsExplained(n, Flatten(sets), tokens, at, Fits, strtod);
    SettledCompletes(n, p, strtod);
    assert SomeAccepts(Flatten(sets), p, Complete(n, p, strtod), strtod);
  }

  lemma SettledCompletes(n: Node, p: seq<string>, strtod: Strtod)
    requires WellFormed(n) && Settled(n) && TakesNothing(n, p, strtod)
    ensures Complete(n, p, strtod) != 0
  {
  }

  // ---------------------------------------------------------------- exactly when the compiled tree is right

  lemma {:induction false} AddAllLax(n: Node, defs: seq<Definition>, strtod: Strtod)
    requires AddAll(n, defs, true, strtod).Some?
    ensures AddAll(n, defs, false, strtod) == AddAll(n, defs, true, strtod)
    decreases |defs|
  {
    if defs != [] {
      StrictIsLax(n, defs[0].response, TermsOf(defs[0], strtod));
      AddAllLax(Add(n, defs[0].response, TermsOf(defs[0], strtod), true).value, defs[1..], strtod);
    }
  }

  lemma {:induction false} AddSetsLax(n: Node, sets: seq<seq<Definition>>, strtod: Strtod)
    requires AddSets(n, sets, true, strtod).Some?
    ensures AddSets(n, sets, false, strtod) == AddSets(n, sets, true, strtod)
    decreases |sets|
  {
    if sets != [] {
      AddAllLax(n, sets[0], strtod);
      AddSetsLax(CompileSet(n, sets[0], true, strtod).value, sets[1..], strtod);
    }
  }

  lemma {:induction false} AddAllKeepsValue(n: Node, defs: seq<Definition>, tokens: seq<string>, spec: ValueSpec, strtod: Strtod)
    requires WellFormed(n) && Numbered(defs) && AddAll(n, defs, false, strtod).Some?
    ensures WellFormed(AddAll(n, defs, false, strtod).value)
    ensures Takes(n, tokens, AValue(spec), strtod) ==> Takes(AddAll(n, defs, false, strtod).value, tokens, AValue(spec), strtod)
    decreases |defs|
  {
    if defs != [] {
      var d := defs[0];
      AddKeeps(n, d.response, TermsOf(d, strtod), false);
      if Takes(n, tokens, AValue(spec), strtod) {
        AddKeepsValue(n, d.response, TermsOf(d, strtod), tokens, spec, strtod);
      }
      AddAllKeepsValue(Add(n, d.response, TermsOf(d, strtod), false).value, defs[1..], tokens, spec, strtod);
    }
  }

  lemma {:induction false} AddSetsKeepsValue(n: Node, sets: seq<seq<Definition>>, tokens: seq<string>, spec: ValueSpec, strtod: Strtod)
    requires WellFormed(n) && Numbered(Flatten(sets)) && AddSets(n, sets, false, strtod).Some?
    ensures WellFormed(AddSets(n, sets, false, strtod).value)
    ensures Takes(n, tokens, AValue(spec), strtod) ==> Takes(AddSets(n, sets, false, strtod).value, tokens, AValue(spec), strtod)
    decreases |sets|
  {
    if sets != [] {
      AddAllKeepsValue(n, sets[0], tokens, spec, strtod);
      SortKeepsNodes(AddAll(n, sets[0], false, strtod).value, tokens, strtod);
      AddSetsKeepsValue(CompileSet(n, sets[0], false, strtod).value, sets[1..], tokens, spec, strtod);
    }
  }

  lemma {:induction false} RefusedAllClash(n: Node, defs: seq<Definition>, strtod: Strtod)
    returns (d: Definition, tokens: seq<string>, taken: ValueSpec, asked: ValueSpec)
    requires WellFormed(n) && Numbered(defs) && Stable(strtod)
    requires AddAll(n, defs, false, strtod).Some? && AddAll(n, defs, true, strtod).None?
    ensures d in defs && WellFormed(AddAll(n, defs, false, strtod).value)
    ensures Clash(AddAll(n, defs, false, strtod).value, TermsOf(d, strtod), tokens, taken, asked, strtod)
    decreases |defs|
  {
    var first := defs[0];
    var terms := TermsOf(first, strtod);
    var n1 := Add(n, first.response, terms, false).value;
    AddKeeps(n, first.response, terms, false);
    if Add(n, first.response, terms, true).None? {
      d := first;
      DefinitionFillable(first, strtod);
      tokens, taken, asked := RefusedAddClashes(n, first.response, terms, strtod);
      AddAllKeepsValue(n1, defs[1..], tokens, taken, strtod);
    } else {
      StrictIsLax(n, first.response, terms);
      d, tokens, taken, asked := RefusedAllClash(n1, defs[1..], strtod);
    }
  }

  lemma {:induction false} RefusedSetsClash(n: Node, sets: seq<seq<Definition>>, strtod: Strtod)
    returns (d: Definition, tokens: seq<string>, taken: ValueSpec, asked: ValueSpec)
    requires WellFormed(n) && Numbered(Flatten(sets)) && Stable(strtod)
    requires AddSets(n, sets, false, strtod).Some? && AddSets(n, sets, true, strtod).None?
    ensures d in Flatten(sets) && WellFormed(AddSets(n, sets, false, strtod).value)
    ensures Clash(AddSets(n, sets, false, strtod).value, TermsOf(d, strtod), tokens, taken, asked, strtod)
    decreases |sets|
  {
    var n1 := AddAll(n, sets[0], false, strtod).value;
    if AddAll(n, sets[0], true, strtod).None? {
      d, tokens, taken, asked := RefusedAllClash(n, sets[0], strtod);
      SortKeepsNodes(n1, tokens, strtod);
      AddSetsKeepsValue(SortAll(n1), sets[1..], tokens, taken, strtod);
    } else {
      AddAllLax(n, sets[0], strtod);
      AddAllKeepsValue(n, sets[0], [], AnyText, strtod);
      SortAllSorts(n1);
      d, tokens, taken, asked := RefusedSetsClash(SortAll(n1), sets[1..], strtod);
    }
  }

  /** The tree the C code builds means what the definitions mean exactly when no two blanks that
      differ in radix were merged, that is, when comparing the radix too would have refused none. */
  lemma MeansUnionIffNoRadixMerged(sets: seq<seq<Definition>>, strtod: Strtod)
    requires Stable(strtod) && Numbered(Flatten(sets)) && Compile(sets, false, strtod).Some?
    ensures WellFormed(Compile(sets, false, strtod).value)
    ensures Compile(sets, true, strtod).Some? <==>
            forall tokens :: MeansUnion(Compile(sets, false, strtod).value, Flatten(sets), tokens, strtod)
  {
    var n := Compile(sets, false, strtod).value;
    AddSetsKeepsValue(EmptyParser, sets, [], AnyText, strtod);
    if Compile(sets, true, strtod).Some? {
      AddSetsLax(EmptyParser, sets, strtod);
      forall tokens
        ensures MeansUnion(n, Flatten(sets), tokens, strtod)
      {
        CompiledMeans(sets, tokens, strtod);
      }
    } else {
      var d, tokens, taken, asked := RefusedSetsClash(EmptyParser, sets, strtod);
      AsksExpects(TermsOf(d, strtod), tokens, asked, strtod);
      assert SomeExpects(Flatten(sets), tokens, AValue(asked), strtod);
      assert !MeansUnion(n, Flatten(sets), tokens, strtod) by {
        assert !Takes(n, tokens, AValue(asked), strtod);
      }
    }
  }

  // ---------------------------------------------------------------- the parser object

  /** struct fb_parser_t as its users see it. */
  class Parser {
    const strtod: Strtod
    var root: Node
    ghost var sets: seq<seq<Definition>>

    /** The tree is what the C code makes of the sets it was given. */
    ghost predicate Valid()
      reads this
    {
      Compile(sets, false, strtod) == Some(root)
    }

    constructor (strtod: Strtod)
      ensures Valid() && sets == [] && this.strtod == strtod
    {
      this.strtod := strtod;
      root := EmptyParser;
      sets := [];
    }

    /** fb_parser_add_statements. A defective statement is an assertion failure, after which
        nothing is promised; otherwise the set has been added. */
    method AddStatements(defs: seq<Definition>) returns (ok: bool)
      requires Valid()
      modifies this`root, this`sets
      ensures ok <==> CompileSet(old(root), defs, false, strtod).Some?
      ensures ok ==> Valid() && sets == old(sets) + [defs]
    {
      var n := root;
      var i := 0;
      while i < |defs|
        invariant i <= |defs|
        invariant AddAll(old(root), defs, false, strtod) == AddAll(n, defs[i..], false, strtod)
      {
        match Add(n, defs[i].response, TermsOf(defs[i], strtod), false)
        case None =>
          return false;
        case Some(n') =>
          n := n';
        i := i + 1;
      }
      AddSetsAppend(EmptyParser, sets, defs, strtod);
      root := SortAll(n);
      sets := sets + [defs];
      ok := true;
    }

    /** fb_interpret. The outcome says where the tokens lead in the tree; where no two blanks differing in
        radix were merged, it is the one that the definitions explain. */
    method InterpretLine(tokens: seq<string>) returns (o: Outcome)
      requires Valid() && Numbered(Flatten(sets))
      ensures WellFormed(root) && Verdict(root, tokens, o, strtod)
      ensures Compile(sets, true, strtod).Some? ==>
                forall o' :: Explains(Flatten(sets), tokens, o', strtod) <==> SameOutcome(o', o)
    {
      CompiledSorted(EmptyParser, sets, strtod);
      o := Interpret(root, tokens, strtod);
      InterpretVerdict(root, tokens, strtod);
      if Compile(sets, true, strtod).Some? {
        AddSetsLax(EmptyParser, sets, strtod);
        forall o' ensures Explains(Flatten(sets), tokens, o', strtod) <==> SameOutcome(o', o) {
          InterpretIsExact(sets, tokens, o', strtod);
        }
      }
    }
  }

  lemma {:induction false} CompiledSorted(n: Node, sets: seq<seq<Definition>>, strtod: Strtod)
    requires WellFormed(n) && Sorted(n) && Numbered(Flatten(sets)) && AddSets(n, sets, false, strtod).Some?
    ensures WellFormed(AddSets(n, sets, false, strtod).value) && Sorted(AddSets(n, sets, false, strtod).value)
    decreases |sets|
  {
    if sets != [] {
      AddAllKeepsValue(n, sets[0], [], AnyText, strtod);
      var n1 := AddAll(n, sets[0], false, strtod).value;
      SortAllSorts(n1);
      CompiledSorted(SortAll(n1), sets[1..], strtod);
    }
  }

  lemma {:induction false} AddSetsAppend(n: Node, sets: seq<seq<Definition>>, defs: seq<Definition>, strtod: Strtod)
    requires AddSets(n, sets, false, strtod).Some?
    ensures AddSets(n, sets + [defs], false, strtod)
            == CompileSet(AddSets(n, sets, false, strtod).value, defs, false, strtod)
    decreases |sets|
  {
    if sets == [] {
      assert [] + [defs] == [defs];
    } else {
      assert (sets + [defs])[0] == sets[0] && (sets + [defs])[1..] == sets[1..] + [defs];
      AddSetsAppend(CompileSet(n, sets[0], false, strtod).value, sets[1..], defs, strtod);
    }
  }
}
