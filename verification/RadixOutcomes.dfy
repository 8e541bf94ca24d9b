/** When fb_interpret itself goes wrong (src/libfootball/fb_parser.c:370-383 and 651-660): exactly when two
    blanks that differ in radix were merged. Then some command line shows it. Where the tree reads
    decimal numbers and a pattern asks for detected ones, a hexadecimal number is called bad that begins
    a command. Where the tree detects the radix and a pattern asks for decimal numbers, a command with a
    hexadecimal number is accepted that no definition allows. */
module RadixOutcomes {
  import opened Basics
  import opened CStrings
  import opened Patterns
  import opened NumberTexts
  import opened CommandTrie
  import opened CommandParser
  import opened RadixErasure
  import opened RadixClash
  import opened CommandLanguage

  lemma {:induction false} NodeAtConcat(n: Node, a: seq<string>, b: seq<string>, strtod: Strtod)
    requires WellFormed(n)
    ensures NodeAt(n, a + b, strtod)
            == match NodeAt(n, a, strtod) case Some(m) => NodeAt(m, b, strtod) case None => None
    decreases |a|
  {
    if a == [] {
      assert a + b == b;
    } else {
      assert (a + b)[0] == a[0] && (a + b)[1..] == a[1..] + b;
      var child := ChildFor(n, a[0], strtod);
      if child.Some? {
        NodeAtConcat(child.value, a[1..], b, strtod);
      }
    }
  }

  lemma NodeAtOne(m: Node, token: string, strtod: Strtod)
    requires WellFormed(m)
    ensures NodeAt(m, [token], strtod) == ChildFor(m, token, strtod)
  {
    assert [token][1..] == [];
  }

  // ---------------------------------------------------------------- a decimal blank where detection is asked for

  lemma {:induction false} ExpectedReaches(terms: seq<Term>, tokens: seq<string>, spec: ValueSpec, token: string, strtod: Strtod)
    requires ValidTerms(terms) && Expects(terms, tokens, AValue(spec), strtod)
    requires ValidSpec(spec) && FitOf(spec, token, strtod) == Fits
    ensures Reaches(terms, tokens + [token], strtod)
    decreases |terms|
  {
    var rest := terms[1..];
    if tokens == [] {
      assert tokens + [token] == [token] && [token][1..] == [];
      if terms[0].Choice? {
        ExpectedReaches(rest, tokens, spec, token, strtod);
      }
    } else {
      assert (tokens + [token])[0] == tokens[0] && (tokens + [token])[1..] == tokens[1..] + [token];
      if terms[0].Choice? && terms[0].optional && Expects(rest, tokens, AValue(spec), strtod) {
        ExpectedReaches(rest, tokens, spec, token, strtod);
      } else if !terms[0].Ellipsis? {
        ExpectedReaches(rest, tokens[1..], spec, token, strtod);
      }
    }
  }

  /** An outcome that fb_interpret gives and the definitions do not explain. */
  ghost predicate Wrong(n: Node, defs: seq<Definition>, tokens: seq<string>, o: Outcome, strtod: Strtod)
    requires WellFormed(n)
  {
    SameOutcome(o, Interpret(n, tokens, strtod)) && !Explains(defs, tokens, o, strtod)
  }

  /** The tree takes decimal numbers where a pattern asks for ones whose radix is detected. */
  predicate TenForAny(n: Node, terms: seq<Term>, tokens: seq<string>, taken: ValueSpec, asked: ValueSpec, strtod: Strtod)
    requires WellFormed(n) && ValidTerms(terms)
  {
    && taken.IntRange? && asked.IntRange? && SameSpec(taken, asked) && taken.radix == 10 && asked.radix == 0
    && Takes(n, tokens, AValue(taken), strtod) && Expects(terms, tokens, AValue(asked), strtod)
  }

  lemma BadAtEnd(n: Node, p: seq<string>, spec: ValueSpec, token: string, strtod: Strtod)
    requires WellFormed(n) && Sorted(n) && Takes(n, p, AValue(spec), strtod)
    requires ValidSpec(spec) && FitOf(spec, token, strtod) == NotANumber
    ensures SameOutcome(BadNumber(|p|), Interpret(n, p + [token], strtod))
  {
    var tokens := p + [token];
    assert tokens[..|p|] == p && tokens[..|p| + 1] == tokens;
    NodeAtConcat(n, p, [token], strtod);
    NodeAtOne(NodeAt(n, p, strtod).value, token, strtod);
    assert Verdict(n, tokens, BadNumber(|p|), strtod);
    InterpretVerdict(n, tokens, strtod);
    VerdictUnique(n, tokens, BadNumber(|p|), Interpret(n, tokens, strtod), strtod);
  }

  /** The beginning of a command, with its number in hexadecimal, ends in a bad number. */
  lemma TenMisreads(n: Node, defs: seq<Definition>, d: Definition, p: seq<string>, taken: ValueSpec, asked: ValueSpec, strtod: Strtod)
    returns (tokens: seq<string>, o: Outcome)
    requires WellFormed(n) && Sorted(n) && d in defs && TenForAny(n, TermsOf(d, strtod), p, taken, asked, strtod)
    requires ValidSpec(asked) && Satisfiable(asked, strtod)
    ensures Wrong(n, defs, tokens, o, strtod)
  {
    var v := RangeHasNumber(asked, strtod);
    var token := Hexadecimal(v);
    ReadsHexadecimal(v);
    StopsAtHexadecimal(v);
    tokens, o := p + [token], BadNumber(|p|);
    BadAtEnd(n, p, taken, token, strtod);
    ExpectedReaches(TermsOf(d, strtod), p, asked, token, strtod);
    assert SomeReaches(defs, tokens, strtod);
    assert tokens[..|p| + 1] == tokens;
    assert !FirstBad(defs, tokens, |p|, strtod);
  }

  // ---------------------------------------------------------------- ways along a pattern

  /** The pattern accepts the tokens, and every one in a blank reads alike. */
  predicate AcceptsAlike(terms: seq<Term>, tokens: seq<string>, strtod: Strtod)
    requires ValidTerms(terms)
    decreases |terms|
  {
    if terms == [] then tokens == []
    else
      var rest := terms[1..];
      match terms[0]
      case Keyword(w) => tokens != [] && Lower(tokens[0]) == Lower(w) && AcceptsAlike(rest, tokens[1..], strtod)
      case Choice(optional, _, words) =>
        || (optional && AcceptsAlike(rest, tokens, strtod))
        || (tokens != [] && OneOf(words, tokens[0]) && AcceptsAlike(rest, tokens[1..], strtod))
      case FillIn(b) => tokens != [] && FitsAlike(b.spec, tokens[0], strtod) && AcceptsAlike(rest, tokens[1..], strtod)
      case OptionalFillIn(b) =>
        tokens == [] || (FitsAlike(b.spec, tokens[0], strtod) && AcceptsAlike(rest, tokens[1..], strtod))
      case Ellipsis => true
      case Invalid => false
  }

  /** The pattern with its radices forgotten accepts the tokens in a way in which a token is in a blank
      that it does not fit. */
  predicate Strays(terms: seq<Term>, tokens: seq<string>, strtod: Strtod)
    requires ValidTerms(terms)
    decreases |terms|, 0
  {
    if terms == [] then false
    else
      var rest := terms[1..];
      match terms[0]
      case Keyword(w) => tokens != [] && Lower(tokens[0]) == Lower(w) && Strays(rest, tokens[1..], strtod)
      case Choice(optional, _, words) =>
        || (optional && Strays(rest, tokens, strtod))
        || (tokens != [] && OneOf(words, tokens[0]) && Strays(rest, tokens[1..], strtod))
      case FillIn(b) => tokens != [] && StraysHere(b.spec, rest, tokens, strtod)
      case OptionalFillIn(b) => tokens != [] && StraysHere(b.spec, rest, tokens, strtod)
      case Ellipsis => false
      case Invalid => false
  }

  predicate StraysHere(spec: ValueSpec, rest: seq<Term>, tokens: seq<string>, strtod: Strtod)
    requires ValidSpec(spec) && ValidTerms(rest) && tokens != []
    decreases |rest|, 1
  {
    && FitOf(EraseSpec(spec), tokens[0], strtod) == Fits
    && ((FitOf(spec, tokens[0], strtod) != Fits && Accepts(Erase(rest), tokens[1..], strtod)) || Strays(rest, tokens[1..], strtod))
  }

  lemma {:induction false} AlikeAccepts(terms: seq<Term>, tokens: seq<string>, strtod: Strtod)
    requires ValidTerms(terms) && AcceptsAlike(terms, tokens, strtod)
    ensures Accepts(terms, tokens, strtod) && Accepts(Erase(terms), tokens, strtod)
    decreases |terms|
  {
    if terms != [] {
      var rest := terms[1..];
      EraseRest(terms);
      if terms[0].Choice? && terms[0].optional && AcceptsAlike(rest, tokens, strtod) {
        AlikeAccepts(rest, tokens, strtod);
      } else if tokens != [] && !terms[0].Ellipsis? {
        AlikeAccepts(rest, tokens[1..], strtod);
      }
    }
  }

  lemma {:induction false} StraysAccepts(terms: seq<Term>, tokens: seq<string>, strtod: Strtod)
    requires ValidTerms(terms) && Strays(terms, tokens, strtod)
    ensures Accepts(Erase(terms), tokens, strtod)
    decreases |terms|
  {
    var rest := terms[1..];
    EraseRest(terms);
    if terms[0].Choice? && terms[0].optional && Strays(rest, tokens, strtod) {
      StraysAccepts(rest, tokens, strtod);
    } else if Strays(rest, tokens[1..], strtod) {
      StraysAccepts(rest, tokens[1..], strtod);
    }
  }

  /** A live pattern can be completed with tokens that read alike. */
  lemma {:induction false} AlikeCompletes(terms: seq<Term>, strtod: Strtod) returns (ext: seq<string>)
    requires ValidTerms(terms) && Live(terms, strtod)
    ensures AcceptsAlike(terms, ext, strtod)
  {
    if terms == [] {
      return [];
    }
    var rest := terms[1..];
    ext := AlikeCompletes(rest, strtod);
    match terms[0]
    case Keyword(w) => ext := [w] + ext;
    case Choice(optional, _, words) =>
      if !optional {
        assert words[0] in words && OneOf(words, words[0]);
        ext := [words[0]] + ext;
      }
    case FillIn(b) =>
      var token := AlikeToken(b.spec, strtod);
      ext := [token] + ext;
    case OptionalFillIn(b) => ext := [];
    case Ellipsis =>
    case Invalid =>
  }

  /** A number written in hexadecimal strays in a decimal blank, and in decimal it does not. */
  lemma NumberStrays(asked: ValueSpec, v: int, strtod: Strtod)
    requires asked.IntRange? && asked.radix == 10 && IsLong(v) && asked.min <= v <= asked.max
    ensures FitsAlike(asked, Decimal(v), strtod)
    ensures FitOf(EraseSpec(asked), Hexadecimal(v), strtod) == Fits && FitOf(asked, Hexadecimal(v), strtod) == NotANumber
  {
    ReadsDecimal(v, 0);
    ReadsDecimal(v, 10);
    ReadsHexadecimal(v);
    StopsAtHexadecimal(v);
    hide Strtol, Decimal, Hexadecimal;
  }

  /** Where a pattern asks for a decimal number, the command line can be completed, and with the number
      in hexadecimal it strays. */
  lemma {:induction false} AskedStrays(terms: seq<Term>, p: seq<string>, asked: ValueSpec, v: int, strtod: Strtod)
    returns (ext: seq<string>)
    requires ValidTerms(terms) && Live(terms, strtod) && Asks(terms, p, asked, strtod)
    requires asked.IntRange? && asked.radix == 10 && IsLong(v) && asked.min <= v <= asked.max
    ensures AcceptsAlike(terms, p + [Decimal(v)] + ext, strtod)
    ensures Strays(terms, p + [Hexadecimal(v)] + ext, strtod)
    decreases |terms|
  {
    var rest := terms[1..];
    if terms[0].Choice? && terms[0].optional && Asks(rest, p, asked, strtod) {
      ext := AskedStrays(rest, p, asked, v, strtod);
    } else if p != [] {
      ext := AskedStrays(rest, p[1..], asked, v, strtod);
      ConsTail(p, Decimal(v), ext);
      ConsTail(p, Hexadecimal(v), ext);
    } else {
      ext := AlikeCompletes(rest, strtod);
      AlikeAccepts(rest, ext, strtod);
      NumberStrays(asked, v, strtod);
      hide Decimal, Hexadecimal, FitOf;
      assert forall token: string :: ([] + [token] + ext)[0] == token && ([] + [token] + ext)[1..] == ext;
    }
  }

  lemma ConsTail(p: seq<string>, token: string, ext: seq<string>)
    requires p != []
    ensures (p + [token] + ext)[0] == p[0] && (p + [token] + ext)[1..] == p[1..] + [token] + ext
  {
  }

  // ---------------------------------------------------------------- patterns along a tree

  /** Whatever the pattern may go on with, the tree takes. */
  ghost predicate Covers(m: Node, terms: seq<Term>, strtod: Strtod)
    requires WellFormed(m) && ValidTerms(terms)
  {
    forall p, e :: Expects(terms, p, e, strtod) ==> Takes(m, p, e, strtod)
  }

  /** The first word of the pattern can stand for the token. */
  predicate Consumes(term: Term, token: string, strtod: Strtod)
    requires term.FillIn? || term.OptionalFillIn? ==> ValidSpec(term.blank.spec)
  {
    match term
    case Keyword(w) => Lower(token) == Lower(w)
    case Choice(_, _, words) => OneOf(words, token)
    case FillIn(b) => FitOf(b.spec, token, strtod) == Fits
    case OptionalFillIn(b) => FitOf(b.spec, token, strtod) == Fits
    case Ellipsis => false
    case Invalid => false
  }

  lemma CoversBelow(m: Node, child: Node, terms: seq<Term>, token: string, strtod: Strtod)
    requires WellFormed(m) && WellFormed(child) && ValidTerms(terms) && terms != [] && Covers(m, terms, strtod)
    requires Consumes(terms[0], token, strtod) && ChildFor(m, token, strtod) == Some(child)
    ensures Covers(child, terms[1..], strtod)
  {
    var rest := terms[1..];
    forall p, e | Expects(rest, p, e, strtod)
      ensures Takes(child, p, e, strtod)
    {
      var q := [token] + p;
      assert q[0] == token && q[1..] == p;
      assert Expects(terms, q, e, strtod);
      LookBelow(m, child, q, strtod);
    }
  }

  lemma CoversSkipped(m: Node, terms: seq<Term>, strtod: Strtod)
    requires WellFormed(m) && ValidTerms(terms) && terms != [] && Covers(m, terms, strtod)
    requires terms[0].Choice? && terms[0].optional
    ensures Covers(m, terms[1..], strtod)
  {
    forall p, e | Expects(terms[1..], p, e, strtod)
      ensures Takes(m, p, e, strtod)
    {
      assert Expects(terms, p, e, strtod);
    }
  }

  /** What leads on from a node is a child. */
  lemma ReachedChild(m: Node, tokens: seq<string>, strtod: Strtod) returns (child: Node)
    requires WellFormed(m) && tokens != [] && Reached(m, tokens, strtod)
    ensures WellFormed(child) && ChildFor(m, tokens[0], strtod) == Some(child) && Reached(child, tokens[1..], strtod)
  {
    child := ChildFor(m, tokens[0], strtod).value;
  }

  /** Along a tree that covers the forgetful pattern, what the pattern accepts the forgetful one does. */
  lemma {:induction false} AcceptsForgetful(m: Node, terms: seq<Term>, tokens: seq<string>, strtod: Strtod)
    requires WellFormed(m) && ValidTerms(terms) && Covers(m, Erase(terms), strtod) && Reached(m, tokens, strtod)
    requires Accepts(terms, tokens, strtod)
    ensures Accepts(Erase(terms), tokens, strtod)
    decreases |terms|
  {
    if terms != [] {
      var rest := terms[1..];
      EraseRest(terms);
      if terms[0].Choice? && terms[0].optional && Accepts(rest, tokens, strtod) {
        CoversSkipped(m, Erase(terms), strtod);
        AcceptsForgetful(m, rest, tokens, strtod);
      } else if tokens != [] && !terms[0].Ellipsis? {
        var child := ReachedChild(m, tokens, strtod);
        ConsumedForgetful(m, terms, tokens, strtod);
        CoversBelow(m, child, Erase(terms), tokens[0], strtod);
        AcceptsForgetful(child, rest, tokens[1..], strtod);
      }
    }
  }

  /** A blank's token fits what the tree takes there. */
  lemma ConsumedForgetful(m: Node, terms: seq<Term>, tokens: seq<string>, strtod: Strtod)
    requires WellFormed(m) && ValidTerms(terms) && Covers(m, Erase(terms), strtod) && Reached(m, tokens, strtod)
    requires terms != [] && tokens != [] && Consumes(terms[0], tokens[0], strtod)
    ensures Consumes(Erase(terms)[0], tokens[0], strtod)
  {
    if terms[0].FillIn? || terms[0].OptionalFillIn? {
      var spec := EraseSpec(terms[0].blank.spec);
      assert Expects(Erase(terms), [], AValue(spec), strtod);
      assert Takes(m, [], AValue(spec), strtod);
      var _ := ReachedChild(m, tokens, strtod);
    }
  }

  // ---------------------------------------------------------------- one way only

  /** A token that a choice can stand for leads to a node under which the rest was added. */
  lemma {:induction false} ChoiceAddsUnder(n: Node, response: int, rest: seq<Term>, words: seq<string>, name: string, token: string)
    returns (under: Node)
    requires WellFormed(n) && n.kind.Keywords? && response != 0 && ValidTerms(rest)
    requires AddChoice(n, response, rest, words, name, true).Some? && OneOf(words, token)
    ensures WellFormed(under) && Add(under, response, rest, true).Some?
    decreases |words|
  {
    OneOfCons(words, token);
    if Lower(words[0]) == Lower(token) {
      under := ChildOrNew(n, words[0], Some(name));
    } else {
      AddKeywordKeeps(n, response, rest, words[0], Some(name), true);
      under := ChoiceAddsUnder(AddKeyword(n, response, rest, words[0], Some(name), true).value, response, rest, words[1..], name, token);
    }
  }

  /** What was added with an optional word left out cannot be accepted with it as well. */
  lemma WaysApart(k: Node, response: int, rest: seq<Term>, words: seq<string>, name: string, tokens: seq<string>, strtod: Strtod)
    requires WellFormed(k) && k.kind.Keywords? && response != 0 && ValidTerms(rest)
    requires Add(k, response, rest, true).Some?
    requires AddChoice(Add(k, response, rest, true).value, response, rest, words, name, true).Some?
    ensures ValidTerms([Choice(false, name, words)] + rest)
    ensures !(Accepts(rest, tokens, strtod) && Accepts([Choice(false, name, words)] + rest, tokens, strtod))
  {
    AddExtends(k, response, rest, tokens, strtod);
    AddKeeps(k, response, rest, true);
    AddChoiceExtends(Add(k, response, rest, true).value, response, rest, words, name, tokens, strtod);
  }

  /** No command line is accepted both in a way that strays and in one that does not: a command is
      added to one node once. */
  lemma {:induction false} OnlyOneWay(n: Node, response: int, m: Node, terms: seq<Term>, tokens: seq<string>, strtod: Strtod)
    requires WellFormed(n) && response != 0 && ValidTerms(terms) && Add(n, response, Erase(terms), true).Some?
    requires WellFormed(m) && Covers(m, Erase(terms), strtod) && Reached(m, tokens, strtod)
    requires Accepts(terms, tokens, strtod)
    ensures !Strays(terms, tokens, strtod)
    decreases |terms|, 1
  {
    if terms != [] && tokens != [] && !terms[0].Ellipsis? && !terms[0].Choice? {
      var rest := terms[1..];
      EraseRest(terms);
      var child := ReachedChild(m, tokens, strtod);
      ConsumedForgetful(m, terms, tokens, strtod);
      CoversBelow(m, child, Erase(terms), tokens[0], strtod);
      OnlyOneWay(AddsUnder(n, response, Erase(terms)), response, child, rest, tokens[1..], strtod);
    } else if terms != [] && terms[0].Choice? {
      OnlyOneChoice(n, response, m, terms, tokens, strtod);
    }
  }

  /** The node under which the rest of a pattern was added. */
  function AddsUnder(n: Node, response: int, terms: seq<Term>): (under: Node)
    requires WellFormed(n) && ValidTerms(terms) && Add(n, response, terms, true).Some? && response != 0
    requires terms != [] && !terms[0].Ellipsis? && !terms[0].Choice?
    ensures WellFormed(under) && Add(under, response, terms[1..], true).Some?
  {
    assert terms[0].OptionalFillIn? ==> AddFillIn(n.(response := response), response, terms[0].blank, terms[1..], true).Some?;
    assert terms[0].FillIn? ==> AddFillIn(n, response, terms[0].blank, terms[1..], true).Some?;
    assert terms[0].Keyword? ==> AddKeyword(n.(kind := Keywords), response, terms[1..], terms[0].word, None, true).Some?;
    match terms[0]
    case Keyword(word) => ChildOrNew(n.(kind := Keywords), word, None)
    case FillIn(blank) => if n.kind.Value? then n.children[0] else NewNode(blank.shown, false)
    case OptionalFillIn(blank) => if n.kind.Value? then n.children[0] else NewNode(blank.shown, false)
  }

  lemma {:induction false} OnlyOneChoice(n: Node, response: int, m: Node, terms: seq<Term>, tokens: seq<string>, strtod: Strtod)
    requires WellFormed(n) && response != 0 && ValidTerms(terms) && Add(n, response, Erase(terms), true).Some?
    requires WellFormed(m) && Covers(m, Erase(terms), strtod) && Reached(m, tokens, strtod)
    requires terms != [] && terms[0].Choice? && Accepts(terms, tokens, strtod)
    ensures !Strays(terms, tokens, strtod)
    decreases |terms|, 0
  {
    var rest := terms[1..];
    var Choice(optional, name, words) := terms[0];
    EraseRest(terms);
    var k := n.(kind := Keywords);
    var required := [Choice(false, name, words)] + Erase(rest);
    assert required[1..] == Erase(rest);
    if tokens != [] && OneOf(words, tokens[0]) && Accepts(rest, tokens[1..], strtod) {
      var k' := if optional then Add(k, response, Erase(rest), true).value else k;
      if optional {
        AddKeeps(k, response, Erase(rest), true);
      }
      OnlyOneWord(k', response, m, terms, tokens, strtod);
    }
    if optional {
      WaysApart(k, response, Erase(rest), words, name, tokens, strtod);
      CoversSkipped(m, Erase(terms), strtod);
      if Accepts(rest, tokens, strtod) {
        AcceptsForgetful(m, rest, tokens, strtod);
        OnlyOneWay(k, response, m, rest, tokens, strtod);
      }
      if Strays(rest, tokens, strtod) {
        StraysAccepts(rest, tokens, strtod);
      }
    }
    if tokens != [] && Strays(rest, tokens[1..], strtod) {
      StraysAccepts(rest, tokens[1..], strtod);
    }
  }

  /** The same for a way that takes one of the words. */
  lemma {:induction false} OnlyOneWord(k: Node, response: int, m: Node, terms: seq<Term>, tokens: seq<string>, strtod: Strtod)
    requires WellFormed(k) && k.kind.Keywords? && response != 0 && ValidTerms(terms) && terms != [] && terms[0].Choice?
    requires AddChoice(k, response, Erase(terms[1..]), terms[0].words, terms[0].name, true).Some?
    requires WellFormed(m) && Covers(m, Erase(terms), strtod) && Reached(m, tokens, strtod)
    requires tokens != [] && OneOf(terms[0].words, tokens[0]) && Accepts(terms[1..], tokens[1..], strtod)
    ensures !Strays(terms[1..], tokens[1..], strtod) && Accepts(Erase(terms[1..]), tokens[1..], strtod)
    decreases |terms[1..]|, 2
  {
    var rest := terms[1..];
    EraseRest(terms);
    var child := ReachedChild(m, tokens, strtod);
    CoversBelow(m, child, Erase(terms), tokens[0], strtod);
    AcceptsForgetful(child, rest, tokens[1..], strtod);
    var under := ChoiceAddsUnder(k, response, Erase(rest), terms[0].words, terms[0].name, tokens[0]);
    OnlyOneWay(under, response, child, rest, tokens[1..], strtod);
  }

  // ---------------------------------------------------------------- the forgetful tree

  function Forgetful(d: Definition, strtod: Strtod): (r: seq<Term>)
    ensures ValidTerms(r)
  {
    Erase(TermsOf(d, strtod))
  }

  /** What the forgetful tree says of a definition at some tokens. */
  ghost predicate Serves(m: Node, d: Definition, tokens: seq<string>, strtod: Strtod)
    requires WellFormed(m)
  {
    && (forall e :: Expects(Forgetful(d, strtod), tokens, e, strtod) ==> Takes(m, tokens, e, strtod))
    && (Accepts(Forgetful(d, strtod), tokens, strtod) ==> Complete(m, tokens, strtod) == d.response)
  }

  /** Its pattern could be added somewhere. */
  ghost predicate Addable(d: Definition, strtod: Strtod) {
    exists n :: WellFormed(n) && Add(n, d.response, Forgetful(d, strtod), true).Some?
  }

  /** The forgetful tree serves all definitions, and no command line is for two of them. */
  ghost predicate ServesAll(m: Node, defs: seq<Definition>, tokens: seq<string>, strtod: Strtod)
    requires WellFormed(m)
  {
    && (forall d :: d in defs ==> Serves(m, d, tokens, strtod) && Addable(d, strtod))
    && (forall d, d' :: d in defs && d' in defs && d != d' ==>
          !(Accepts(Forgetful(d, strtod), tokens, strtod) && Accepts(Forgetful(d', strtod), tokens, strtod)))
  }

  lemma AddServes(n: Node, done: seq<Definition>, d: Definition, tokens: seq<string>, strtod: Strtod)
    requires WellFormed(n) && WellFormed(EraseNode(n)) && Numbered(done) && d.response > 0
    requires ServesAll(EraseNode(n), done, tokens, strtod)
    requires Add(n, d.response, TermsOf(d, strtod), false).Some?
    ensures var n' := Add(n, d.response, TermsOf(d, strtod), false).value;
            WellFormed(n') && WellFormed(EraseNode(n')) && ServesAll(EraseNode(n'), done + [d], tokens, strtod)
  {
    var n' := Add(n, d.response, TermsOf(d, strtod), false).value;
    var m, m' := EraseNode(n), EraseNode(n');
    AddKeeps(n, d.response, TermsOf(d, strtod), false);
    EraseAdd(n, d.response, TermsOf(d, strtod));
    AddExtendsForgetful(n, d.response, TermsOf(d, strtod), tokens, strtod);
    assert Addable(d, strtod);
    ExtendsServes(m, m', done, d, tokens, strtod);
  }

  lemma ExtendsServes(m: Node, m': Node, done: seq<Definition>, d: Definition, tokens: seq<string>, strtod: Strtod)
    requires WellFormed(m) && WellFormed(m') && Numbered(done) && d.response > 0 && Addable(d, strtod)
    requires ServesAll(m, done, tokens, strtod)
    requires Extends(m, m', d.response, Forgetful(d, strtod), tokens, strtod)
    ensures ServesAll(m', done + [d], tokens, strtod)
  {
    hide Addable, Forgetful, Accepts, Expects, Takes, Complete, Reached;
    forall x | x in done + [d]
      ensures Serves(m', x, tokens, strtod) && Addable(x, strtod)
    {
      assert x in done || x == d;
    }
    forall x, y | x in done + [d] && y in done + [d] && x != y
      ensures !(Accepts(Forgetful(x, strtod), tokens, strtod) && Accepts(Forgetful(y, strtod), tokens, strtod))
    {
      assert x in done || x == d;
      assert y in done || y == d;
    }
  }

  lemma {:induction false} AddAllServes(n: Node, done: seq<Definition>, defs: seq<Definition>, all: seq<Definition>,
                                        tokens: seq<string>, strtod: Strtod)
    requires WellFormed(n) && WellFormed(EraseNode(n)) && Numbered(all) && all == done + defs
    requires ServesAll(EraseNode(n), done, tokens, strtod) && AddAll(n, defs, false, strtod).Some?
    ensures var n' := AddAll(n, defs, false, strtod).value;
            WellFormed(n') && WellFormed(EraseNode(n')) && ServesAll(EraseNode(n'), all, tokens, strtod)
    decreases |defs|
  {
    hide ServesAll, WellFormed, EraseNode, Add, TermsOf;
    if defs == [] {
      assert all == done;
    } else {
      var d := defs[0];
      assert d in all && forall x :: x in done ==> x in all;
      assert all == done + [d] + defs[1..];
      AddServes(n, done, d, tokens, strtod);
      AddAllServes(Add(n, d.response, TermsOf(d, strtod), false).value, done + [d], defs[1..], all, tokens, strtod);
    }
  }

  lemma SortedTakes(m: Node, tokens: seq<string>, strtod: Strtod)
    requires WellFormed(m) && WellFormed(SortAll(m))
    ensures forall e :: Takes(SortAll(m), tokens, e, strtod) <==> Takes(m, tokens, e, strtod)
    ensures Complete(SortAll(m), tokens, strtod) == Complete(m, tokens, strtod)
  {
    SortKeepsNodes(m, tokens, strtod);
    hide WellFormed;
  }

  lemma SortedServes(m: Node, defs: seq<Definition>, tokens: seq<string>, strtod: Strtod)
    requires WellFormed(m) && WellFormed(SortAll(m)) && ServesAll(m, defs, tokens, strtod)
    ensures ServesAll(SortAll(m), defs, tokens, strtod)
  {
    SortedTakes(m, tokens, strtod);
    hide SortAll, WellFormed, Accepts, Expects, Addable, Takes, Complete, Forgetful;
  }

  lemma SortServes(n: Node, defs: seq<Definition>, tokens: seq<string>, strtod: Strtod)
    requires WellFormed(n) && WellFormed(EraseNode(n)) && ServesAll(EraseNode(n), defs, tokens, strtod)
    ensures WellFormed(SortAll(n)) && Sorted(SortAll(n)) && WellFormed(EraseNode(SortAll(n)))
    ensures ServesAll(EraseNode(SortAll(n)), defs, tokens, strtod)
  {
    hide *;
    SortAllSorts(n);
    EraseSortAll(n);
    var m := EraseNode(n);
    SortAllSorts(m);
    SortedServes(m, defs, tokens, strtod);
  }

  lemma {:induction false} AddSetsServes(n: Node, done: seq<Definition>, sets: seq<seq<Definition>>, all: seq<Definition>,
                                         tokens: seq<string>, strtod: Strtod)
    requires WellFormed(n) && Sorted(n) && WellFormed(EraseNode(n)) && Numbered(all) && all == done + Flatten(sets)
    requires ServesAll(EraseNode(n), done, tokens, strtod) && AddSets(n, sets, false, strtod).Some?
    ensures var n' := AddSets(n, sets, false, strtod).value;
            WellFormed(n') && Sorted(n') && WellFormed(EraseNode(n')) && ServesAll(EraseNode(n'), all, tokens, strtod)
    decreases |sets|
  {
    hide ServesAll, WellFormed, Sorted, EraseNode, SortAll, AddAll;
    if sets == [] {
      assert all == done;
    } else {
      var first := done + sets[0];
      assert forall x :: x in first ==> x in all;
      assert all == first + Flatten(sets[1..]);
      var n1 := AddAll(n, sets[0], false, strtod).value;
      AddAllServes(n, done, sets[0], first, tokens, strtod);
      SortServes(n1, first, tokens, strtod);
      AddSetsServes(SortAll(n1), first, sets[1..], all, tokens, strtod);
    }
  }

  lemma EmptyServes(tokens: seq<string>, strtod: Strtod)
    ensures WellFormed(EmptyParser) && Sorted(EmptyParser) && WellFormed(EraseNode(EmptyParser))
    ensures ServesAll(EraseNode(EmptyParser), [], tokens, strtod)
  {
    NewErased("", false);
  }

  /** The tree the C code builds, with radices forgotten, serves all definitions with theirs forgotten. */
  lemma CompiledServes(sets: seq<seq<Definition>>, tokens: seq<string>, strtod: Strtod)
    requires Numbered(Flatten(sets)) && Compile(sets, false, strtod).Some?
    ensures var n := Compile(sets, false, strtod).value;
            WellFormed(n) && Sorted(n) && WellFormed(EraseNode(n)) && ServesAll(EraseNode(n), Flatten(sets), tokens, strtod)
  {
    EmptyServes(tokens, strtod);
    hide ServesAll, WellFormed, Sorted, EraseNode, AddSets, Flatten;
    assert [] + Flatten(sets) == Flatten(sets);
    AddSetsServes(EmptyParser, [], sets, Flatten(sets), tokens, strtod);
  }

  // ---------------------------------------------------------------- tokens that read alike, along the real tree

  function EraseExpectation(e: Expectation): Expectation {
    match e
    case AValue(spec) => AValue(EraseSpec(spec))
    case _ => e
  }

  predicate Allows(e: Expectation, token: string, strtod: Strtod) {
    e.AValue? ==> ValidSpec(e.spec) && FitOf(e.spec, token, strtod) == Fits
  }

  /** What the pattern asks for at each step of a command line it accepts. */
  lemma {:induction false} NextStep(terms: seq<Term>, tokens: seq<string>, k: nat, strtod: Strtod) returns (e: Expectation)
    requires ValidTerms(terms) && AcceptsAlike(terms, tokens, strtod) && k < |tokens|
    ensures Expects(terms, tokens[..k], e, strtod) && Allows(e, tokens[k], strtod)
    ensures Expects(Erase(terms), tokens[..k], EraseExpectation(e), strtod)
    decreases |terms|
  {
    var rest := terms[1..];
    EraseRest(terms);
    if terms[0].Choice? && terms[0].optional && AcceptsAlike(rest, tokens, strtod) {
      e := NextStep(rest, tokens, k, strtod);
    } else if terms[0].Ellipsis? {
      e := Anything;
    } else if k == 0 {
      assert tokens[..0] == [];
      e := if terms[0].FillIn? || terms[0].OptionalFillIn? then AValue(terms[0].blank.spec) else AKeyword;
    } else {
      e := NextStep(rest, tokens[1..], k - 1, strtod);
      assert tokens[..k][0] == tokens[0] && tokens[..k][1..] == tokens[1..][..k - 1];
    }
  }

  /** No decimal blank in the tree is asked to detect the radix. */
  ghost predicate NoTenForAny(n: Node, terms: seq<Term>, strtod: Strtod)
    requires WellFormed(n) && ValidTerms(terms)
  {
    forall p, taken, asked :: !TenForAny(n, terms, p, taken, asked, strtod)
  }

  lemma ErasedChild(m: Node, token: string, strtod: Strtod)
    requires WellFormed(m) && WellFormed(EraseNode(m)) && ChildFor(EraseNode(m), token, strtod).Some?
    requires m.kind.Value? ==> FitOf(m.kind.spec, token, strtod) == Fits
    ensures ChildFor(m, token, strtod).Some?
    ensures EraseNode(ChildFor(m, token, strtod).value) == ChildFor(EraseNode(m), token, strtod).value
  {
    EraseKeys(m);
  }

  /** The tree takes the next token if it reads alike and the pattern allows it there. */
  lemma TakesNext(n: Node, terms: seq<Term>, p: seq<string>, m: Node, e: Expectation, token: string, strtod: Strtod)
    requires WellFormed(n) && ValidTerms(terms) && NoTenForAny(n, terms, strtod)
    requires WellFormed(m) && NodeAt(n, p, strtod) == Some(m) && m.kind.Value?
    requires Expects(terms, p, e, strtod) && Allows(e, token, strtod) && EraseExpectation(e) == AValue(EraseSpec(m.kind.spec))
    requires FitOf(EraseSpec(m.kind.spec), token, strtod) == Fits
    ensures FitOf(m.kind.spec, token, strtod) == Fits
  {
    var spec := m.kind.spec;
    assert Takes(n, p, AValue(spec), strtod);
    if spec.IntRange? && spec.radix == 10 && e.spec.radix == 0 {
      assert TenForAny(n, terms, p, spec, e.spec, strtod);
    }
    assert e.spec == spec || EraseSpec(spec) == spec;
  }

  /** Along a command line whose tokens read alike, the tree leads where it leads with radices forgotten. */
  lemma {:induction false} WalksAlike(n: Node, terms: seq<Term>, tokens: seq<string>, k: nat, strtod: Strtod)
    requires WellFormed(n) && WellFormed(EraseNode(n)) && ValidTerms(terms) && NoTenForAny(n, terms, strtod)
    requires Covers(EraseNode(n), Erase(terms), strtod) && Reached(EraseNode(n), tokens, strtod)
    requires AcceptsAlike(terms, tokens, strtod) && k <= |tokens|
    ensures Reached(n, tokens[..k], strtod)
    ensures NodeAt(EraseNode(n), tokens[..k], strtod) == Some(EraseNode(NodeAt(n, tokens[..k], strtod).value))
    decreases k
  {
    if k == 0 {
      assert tokens[..0] == [];
    } else {
      var p, token := tokens[..k - 1], tokens[k - 1];
      assert tokens[..k] == p + [token];
      WalksAlike(n, terms, tokens, k - 1, strtod);
      ReachedPrefix(EraseNode(n), tokens, k, strtod);
      WalksOn(n, terms, tokens, k - 1, strtod);
    }
  }

  lemma WalksOn(n: Node, terms: seq<Term>, tokens: seq<string>, k: nat, strtod: Strtod)
    requires WellFormed(n) && WellFormed(EraseNode(n)) && ValidTerms(terms) && NoTenForAny(n, terms, strtod)
    requires Covers(EraseNode(n), Erase(terms), strtod) && AcceptsAlike(terms, tokens, strtod) && k < |tokens|
    requires Reached(n, tokens[..k], strtod) && Reached(EraseNode(n), tokens[..k] + [tokens[k]], strtod)
    requires NodeAt(EraseNode(n), tokens[..k], strtod) == Some(EraseNode(NodeAt(n, tokens[..k], strtod).value))
    ensures var q := tokens[..k] + [tokens[k]];
            Reached(n, q, strtod) && NodeAt(EraseNode(n), q, strtod) == Some(EraseNode(NodeAt(n, q, strtod).value))
  {
    var p, token := tokens[..k], tokens[k];
    var m := NodeAt(n, p, strtod).value;
    NodeAtConcat(n, p, [token], strtod);
    NodeAtConcat(EraseNode(n), p, [token], strtod);
    NodeAtOne(m, token, strtod);
    EraseWellFormed(m);
    NodeAtOne(EraseNode(m), token, strtod);
    var e := NextStep(terms, tokens, k, strtod);
    assert Takes(EraseNode(n), p, EraseExpectation(e), strtod);
    if m.kind.Value? {
      TakesNext(n, terms, p, m, e, token, strtod);
    }
    ErasedChild(m, token, strtod);
  }

  // ---------------------------------------------------------------- a detecting blank where decimal is asked for

  lemma ServesCovers(n: Node, defs: seq<Definition>, d: Definition, strtod: Strtod)
    requires WellFormed(EraseNode(n)) && d in defs && forall q :: ServesAll(EraseNode(n), defs, q, strtod)
    ensures Covers(EraseNode(n), Forgetful(d, strtod), strtod)
  {
    hide EraseNode, Forgetful, Expects, Takes, Accepts, Complete, Addable;
    forall p, e | Expects(Forgetful(d, strtod), p, e, strtod)
      ensures Takes(EraseNode(n), p, e, strtod)
    {
      assert ServesAll(EraseNode(n), defs, p, strtod);
      assert Serves(EraseNode(n), d, p, strtod);
    }
  }

  /** The command line with its number in decimal completes the definition's command in the real tree. */
  lemma DecimalCompletes(n: Node, defs: seq<Definition>, d: Definition, tokens: seq<string>, strtod: Strtod)
    requires WellFormed(n) && WellFormed(EraseNode(n)) && Numbered(defs) && d in defs
    requires forall q :: ServesAll(EraseNode(n), defs, q, strtod)
    requires NoTenForAny(n, TermsOf(d, strtod), strtod) && AcceptsAlike(TermsOf(d, strtod), tokens, strtod)
    ensures Complete(n, tokens, strtod) == d.response
  {
    var terms := TermsOf(d, strtod);
    ServesCovers(n, defs, d, strtod);
    AlikeAccepts(terms, tokens, strtod);
    assert ServesAll(EraseNode(n), defs, tokens, strtod);
    assert Serves(EraseNode(n), d, tokens, strtod);
    hide ServesAll, Serves, TermsOf, AcceptsAlike, Accepts, NoTenForAny, Covers;
    WalksAlike(n, terms, tokens, |tokens|, strtod);
    assert tokens[..|tokens|] == tokens;
  }

  /** Where two tokens both fit the blank, they lead to the same command. */
  lemma SameCommand(n: Node, p: seq<string>, spec: ValueSpec, a: string, b: string, ext: seq<string>, strtod: Strtod)
    requires WellFormed(n) && Takes(n, p, AValue(spec), strtod) && ValidSpec(spec)
    requires FitOf(spec, a, strtod) == Fits && FitOf(spec, b, strtod) == Fits
    ensures Complete(n, p + [a] + ext, strtod) == Complete(n, p + [b] + ext, strtod)
  {
    var m := NodeAt(n, p, strtod).value;
    NodeAtConcat(n, p, [a], strtod);
    NodeAtConcat(n, p, [b], strtod);
    NodeAtOne(m, a, strtod);
    NodeAtOne(m, b, strtod);
    NodeAtConcat(n, p + [a], ext, strtod);
    NodeAtConcat(n, p + [b], ext, strtod);
  }

  /** No definition allows a command line along which the forgetful pattern of one strays. */
  lemma StrayedIsNoCommand(n: Node, defs: seq<Definition>, d: Definition, tokens: seq<string>, r: int, strtod: Strtod)
    requires WellFormed(EraseNode(n)) && Numbered(defs) && d in defs
    requires forall q :: ServesAll(EraseNode(n), defs, q, strtod)
    requires Strays(TermsOf(d, strtod), tokens, strtod)
    ensures !SomeAccepts(defs, tokens, r, strtod)
  {
    StraysAccepts(TermsOf(d, strtod), tokens, strtod);
    assert ServesAll(EraseNode(n), defs, tokens, strtod);
    assert Serves(EraseNode(n), d, tokens, strtod);
    if d' :| d' in defs && d'.response == r && Accepts(TermsOf(d', strtod), tokens, strtod) {
      ServesCovers(n, defs, d', strtod);
      hide TermsOf, EraseNode;
      AcceptsForgetful(EraseNode(n), TermsOf(d', strtod), tokens, strtod);
      if d' == d {
        assert Addable(d, strtod);
        var m :| WellFormed(m) && Add(m, d.response, Forgetful(d, strtod), true).Some?;
        OnlyOneWay(m, d.response, EraseNode(n), TermsOf(d, strtod), tokens, strtod);
      }
    }
  }

  /** A command with its number in hexadecimal is accepted though no definition allows it. */
  lemma AnyMisreads(n: Node, defs: seq<Definition>, d: Definition, p: seq<string>, taken: ValueSpec, asked: ValueSpec, strtod: Strtod)
    returns (tokens: seq<string>, o: Outcome)
    requires WellFormed(n) && Sorted(n) && WellFormed(EraseNode(n)) && Numbered(defs) && d in defs
    requires forall q :: ServesAll(EraseNode(n), defs, q, strtod)
    requires Live(TermsOf(d, strtod), strtod) && NoTenForAny(n, TermsOf(d, strtod), strtod)
    requires Clash(n, TermsOf(d, strtod), p, taken, asked, strtod)
    requires taken.IntRange? && taken.radix == 0 && asked.IntRange? && asked.radix == 10 && Satisfiable(asked, strtod)
    ensures Wrong(n, defs, tokens, o, strtod)
  {
    var terms := TermsOf(d, strtod);
    var v := RangeHasNumber(asked, strtod);
    var ext := AskedStrays(terms, p, asked, v, strtod);
    var decimal := p + [Decimal(v)] + ext;
    tokens := p + [Hexadecimal(v)] + ext;
    NumberStrays(asked, v, strtod);
    hide Decimal, Hexadecimal, TermsOf, ServesAll, NoTenForAny, Live;
    DecimalCompletes(n, defs, d, decimal, strtod);
    assert taken == EraseSpec(asked);
    SameCommand(n, p, taken, Decimal(v), Hexadecimal(v), ext, strtod);
    o := Interpret(n, tokens, strtod);
    CompletesAccepted(n, tokens, strtod);
    StrayedIsNoCommand(n, defs, d, tokens, o.response, strtod);
  }

  lemma CompletesAccepted(n: Node, tokens: seq<string>, strtod: Strtod)
    requires WellFormed(n) && Sorted(n) && Complete(n, tokens, strtod) != 0
    ensures Interpret(n, tokens, strtod).Accepted?
  {
    var o := Interpret(n, tokens, strtod);
    InterpretVerdict(n, tokens, strtod);
    if !o.Accepted? && !o.Incomplete? {
      StopsNotReached(n, tokens, o.at, strtod);
    }
  }

  // ---------------------------------------------------------------- exactly when outcomes are right

  lemma {:induction false} AskedIsFillable(terms: seq<Term>, p: seq<string>, spec: ValueSpec, strtod: Strtod)
    requires ValidTerms(terms) && Fillable(terms, strtod) && Expects(terms, p, AValue(spec), strtod)
    ensures ValidSpec(spec) && Satisfiable(spec, strtod)
    decreases |terms|
  {
    var rest := terms[1..];
    assert terms[0] in terms && forall t :: t in rest ==> t in terms;
    if terms[0].Choice? && terms[0].optional && Expects(rest, p, AValue(spec), strtod) {
      AskedIsFillable(rest, p, spec, strtod);
    } else if p != [] {
      AskedIsFillable(rest, p[1..], spec, strtod);
    }
  }

  lemma DefinitionLive(defs: seq<Definition>, d: Definition, strtod: Strtod)
    requires Stable(strtod) && WellMade(defs, strtod) && d in defs
    ensures Live(TermsOf(d, strtod), strtod)
  {
    DefinitionFillable(d, strtod);
  }

  /** If blanks that differ in radix were merged, fb_interpret goes wrong on some command line. */
  lemma MergedGoesWrong(sets: seq<seq<Definition>>, strtod: Strtod) returns (tokens: seq<string>, o: Outcome)
    requires Stable(strtod) && Numbered(Flatten(sets)) && WellMade(Flatten(sets), strtod)
    requires Compile(sets, false, strtod).Some? && Compile(sets, true, strtod).None?
    ensures WellFormed(Compile(sets, false, strtod).value)
    ensures Wrong(Compile(sets, false, strtod).value, Flatten(sets), tokens, o, strtod)
  {
    var n, defs := Compile(sets, false, strtod).value, Flatten(sets);
    var d, p, taken, asked := RefusedSetsClash(EmptyParser, sets, strtod);
    forall q
      ensures WellFormed(n) && Sorted(n) && WellFormed(EraseNode(n)) && ServesAll(EraseNode(n), defs, q, strtod)
    {
      CompiledServes(sets, q, strtod);
    }
    var terms := TermsOf(d, strtod);
    hide Compile, TermsOf, WellFormed, Sorted, EraseNode, ServesAll, Live, WellMade, Flatten;
    CompiledServes(sets, [], strtod);
    DefinitionFillable(d, strtod);
    DefinitionLive(defs, d, strtod);
    if NoTenForAny(n, terms, strtod) {
      AsksExpects(terms, p, asked, strtod);
      AskedIsFillable(terms, p, asked, strtod);
      TakenIsValid(n, p, taken, strtod);
      hide NoTenForAny;
      assert !TenForAny(n, terms, p, taken, asked, strtod) by {
        NoneIsNone(n, terms, p, taken, asked, strtod);
      }
      tokens, o := AnyMisreads(n, defs, d, p, taken, asked, strtod);
    } else {
      var q, taken', asked' :| TenForAny(n, terms, q, taken', asked', strtod);
      AskedIsFillable(terms, q, asked', strtod);
      tokens, o := TenMisreads(n, defs, d, q, taken', asked', strtod);
    }
  }

  lemma NoneIsNone(n: Node, terms: seq<Term>, p: seq<string>, taken: ValueSpec, asked: ValueSpec, strtod: Strtod)
    requires WellFormed(n) && ValidTerms(terms) && NoTenForAny(n, terms, strtod)
    ensures !TenForAny(n, terms, p, taken, asked, strtod)
  {
  }

  lemma TakenIsValid(n: Node, p: seq<string>, taken: ValueSpec, strtod: Strtod)
    requires WellFormed(n) && Takes(n, p, AValue(taken), strtod)
    ensures ValidSpec(taken)
  {
  }

  /** fb_interpret gives the outcomes the definitions explain, on all command lines, exactly when
      comparing the radix too would have refused no definition. */
  lemma OutcomesRightIffNoRadixMerged(sets: seq<seq<Definition>>, strtod: Strtod)
    requires Stable(strtod) && Numbered(Flatten(sets)) && WellMade(Flatten(sets), strtod)
    requires Compile(sets, false, strtod).Some?
    ensures WellFormed(Compile(sets, false, strtod).value)
    ensures Compile(sets, true, strtod).Some? <==>
            forall tokens, o :: Explains(Flatten(sets), tokens, o, strtod) <==>
                                SameOutcome(o, Interpret(Compile(sets, false, strtod).value, tokens, strtod))
  {
    CompiledServes(sets, [], strtod);
    if Compile(sets, true, strtod).Some? {
      AddSetsLax(EmptyParser, sets, strtod);
      forall tokens, o
        ensures Explains(Flatten(sets), tokens, o, strtod) <==>
                SameOutcome(o, Interpret(Compile(sets, false, strtod).value, tokens, strtod))
      {
        InterpretIsExact(sets, tokens, o, strtod);
      }
    } else {
      var tokens, o := MergedGoesWrong(sets, strtod);
      assert Wrong(Compile(sets, false, strtod).value, Flatten(sets), tokens, o, strtod);
    }
  }
}
