/** The tree the C code builds, with all radices forgotten. Merging blanks that differ in radix only
    (src/libfootball/fb_parser.c:370-383) is no merging of different blanks then, so the forgetful tree
    means exactly what the forgetful patterns mean. */
module RadixErasure {
  import opened Basics
  import opened CStrings
  import opened Patterns
  import opened CommandTrie
  import opened CommandParser
  import opened NumberTexts

  // ---------------------------------------------------------------- forgetting radices

  function EraseSpec(spec: ValueSpec): (r: ValueSpec)
    ensures ValidSpec(r)
  {
    if spec.IntRange? then spec.(radix := 0) else spec
  }

  function EraseBlank(blank: Blank): Blank {
    blank.(spec := EraseSpec(blank.spec))
  }

  function EraseTerm(t: Term): Term {
    match t
    case FillIn(blank) => FillIn(EraseBlank(blank))
    case OptionalFillIn(blank) => OptionalFillIn(EraseBlank(blank))
    case _ => t
  }

  function Erase(terms: seq<Term>): (r: seq<Term>)
    ensures |r| == |terms| && ValidTerms(r)
  {
    seq(|terms|, i requires 0 <= i < |terms| => EraseTerm(terms[i]))
  }

  function EraseKind(kind: Kind): Kind {
    match kind
    case Value(spec) => Value(EraseSpec(spec))
    case _ => kind
  }

  function EraseNode(n: Node): Node
    decreases n, 1
  {
    n.(kind := EraseKind(n.kind), children := EraseEach(n))
  }

  function EraseEach(n: Node): (r: seq<Node>)
    ensures |r| == |n.children|
    ensures forall i :: 0 <= i < |r| ==> r[i] == EraseNode(n.children[i])
    decreases n, 0
  {
    seq(|n.children|, i requires 0 <= i < |n.children| => EraseNode(n.children[i]))
  }

  lemma EraseRest(terms: seq<Term>)
    requires terms != []
    ensures Erase(terms)[0] == EraseTerm(terms[0]) && Erase(terms)[1..] == Erase(terms[1..])
  {
  }

  lemma EraseKeys(n: Node)
    ensures Keys(EraseNode(n).children) == Keys(n.children)
  {
  }

  lemma {:induction false} EraseWellFormed(n: Node)
    requires WellFormed(n)
    ensures WellFormed(EraseNode(n)) && (Settled(n) ==> Settled(EraseNode(n)))
    decreases n
  {
    EraseKeys(n);
    forall i | 0 <= i < |n.children|
      ensures WellFormed(EraseEach(n)[i]) && Settled(EraseEach(n)[i])
    {
      EraseWellFormed(n.children[i]);
    }
  }

  lemma EraseSame(a: ValueSpec, b: ValueSpec)
    ensures SameSpec(a, b) ==> EraseSpec(a) == EraseSpec(b)
  {
  }

  lemma EraseKindOf(n: Node, kind: Kind)
    ensures EraseNode(n.(kind := kind)) == EraseNode(n).(kind := EraseKind(kind))
    ensures EraseNode(n).kind == EraseKind(n.kind)
  {
    assert EraseEach(n.(kind := kind)) == EraseEach(n);
  }

  lemma EraseMarks(n: Node, name: Option<string>, response: int)
    ensures EraseNode(n.(name := name, response := response)) == EraseNode(n).(name := name, response := response)
  {
    assert EraseEach(n.(name := name, response := response)) == EraseEach(n);
  }

  lemma EraseChildren(n: Node, children: seq<Node>)
    ensures EraseNode(n.(children := children)).children == seq(|children|, i requires 0 <= i < |children| => EraseNode(children[i]))
    ensures EraseNode(n.(children := children)) == EraseNode(n).(children := EraseNode(n.(children := children)).children)
  {
  }

  // ---------------------------------------------------------------- adding

  /** What the C code adds, forgetfully. */
  lemma {:induction false} EraseAdd(n: Node, response: int, terms: seq<Term>)
    requires Add(n, response, terms, false).Some?
    ensures Add(EraseNode(n), response, Erase(terms), true) == Some(EraseNode(Add(n, response, terms, false).value))
    decreases |terms|, 0, 0
  {
    if terms == [] {
      EraseMarks(n, n.name, response);
    } else {
      var rest := terms[1..];
      EraseRest(terms);
      EraseKindOf(n, Keywords);
      match terms[0] {
        case Keyword(word) => EraseAddKeyword(n.(kind := Keywords), response, rest, word, None);
        case Choice(optional, name, words) =>
          var k := n.(kind := Keywords);
          if optional {
            EraseAdd(k, response, rest);
          }
          EraseAddChoice(if optional then Add(k, response, rest, false).value else k, response, rest, words, name);
        case FillIn(blank) => EraseAddFillIn(n, response, blank, rest);
        case OptionalFillIn(blank) =>
          EraseMarks(n, n.name, response);
          EraseEllipsis(rest);
          EraseAddFillIn(n.(response := response), response, blank, rest);
        case Ellipsis =>
          EraseMarks(n.(kind := OpenEnd), n.name, response);
          EraseKindOf(n, OpenEnd);
        case Invalid =>
      }
    }
  }

  lemma EraseEllipsis(rest: seq<Term>)
    requires rest == [] || rest == [Ellipsis]
    ensures Erase(rest) == rest
  {
  }

  lemma {:induction false} EraseAddChoice(n: Node, response: int, rest: seq<Term>, words: seq<string>, name: string)
    requires AddChoice(n, response, rest, words, name, false).Some?
    ensures AddChoice(EraseNode(n), response, Erase(rest), words, name, true)
            == Some(EraseNode(AddChoice(n, response, rest, words, name, false).value))
    decreases |rest|, 2, |words|
  {
    if words != [] {
      EraseAddKeyword(n, response, rest, words[0], Some(name));
      EraseAddChoice(AddKeyword(n, response, rest, words[0], Some(name), false).value, response, rest, words[1..], name);
    }
  }

  lemma {:induction false} EraseAddKeyword(n: Node, response: int, rest: seq<Term>, word: string, name: Option<string>)
    requires AddKeyword(n, response, rest, word, name, false).Some?
    ensures AddKeyword(EraseNode(n), response, Erase(rest), word, name, true)
            == Some(EraseNode(AddKeyword(n, response, rest, word, name, false).value))
    decreases |rest|, 1, 0
  {
    var n' := AddKeyword(n, response, rest, word, name, false).value;
    var named := if name.Some? then n.(name := name) else n;
    EraseKeys(n);
    EraseMarks(n, named.name, n.response);
    EraseChildren(named, n'.children);
    match LFind(Keys(n.children), Lower(word), 0) {
      case None =>
        NewErased(word, name.Some?);
        EraseAdd(NewNode(word, name.Some?), response, rest);
        assert EraseNode(n').children == EraseNode(n).children + [EraseNode(n'.children[|n.children|])];
      case Some(i) =>
        EraseAdd(n.children[i], response, rest);
        assert EraseNode(n').children == EraseNode(n).children[i := EraseNode(n'.children[i])];
    }
  }

  lemma NewErased(word: string, isNamed: bool)
    ensures EraseNode(NewNode(word, isNamed)) == NewNode(word, isNamed)
  {
  }

  lemma {:induction false} EraseAddFillIn(n: Node, response: int, blank: Blank, rest: seq<Term>)
    requires AddFillIn(n, response, blank, rest, false).Some?
    ensures AddFillIn(EraseNode(n), response, EraseBlank(blank), Erase(rest), true)
            == Some(EraseNode(AddFillIn(n, response, blank, rest, false).value))
    decreases |rest|, 1, 0
  {
    var n' := AddFillIn(n, response, blank, rest, false).value;
    if n.kind.Value? {
      EraseSame(n.kind.spec, blank.spec);
      EraseAdd(n.children[0], response, rest);
      assert EraseNode(n').children == [EraseNode(n'.children[0])];
    } else {
      NewErased(blank.shown, false);
      EraseAdd(NewNode(blank.shown, false), response, rest);
      assert EraseNode(n').children == [EraseNode(n'.children[0])];
    }
  }

  /** The C code's own adding, with radices forgotten, adds what the pattern means and nothing else. */
  lemma AddExtendsForgetful(n: Node, response: int, terms: seq<Term>, tokens: seq<string>, strtod: Strtod)
    requires WellFormed(n) && response != 0 && ValidTerms(terms) && Add(n, response, terms, false).Some?
    ensures WellFormed(EraseNode(n)) && WellFormed(EraseNode(Add(n, response, terms, false).value))
    ensures Extends(EraseNode(n), EraseNode(Add(n, response, terms, false).value), response, Erase(terms), tokens, strtod)
  {
    AddKeeps(n, response, terms, false);
    EraseWellFormed(n);
    EraseWellFormed(Add(n, response, terms, false).value);
    EraseAdd(n, response, terms);
    AddExtends(EraseNode(n), response, Erase(terms), tokens, strtod);
  }

  // ---------------------------------------------------------------- sorting

  function EraseNodes(s: seq<Node>): (r: seq<Node>)
    ensures |r| == |s|
  {
    seq(|s|, i requires 0 <= i < |s| => EraseNode(s[i]))
  }

  lemma {:induction false} EraseInsert(x: Node, s: seq<Node>)
    ensures EraseNodes(Insert(x, s)) == Insert(EraseNode(x), EraseNodes(s))
  {
    if s == [] || Compare(Key(x), Key(s[0])) <= 0 {
      assert EraseNodes([x] + s) == [EraseNode(x)] + EraseNodes(s);
    } else {
      EraseInsert(x, s[1..]);
      assert EraseNodes([s[0]] + Insert(x, s[1..])) == [EraseNode(s[0])] + EraseNodes(Insert(x, s[1..]));
      assert EraseNodes(s)[1..] == EraseNodes(s[1..]);
    }
  }

  lemma {:induction false} EraseSortByKey(s: seq<Node>)
    ensures EraseNodes(SortByKey(s)) == SortByKey(EraseNodes(s))
  {
    if s != [] {
      EraseSortByKey(s[1..]);
      EraseInsert(s[0], SortByKey(s[1..]));
      assert EraseNodes(s)[1..] == EraseNodes(s[1..]);
    }
  }

  /** Sorting and forgetting radices are independent. */
  lemma {:induction false} EraseSortAll(n: Node)
    ensures EraseNode(SortAll(n)) == SortAll(EraseNode(n))
    decreases n
  {
    forall i | 0 <= i < |n.children|
      ensures EraseNode(SortAll(n.children[i])) == SortAll(EraseNode(n.children[i]))
    {
      EraseSortAll(n.children[i]);
    }
    assert EraseNodes(SortEach(n)) == SortEach(EraseNode(n));
    EraseSortByKey(SortEach(n));
    assert EraseEach(SortAll(n)) == EraseNodes(SortByKey(SortEach(n)));
  }

  // ---------------------------------------------------------------- tokens read alike

  /** A token that fits whether the blank's radix is remembered or not. */
  predicate FitsAlike(spec: ValueSpec, token: string, strtod: Strtod)
    requires ValidSpec(spec)
  {
    FitOf(spec, token, strtod) == Fits && FitOf(EraseSpec(spec), token, strtod) == Fits
  }

  /** Every blank that can be filled in can be so with such a token: a decimal number, if it is a range. */
  lemma AlikeToken(spec: ValueSpec, strtod: Strtod) returns (token: string)
    requires ValidSpec(spec) && Satisfiable(spec, strtod)
    ensures FitsAlike(spec, token, strtod)
  {
    if spec.IntRange? {
      var v := RangeHasNumber(spec, strtod);
      ReadsDecimal(v, 0);
      ReadsDecimal(v, 10);
      hide Strtol, Decimal;
      token := Decimal(v);
    } else {
      token :| FitOf(spec, token, strtod) == Fits;
    }
  }

  /** After `tokens`, all of which read alike, the pattern asks for a value. */
  predicate Asks(terms: seq<Term>, tokens: seq<string>, spec: ValueSpec, strtod: Strtod)
    requires ValidTerms(terms)
    decreases |terms|
  {
    if terms == [] then false
    else
      var rest := terms[1..];
      match terms[0]
      case Keyword(w) => tokens != [] && Lower(tokens[0]) == Lower(w) && Asks(rest, tokens[1..], spec, strtod)
      case Choice(optional, _, words) =>
        || (optional && Asks(rest, tokens, spec, strtod))
        || (tokens != [] && OneOf(words, tokens[0]) && Asks(rest, tokens[1..], spec, strtod))
      case FillIn(b) =>
        if tokens == [] then spec == b.spec else FitsAlike(b.spec, tokens[0], strtod) && Asks(rest, tokens[1..], spec, strtod)
      case OptionalFillIn(b) =>
        if tokens == [] then spec == b.spec else FitsAlike(b.spec, tokens[0], strtod) && Asks(rest, tokens[1..], spec, strtod)
      case Ellipsis => false
      case Invalid => false
  }

  lemma {:induction false} AsksExpects(terms: seq<Term>, tokens: seq<string>, spec: ValueSpec, strtod: Strtod)
    requires ValidTerms(terms) && Asks(terms, tokens, spec, strtod)
    ensures Expects(terms, tokens, AValue(spec), strtod)
    decreases |terms|
  {
    var rest := terms[1..];
    if terms[0].Choice? && terms[0].optional && Asks(rest, tokens, spec, strtod) {
      AsksExpects(rest, tokens, spec, strtod);
    } else if tokens != [] {
      AsksExpects(rest, tokens[1..], spec, strtod);
    }
  }
}
