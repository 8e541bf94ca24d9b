/** Two blanks are taken for the same one when their type, range and name agree
    (src/libfootball/fb_parser.c:370-383). Their radix is not compared, so `{#n:1-9}` and
    `{#n:01-9}` share a node that reads numbers the way whichever came first does. Here: strict
    adding refuses exactly the adds that make the tree take something else than the pattern says. */
module RadixClash {
  import opened Basics
  import opened CStrings
  import opened Patterns
  import opened CommandTrie
  import opened RadixErasure

  // ---------------------------------------------------------------- strict adding only refuses

  lemma {:induction false} StrictIsLax(n: Node, response: int, terms: seq<Term>)
    requires Add(n, response, terms, true).Some?
    ensures Add(n, response, terms, false) == Add(n, response, terms, true)
    decreases |terms|, 0, 0
  {
    if terms != [] {
      var rest := terms[1..];
      match terms[0]
      case Keyword(word) => StrictIsLaxKeyword(n.(kind := Keywords), response, rest, word, None);
      case Choice(optional, name, words) =>
        var k := n.(kind := Keywords);
        if optional {
          StrictIsLax(k, response, rest);
        }
        StrictIsLaxChoice(if optional then Add(k, response, rest, true).value else k, response, rest, words, name);
      case FillIn(blank) => StrictIsLaxFillIn(n, response, blank, rest);
      case OptionalFillIn(blank) => StrictIsLaxFillIn(n.(response := response), response, blank, rest);
      case Ellipsis =>
      case Invalid =>
    }
  }

  lemma {:induction false} StrictIsLaxChoice(n: Node, response: int, rest: seq<Term>, words: seq<string>, name: string)
    requires AddChoice(n, response, rest, words, name, true).Some?
    ensures AddChoice(n, response, rest, words, name, false) == AddChoice(n, response, rest, words, name, true)
    decreases |rest|, 2, |words|
  {
    if words != [] {
      StrictIsLaxKeyword(n, response, rest, words[0], Some(name));
      StrictIsLaxChoice(AddKeyword(n, response, rest, words[0], Some(name), true).value, response, rest, words[1..], name);
    }
  }

  lemma {:induction false} StrictIsLaxKeyword(n: Node, response: int, rest: seq<Term>, word: string, name: Option<string>)
    requires AddKeyword(n, response, rest, word, name, true).Some?
    ensures AddKeyword(n, response, rest, word, name, false) == AddKeyword(n, response, rest, word, name, true)
    decreases |rest|, 1, 0
  {
    match LFind(Keys(n.children), Lower(word), 0)
    case None => StrictIsLax(NewNode(word, name.Some?), response, rest);
    case Some(i) => StrictIsLax(n.children[i], response, rest);
  }

  lemma {:induction false} StrictIsLaxFillIn(n: Node, response: int, blank: Blank, rest: seq<Term>)
    requires AddFillIn(n, response, blank, rest, true).Some?
    ensures AddFillIn(n, response, blank, rest, false) == AddFillIn(n, response, blank, rest, true)
    decreases |rest|, 1, 0
  {
    if n.kind.Value? {
      StrictIsLax(n.children[0], response, rest);
    } else {
      StrictIsLax(NewNode(blank.shown, false), response, rest);
    }
  }

  // ---------------------------------------------------------------- what a blank takes is settled for good

  /** Where the tree takes a value, it goes on taking that value whatever is added. */
  lemma {:induction false} AddKeepsValue(n: Node, response: int, terms: seq<Term>, tokens: seq<string>, spec: ValueSpec, strtod: Strtod)
    requires WellFormed(n) && response != 0 && ValidTerms(terms)
    requires Add(n, response, terms, false).Some? && Takes(n, tokens, AValue(spec), strtod)
    ensures WellFormed(Add(n, response, terms, false).value)
    ensures Takes(Add(n, response, terms, false).value, tokens, AValue(spec), strtod)
    decreases |terms|, 0, 0
  {
    AddKeeps(n, response, terms, false);
    if terms != [] {
      var rest := terms[1..];
      match terms[0]
      case Keyword(word) => AddKeywordKeepsValue(n, response, rest, word, None, tokens, spec, strtod);
      case Choice(optional, name, words) =>
        if optional {
          AddKeepsValue(n, response, rest, tokens, spec, strtod);
          AddKeeps(n, response, rest, false);
        }
        AddChoiceKeepsValue(if optional then Add(n, response, rest, false).value else n, response, rest, words, name, tokens, spec, strtod);
      case FillIn(blank) => AddFillInKeepsValue(n, response, blank, rest, tokens, spec, strtod);
      case OptionalFillIn(blank) =>
        SameBelow(n, n.(response := response), tokens, spec, strtod);
        AddFillInKeepsValue(n.(response := response), response, blank, rest, tokens, spec, strtod);
      case Ellipsis =>
      case Invalid =>
    }
  }

  lemma SameBelow(n: Node, m: Node, tokens: seq<string>, spec: ValueSpec, strtod: Strtod)
    requires WellFormed(n) && WellFormed(m) && n.kind == m.kind && n.children == m.children && !n.kind.OpenEnd?
    ensures Takes(n, tokens, AValue(spec), strtod) <==> Takes(m, tokens, AValue(spec), strtod)
  {
    if tokens != [] {
      assert ChildFor(n, tokens[0], strtod) == ChildFor(m, tokens[0], strtod);
    }
  }

  lemma {:induction false} AddChoiceKeepsValue(n: Node, response: int, rest: seq<Term>, words: seq<string>, name: string,
                                               tokens: seq<string>, spec: ValueSpec, strtod: Strtod)
    requires WellFormed(n) && n.kind.Keywords? && response != 0 && ValidTerms(rest)
    requires AddChoice(n, response, rest, words, name, false).Some? && Takes(n, tokens, AValue(spec), strtod)
    ensures WellFormed(AddChoice(n, response, rest, words, name, false).value)
    ensures Takes(AddChoice(n, response, rest, words, name, false).value, tokens, AValue(spec), strtod)
    decreases |rest|, 2, |words|
  {
    if words != [] {
      AddKeywordKeepsValue(n, response, rest, words[0], Some(name), tokens, spec, strtod);
      AddKeywordKeeps(n, response, rest, words[0], Some(name), false);
      AddChoiceKeepsValue(AddKeyword(n, response, rest, words[0], Some(name), false).value, response, rest, words[1..], name, tokens, spec, strtod);
    }
  }

  lemma {:induction false} AddKeywordKeepsValue(n: Node, response: int, rest: seq<Term>, word: string, name: Option<string>,
                                                tokens: seq<string>, spec: ValueSpec, strtod: Strtod)
    requires WellFormed(n) && n.kind.Keywords? && response != 0 && ValidTerms(rest)
    requires AddKeyword(n, response, rest, word, name, false).Some? && Takes(n, tokens, AValue(spec), strtod)
    ensures WellFormed(AddKeyword(n, response, rest, word, name, false).value)
    ensures Takes(AddKeyword(n, response, rest, word, name, false).value, tokens, AValue(spec), strtod)
    decreases |rest|, 1, 0
  {
    AddKeywordKeeps(n, response, rest, word, name, false);
    var n' := AddKeyword(n, response, rest, word, name, false).value;
    AddKeywordChildren(n, response, rest, word, name, false, tokens[0], strtod);
    var child := ChildFor(n, tokens[0], strtod).value;
    LookBelow(n, child, tokens, strtod);
    if Lower(tokens[0]) == Lower(word) {
      AddKeepsValue(child, response, rest, tokens[1..], spec, strtod);
    }
    LookBelow(n', ChildFor(n', tokens[0], strtod).value, tokens, strtod);
  }

  lemma {:induction false} AddFillInKeepsValue(n: Node, response: int, blank: Blank, rest: seq<Term>,
                                               tokens: seq<string>, spec: ValueSpec, strtod: Strtod)
    requires WellFormed(n) && response != 0 && ValidTerms(rest) && ValidSpec(blank.spec)
    requires AddFillIn(n, response, blank, rest, false).Some? && Takes(n, tokens, AValue(spec), strtod)
    ensures WellFormed(AddFillIn(n, response, blank, rest, false).value)
    ensures Takes(AddFillIn(n, response, blank, rest, false).value, tokens, AValue(spec), strtod)
    decreases |rest|, 1, 0
  {
    AddFillInKeeps(n, response, blank, rest, false);
    if tokens != [] {
      var n' := AddFillIn(n, response, blank, rest, false).value;
      LookBelow(n, n.children[0], tokens, strtod);
      AddKeepsValue(n.children[0], response, rest, tokens[1..], spec, strtod);
      LookBelow(n', n'.children[0], tokens, strtod);
    }
  }

  // ---------------------------------------------------------------- a refused add would go wrong

  ghost predicate Fillable(terms: seq<Term>, strtod: Strtod)
    requires ValidTerms(terms)
  {
    forall t :: t in terms && (t.FillIn? || t.OptionalFillIn?) ==> Satisfiable(t.blank.spec, strtod)
  }

  /** After `tokens` the pattern asks for one value and the tree takes another, with the same bounds but
      another radix. */
  predicate Clash(n: Node, terms: seq<Term>, tokens: seq<string>, taken: ValueSpec, asked: ValueSpec, strtod: Strtod)
    requires WellFormed(n) && ValidTerms(terms)
  {
    taken != asked && SameSpec(taken, asked) && Takes(n, tokens, AValue(taken), strtod) && Asks(terms, tokens, asked, strtod)
  }

  /** If only strictness refuses an add, the add that goes ahead without it clashes. */
  lemma {:induction false} RefusedAddClashes(n: Node, response: int, terms: seq<Term>, strtod: Strtod)
    returns (tokens: seq<string>, taken: ValueSpec, asked: ValueSpec)
    requires WellFormed(n) && response != 0 && ValidTerms(terms) && Fillable(terms, strtod)
    requires Add(n, response, terms, false).Some? && Add(n, response, terms, true).None?
    ensures WellFormed(Add(n, response, terms, false).value)
    ensures Clash(Add(n, response, terms, false).value, terms, tokens, taken, asked, strtod)
    decreases |terms|, 0, 0
  {
    AddKeeps(n, response, terms, false);
    var rest := terms[1..];
    match terms[0]
    case Keyword(word) =>
      tokens, taken, asked := RefusedKeywordClashes(n.(kind := Keywords), response, rest, word, None, strtod);
    case Choice(optional, name, words) =>
      var k := n.(kind := Keywords);
      if optional && Add(k, response, rest, true).None? {
        tokens, taken, asked := RefusedAddClashes(k, response, rest, strtod);
        AddKeeps(k, response, rest, false);
        AddChoiceKeepsValue(Add(k, response, rest, false).value, response, rest, words, name, tokens, taken, strtod);
      } else {
        if optional {
          StrictIsLax(k, response, rest);
          AddKeeps(k, response, rest, false);
        }
        tokens, taken, asked := RefusedChoiceClashes(if optional then Add(k, response, rest, false).value else k,
                                                     response, rest, words, name, strtod);
      }
    case FillIn(blank) =>
      tokens, taken, asked := RefusedFillInClashes(n, response, blank, rest, strtod);
      assert terms == [FillIn(blank)] + rest;
    case OptionalFillIn(blank) =>
      tokens, taken, asked := RefusedFillInClashes(n.(response := response), response, blank, rest, strtod);
      assert ([FillIn(blank)] + rest)[1..] == rest;
    case Ellipsis =>
    case Invalid =>
  }

  lemma {:induction false} RefusedChoiceClashes(n: Node, response: int, rest: seq<Term>, words: seq<string>, name: string, strtod: Strtod)
    returns (tokens: seq<string>, taken: ValueSpec, asked: ValueSpec)
    requires WellFormed(n) && n.kind.Keywords? && response != 0 && ValidTerms(rest) && Fillable(rest, strtod)
    requires AddChoice(n, response, rest, words, name, false).Some? && AddChoice(n, response, rest, words, name, true).None?
    ensures WellFormed(AddChoice(n, response, rest, words, name, false).value)
    ensures taken != asked && SameSpec(taken, asked) && Takes(AddChoice(n, response, rest, words, name, false).value, tokens, AValue(taken), strtod)
    ensures tokens != [] && OneOf(words, tokens[0]) && Asks(rest, tokens[1..], asked, strtod)
    decreases |rest|, 2, |words|
  {
    AddChoiceKeeps(n, response, rest, words, name, false);
    AddKeywordKeeps(n, response, rest, words[0], Some(name), false);
    var n' := AddKeyword(n, response, rest, words[0], Some(name), false).value;
    if AddKeyword(n, response, rest, words[0], Some(name), true).None? {
      tokens, taken, asked := RefusedKeywordClashes(n, response, rest, words[0], Some(name), strtod);
      AddChoiceKeepsValue(n', response, rest, words[1..], name, tokens, taken, strtod);
    } else {
      StrictIsLaxKeyword(n, response, rest, words[0], Some(name));
      tokens, taken, asked := RefusedChoiceClashes(n', response, rest, words[1..], name, strtod);
    }
    OneOfCons(words, tokens[0]);
  }

  lemma {:induction false} RefusedKeywordClashes(n: Node, response: int, rest: seq<Term>, word: string, name: Option<string>, strtod: Strtod)
    returns (tokens: seq<string>, taken: ValueSpec, asked: ValueSpec)
    requires WellFormed(n) && n.kind.Keywords? && response != 0 && ValidTerms(rest) && Fillable(rest, strtod)
    requires AddKeyword(n, response, rest, word, name, false).Some? && AddKeyword(n, response, rest, word, name, true).None?
    ensures WellFormed(AddKeyword(n, response, rest, word, name, false).value)
    ensures taken != asked && SameSpec(taken, asked) && Takes(AddKeyword(n, response, rest, word, name, false).value, tokens, AValue(taken), strtod)
    ensures tokens != [] && tokens[0] == word && Asks(rest, tokens[1..], asked, strtod)
    decreases |rest|, 1, 0
  {
    AddKeywordKeeps(n, response, rest, word, name, false);
    var n' := AddKeyword(n, response, rest, word, name, false).value;
    var below;
    below, taken, asked := RefusedAddClashes(ChildOrNew(n, word, name), response, rest, strtod);
    tokens := [word] + below;
    AddKeywordChildren(n, response, rest, word, name, false, word, strtod);
    LookBelow(n', ChildFor(n', word, strtod).value, tokens, strtod);
  }

  lemma {:induction false} RefusedFillInClashes(n: Node, response: int, blank: Blank, rest: seq<Term>, strtod: Strtod)
    returns (tokens: seq<string>, taken: ValueSpec, asked: ValueSpec)
    requires WellFormed(n) && response != 0 && ValidTerms(rest) && Fillable(rest, strtod)
    requires ValidSpec(blank.spec) && Satisfiable(blank.spec, strtod)
    requires AddFillIn(n, response, blank, rest, false).Some? && AddFillIn(n, response, blank, rest, true).None?
    ensures WellFormed(AddFillIn(n, response, blank, rest, false).value) && ValidTerms([FillIn(blank)] + rest)
    ensures Clash(AddFillIn(n, response, blank, rest, false).value, [FillIn(blank)] + rest, tokens, taken, asked, strtod)
    decreases |rest|, 1, 0
  {
    AddFillInKeeps(n, response, blank, rest, false);
    var n' := AddFillIn(n, response, blank, rest, false).value;
    assert ([FillIn(blank)] + rest)[1..] == rest;
    if n.kind.Value? && n.kind.spec != blank.spec {
      tokens, taken, asked := [], n.kind.spec, blank.spec;
    } else {
      var child := if n.kind.Value? then n.children[0] else NewNode(blank.shown, false);
      var below;
      below, taken, asked := RefusedAddClashes(child, response, rest, strtod);
      var token := AlikeToken(blank.spec, strtod);
      tokens := [token] + below;
      LookBelow(n', n'.children[0], tokens, strtod);
    }
  }
}
