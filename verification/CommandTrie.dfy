/** The command compiler: patterns become a shared tree, and a command line is looked up in it
    (src/libfootball/fb_parser.c). A C `assert` in the compiler is a failed add: None. */
module CommandTrie {
  import opened Basics
  import opened CStrings
  import opened Patterns

  // ---------------------------------------------------------------- the tree

  datatype Kind = Undetermined | Keywords | Value(spec: ValueSpec) | OpenEnd

  /** struct fb_parser_t. `response` is 0 where no command ends. */
  datatype Node = Node(word: string, isNamed: bool, name: Option<string>, kind: Kind, response: int, children: seq<Node>)

  function NewNode(word: string, isNamed: bool): Node {
    Node(word, isNamed, None, Undetermined, 0, [])
  }

  /** Keywords compare without regard to case. */
  function Keys(children: seq<Node>): (r: seq<string>)
    ensures |r| == |children|
  {
    seq(|children|, i requires 0 <= i < |children| => Lower(children[i].word))
  }

  predicate Distinct(keys: seq<string>) {
    forall i, j :: 0 <= i < j < |keys| ==> keys[i] != keys[j]
  }

  predicate WellFormed(n: Node) {
    && (n.kind.Undetermined? ==> n.children == [])
    && (n.kind.OpenEnd? ==> n.children == [] && n.response != 0)
    && (n.kind.Value? ==> |n.children| == 1 && ValidSpec(n.kind.spec))
    && (n.kind.Keywords? ==> Distinct(Keys(n.children)))
    && forall i :: 0 <= i < |n.children| ==> WellFormed(n.children[i]) && Settled(n.children[i])
  }

  /** A node that nothing follows ends a command. Only the root of an empty tree does not. */
  predicate Settled(n: Node) {
    n.kind.Undetermined? ==> n.response != 0
  }

  // ---------------------------------------------------------------- compiling

  /** fb_parser_add. With `strict`, a blank is also refused when an existing blank in its place
      differs only in radix, which the C code does not compare. */
  function Add(n: Node, response: int, terms: seq<Term>, strict: bool): Option<Node>
    decreases |terms|, 0, 0
  {
    if terms == [] then
      if n.response != 0 then None else Some(n.(response := response))
    else
      var rest := terms[1..];
      match terms[0]
      case OptionalFillIn(blank) =>
        if (rest != [] && rest != [Ellipsis]) || n.response != 0 then None
        else AddFillIn(n.(response := response), response, blank, rest, strict)
      case Ellipsis =>
        if !n.kind.Undetermined? || n.response != 0 then None
        else Some(n.(kind := OpenEnd, response := response))
      case FillIn(blank) => AddFillIn(n, response, blank, rest, strict)
      case Keyword(word) =>
        if !n.kind.Undetermined? && !n.kind.Keywords? then None
        else AddKeyword(n.(kind := Keywords), response, rest, word, None, strict)
      case Choice(optional, name, words) =>
        if !n.kind.Undetermined? && !n.kind.Keywords? then None
        else
          var omitted := if optional then Add(n.(kind := Keywords), response, rest, strict) else Some(n.(kind := Keywords));
          if omitted.None? then None else AddChoice(omitted.value, response, rest, words, name, strict)
      case Invalid => None
  }

  /** The loop of fb_parser_add over the words of an alternation. */
  function AddChoice(n: Node, response: int, rest: seq<Term>, words: seq<string>, name: string, strict: bool): Option<Node>
    decreases |rest|, 2, |words|
  {
    if words == [] then Some(n)
    else
      var n' := AddKeyword(n, response, rest, words[0], Some(name), strict);
      if n'.None? then None else AddChoice(n'.value, response, rest, words[1..], name, strict)
  }

  /** fb_parser_add_keyword. */
  function AddKeyword(n: Node, response: int, rest: seq<Term>, word: string, name: Option<string>, strict: bool): Option<Node>
    decreases |rest|, 1, 0
  {
    if name.Some? && n.name.Some? && n.name != name then None
    else
      var named := if name.Some? then n.(name := name) else n;
      match LFind(Keys(n.children), Lower(word), 0)
      case None =>
        var child := Add(NewNode(word, name.Some?), response, rest, strict);
        if child.None? then None else Some(named.(children := n.children + [child.value]))
      case Some(i) =>
        if n.children[i].isNamed != name.Some? then None
        else
          var child := Add(n.children[i], response, rest, strict);
          if child.None? then None else Some(named.(children := n.children[i := child.value]))
  }

  function BlankName(blank: Blank): Option<string> {
    if blank.name == "" then None else Some(blank.name)
  }

  /** What fb_parser_add_fill_in compares of two blanks' values: not the radix. */
  predicate SameSpec(a: ValueSpec, b: ValueSpec) {
    a == b || (a.IntRange? && b.IntRange? && a.min == b.min && a.max == b.max)
  }

  /** fb_parser_add_fill_in. */
  function AddFillIn(n: Node, response: int, blank: Blank, rest: seq<Term>, strict: bool): Option<Node>
    decreases |rest|, 1, 0
  {
    match n.kind
    case Value(spec) =>
      if |n.children| != 1 || !SameSpec(spec, blank.spec) || n.name != BlankName(blank) || (strict && spec != blank.spec)
      then None
      else
        var child := Add(n.children[0], response, rest, strict);
        if child.None? then None else Some(n.(children := [child.value]))
    case Undetermined =>
      var child := Add(NewNode(blank.shown, false), response, rest, strict);
      if child.None? then None
      else Some(n.(kind := Value(blank.spec), name := BlankName(blank), children := [child.value]))
    case _ => None
  }

  // ---------------------------------------------------------------- where a command line leads

  /** The child a token leads to, by linear search. */
  function ChildFor(n: Node, token: string, strtod: Strtod): (r: Option<Node>)
    requires WellFormed(n)
    ensures r.Some? ==> WellFormed(r.value) && Settled(r.value)
  {
    match n.kind
    case Keywords =>
      (match LFind(Keys(n.children), Lower(token), 0)
       case Some(i) => Some(n.children[i])
       case None => None)
    case Value(spec) => if FitOf(spec, token, strtod) == Fits then Some(n.children[0]) else None
    case OpenEnd => Some(n)
    case Undetermined => None
  }

  function NodeAt(n: Node, tokens: seq<string>, strtod: Strtod): (r: Option<Node>)
    requires WellFormed(n)
    ensures r.Some? ==> WellFormed(r.value) && (tokens != [] || Settled(n) ==> Settled(r.value))
    decreases |tokens|
  {
    if tokens == [] then Some(n)
    else
      match ChildFor(n, tokens[0], strtod)
      case Some(child) => NodeAt(child, tokens[1..], strtod)
      case None => None
  }

  predicate Means(kind: Kind, e: Expectation) {
    match kind
    case Keywords => e == AKeyword
    case Value(spec) => e == AValue(spec)
    case OpenEnd => e == Anything
    case Undetermined => false
  }

  /** Three things to know about a tree: which token lists lead somewhere, what it takes there,
      and which command is complete there. */
  predicate Reached(n: Node, tokens: seq<string>, strtod: Strtod)
    requires WellFormed(n)
  {
    NodeAt(n, tokens, strtod).Some?
  }

  predicate Takes(n: Node, tokens: seq<string>, e: Expectation, strtod: Strtod)
    requires WellFormed(n)
  {
    Reached(n, tokens, strtod) && Means(NodeAt(n, tokens, strtod).value.kind, e)
  }

  function Complete(n: Node, tokens: seq<string>, strtod: Strtod): int
    requires WellFormed(n)
  {
    if Reached(n, tokens, strtod) then NodeAt(n, tokens, strtod).value.response else 0
  }

  /** `n'` leads where `n` leads and, beyond that, just where the pattern leads. */
  ghost predicate Extends(n: Node, n': Node, response: int, terms: seq<Term>, tokens: seq<string>, strtod: Strtod)
    requires ValidTerms(terms) && WellFormed(n) && WellFormed(n')
  {
    && (Reached(n', tokens, strtod) <==> Reached(n, tokens, strtod) || Reaches(terms, tokens, strtod))
    && (forall e :: Takes(n', tokens, e, strtod) <==> Takes(n, tokens, e, strtod) || Expects(terms, tokens, e, strtod))
    && (Accepts(terms, tokens, strtod) ==> Complete(n, tokens, strtod) == 0)
    && Complete(n', tokens, strtod)
       == if Accepts(terms, tokens, strtod) then response else Complete(n, tokens, strtod)
  }

  // ---------------------------------------------------------------- adding one pattern

  /** In distinct keys, a key is found exactly where it is. */
  lemma LFindAt(keys: seq<string>, key: string, i: nat)
    requires Distinct(keys) && i < |keys| && keys[i] == key
    ensures LFind(keys, key, 0) == Some(i)
  {
    var r := LFind(keys, key, 0);
    assert keys[0..] == keys;
    assert key in keys;
  }

  /** Looking up other keys is not disturbed by adding one or by replacing the node under one. */
  lemma LFindOther(keys: seq<string>, keys': seq<string>, key: string)
    requires Distinct(keys) && Distinct(keys')
    requires |keys| <= |keys'| && forall i :: 0 <= i < |keys| ==> keys'[i] == keys[i]
    requires forall i :: |keys| <= i < |keys'| ==> keys'[i] != key
    ensures LFind(keys', key, 0) == LFind(keys, key, 0)
  {
    var r := LFind(keys, key, 0);
    if r.Some? {
      LFindAt(keys', key, r.value);
    } else {
      assert keys[0..] == keys && keys'[0..] == keys';
      assert forall i :: 0 <= i < |keys| ==> keys[i] in keys;
      assert key !in keys';
    }
  }

  lemma {:induction false} AddKeepsWord(n: Node, response: int, terms: seq<Term>, strict: bool)
    requires Add(n, response, terms, strict).Some?
    ensures var n' := Add(n, response, terms, strict).value; n'.word == n.word && n'.isNamed == n.isNamed
    decreases |terms|
  {
    if terms != [] && terms[0].Choice? {
      var rest := terms[1..];
      if terms[0].optional {
        AddKeepsWord(n.(kind := Keywords), response, rest, strict);
      }
      var omitted := if terms[0].optional then Add(n.(kind := Keywords), response, rest, strict) else Some(n.(kind := Keywords));
      AddChoiceKeepsWord(omitted.value, response, rest, terms[0].words, terms[0].name, strict);
    }
  }

  lemma {:induction false} AddChoiceKeepsWord(n: Node, response: int, rest: seq<Term>, words: seq<string>, name: string, strict: bool)
    requires AddChoice(n, response, rest, words, name, strict).Some?
    ensures var n' := AddChoice(n, response, rest, words, name, strict).value; n'.word == n.word && n'.isNamed == n.isNamed
    decreases |words|
  {
    if words != [] {
      var n' := AddKeyword(n, response, rest, words[0], Some(name), strict).value;
      AddChoiceKeepsWord(n', response, rest, words[1..], name, strict);
    }
  }

  lemma {:induction false} AddKeeps(n: Node, response: int, terms: seq<Term>, strict: bool)
    requires WellFormed(n) && response != 0 && ValidTerms(terms)
    requires Add(n, response, terms, strict).Some?
    ensures WellFormed(Add(n, response, terms, strict).value)
    ensures n.kind.Keywords? ==> Add(n, response, terms, strict).value.kind.Keywords?
    ensures Settled(Add(n, response, terms, strict).value)
    decreases |terms|, 0, 0
  {
    if terms != [] {
      var rest := terms[1..];
      match terms[0]
      case Keyword(word) => AddKeywordKeeps(n.(kind := Keywords), response, rest, word, None, strict);
      case Choice(optional, name, words) =>
        var k := n.(kind := Keywords);
        if optional {
          AddKeeps(k, response, rest, strict);
        }
        AddChoiceKeeps(if optional then Add(k, response, rest, strict).value else k, response, rest, words, name, strict);
      case FillIn(blank) => AddFillInKeeps(n, response, blank, rest, strict);
      case OptionalFillIn(blank) => AddFillInKeeps(n.(response := response), response, blank, rest, strict);
      case Ellipsis =>
      case Invalid =>
    }
  }

  lemma {:induction false} AddChoiceKeeps(n: Node, response: int, rest: seq<Term>, words: seq<string>, name: string, strict: bool)
    requires WellFormed(n) && n.kind.Keywords? && response != 0 && ValidTerms(rest)
    requires AddChoice(n, response, rest, words, name, strict).Some?
    ensures var n' := AddChoice(n, response, rest, words, name, strict).value; WellFormed(n') && n'.kind.Keywords?
    decreases |rest|, 2, |words|
  {
    if words != [] {
      AddKeywordKeeps(n, response, rest, words[0], Some(name), strict);
      AddChoiceKeeps(AddKeyword(n, response, rest, words[0], Some(name), strict).value, response, rest, words[1..], name, strict);
    }
  }

  lemma {:induction false} AddKeywordKeeps(n: Node, response: int, rest: seq<Term>, word: string, name: Option<string>, strict: bool)
    requires WellFormed(n) && n.kind.Keywords? && response != 0 && ValidTerms(rest)
    requires AddKeyword(n, response, rest, word, name, strict).Some?
    ensures var n' := AddKeyword(n, response, rest, word, name, strict).value; WellFormed(n') && n'.kind.Keywords?
    decreases |rest|, 1, 0
  {
    var keys := Keys(n.children);
    var n' := AddKeyword(n, response, rest, word, name, strict).value;
    match LFind(keys, Lower(word), 0)
    case None =>
      AddKeeps(NewNode(word, name.Some?), response, rest, strict);
      AddKeepsWord(NewNode(word, name.Some?), response, rest, strict);
      assert keys[0..] == keys;
      assert forall i :: 0 <= i < |keys| ==> keys[i] in keys;
      assert Keys(n'.children) == keys + [Lower(word)];
    case Some(i) =>
      AddKeeps(n.children[i], response, rest, strict);
      AddKeepsWord(n.children[i], response, rest, strict);
      assert Keys(n'.children) == keys;
  }

  lemma {:induction false} AddFillInKeeps(n: Node, response: int, blank: Blank, rest: seq<Term>, strict: bool)
    requires WellFormed(n) && response != 0 && ValidTerms(rest) && ValidSpec(blank.spec)
    requires AddFillIn(n, response, blank, rest, strict).Some?
    ensures WellFormed(AddFillIn(n, response, blank, rest, strict).value)
    ensures AddFillIn(n, response, blank, rest, strict).value.kind.Value?
    decreases |rest|, 1, 0
  {
    if n.kind.Value? {
      AddKeeps(n.children[0], response, rest, strict);
    } else {
      AddKeeps(NewNode(blank.shown, false), response, rest, strict);
    }
  }

  /** Adding two patterns in turn adds what either means. */
  lemma ExtendsCompose(n: Node, n1: Node, n2: Node, response: int, terms1: seq<Term>, terms2: seq<Term>, terms: seq<Term>,
                       tokens: seq<string>, strtod: Strtod)
    requires ValidTerms(terms1) && ValidTerms(terms2) && ValidTerms(terms)
    requires WellFormed(n) && WellFormed(n1) && WellFormed(n2) && response != 0
    requires Extends(n, n1, response, terms1, tokens, strtod)
    requires Extends(n1, n2, response, terms2, tokens, strtod)
    requires Reaches(terms, tokens, strtod) <==> Reaches(terms1, tokens, strtod) || Reaches(terms2, tokens, strtod)
    requires Accepts(terms, tokens, strtod) <==> Accepts(terms1, tokens, strtod) || Accepts(terms2, tokens, strtod)
    requires forall e :: Expects(terms, tokens, e, strtod) <==>
                         Expects(terms1, tokens, e, strtod) || Expects(terms2, tokens, e, strtod)
    ensures Extends(n, n2, response, terms, tokens, strtod)
  {
  }

  /** fb_parser_add adds to the tree what the pattern means, and nothing else. */
  lemma {:induction false} AddExtends(n: Node, response: int, terms: seq<Term>, tokens: seq<string>, strtod: Strtod)
    requires WellFormed(n) && response != 0 && ValidTerms(terms)
    requires Add(n, response, terms, true).Some?
    ensures WellFormed(Add(n, response, terms, true).value)
    ensures Extends(n, Add(n, response, terms, true).value, response, terms, tokens, strtod)
    decreases |terms|, 1, 0
  {
    AddKeeps(n, response, terms, true);
    if terms != [] {
      var rest := terms[1..];
      match terms[0]
      case Keyword(word) =>
        assert terms == [Keyword(word)] + rest;
        AddKeywordExtends(n.(kind := Keywords), response, rest, word, None, tokens, strtod);
        KindSetExtends(n, Add(n, response, terms, true).value, response, terms, tokens, strtod);
      case Choice(optional, name, words) => AddOptionExtends(n, response, terms, tokens, strtod);
      case FillIn(blank) =>
        assert terms == [FillIn(blank)] + rest;
        AddFillInExtends(n, response, blank, rest, tokens, strtod);
      case OptionalFillIn(blank) => AddOptionalFillInExtends(n, response, terms, tokens, strtod);
      case Ellipsis =>
        OpenEndAbsorbs(Add(n, response, terms, true).value, tokens, strtod);
      case Invalid =>
    }
  }

  lemma {:induction false} OpenEndAbsorbs(n: Node, tokens: seq<string>, strtod: Strtod)
    requires WellFormed(n) && n.kind.OpenEnd?
    ensures NodeAt(n, tokens, strtod) == Some(n)
    decreases |tokens|
  {
    if tokens != [] {
      OpenEndAbsorbs(n, tokens[1..], strtod);
    }
  }

  lemma LookBelow(n: Node, child: Node, tokens: seq<string>, strtod: Strtod)
    requires WellFormed(n) && WellFormed(child) && tokens != [] && ChildFor(n, tokens[0], strtod) == Some(child)
    ensures Reached(n, tokens, strtod) == Reached(child, tokens[1..], strtod)
    ensures Complete(n, tokens, strtod) == Complete(child, tokens[1..], strtod)
    ensures forall e :: Takes(n, tokens, e, strtod) == Takes(child, tokens[1..], e, strtod)
  {
    assert NodeAt(n, tokens, strtod) == NodeAt(child, tokens[1..], strtod);
  }

  /** A node that is not there yet means as much as a new one with nothing added to it. */
  lemma LookNowhere(n: Node, child: Node, tokens: seq<string>, strtod: Strtod)
    requires WellFormed(n) && WellFormed(child) && tokens != [] && ChildFor(n, tokens[0], strtod) == None
    requires child.kind.Undetermined? && child.response == 0
    ensures !Reached(n, tokens, strtod) && Complete(n, tokens, strtod) == 0
    ensures Reached(child, tokens[1..], strtod) ==> tokens[1..] == []
    ensures Complete(child, tokens[1..], strtod) == 0
    ensures forall e :: !Takes(n, tokens, e, strtod) && !Takes(child, tokens[1..], e, strtod)
  {
  }

  /** What a pattern means after its first token is what the rest of it means below that token. */
  lemma ExtendsBelow(n: Node, n': Node, child: Node, child': Node, response: int, terms: seq<Term>, rest: seq<Term>,
                     tokens: seq<string>, strtod: Strtod)
    requires WellFormed(n) && WellFormed(n') && WellFormed(child) && WellFormed(child')
    requires ValidTerms(terms) && ValidTerms(rest) && tokens != []
    requires Extends(child, child', response, rest, tokens[1..], strtod)
    requires ChildFor(n', tokens[0], strtod) == Some(child')
    requires || ChildFor(n, tokens[0], strtod) == Some(child)
             || (ChildFor(n, tokens[0], strtod) == None && child.kind.Undetermined? && child.response == 0)
    requires Reaches(terms, tokens, strtod) <==> Reaches(rest, tokens[1..], strtod)
    requires Accepts(terms, tokens, strtod) <==> Accepts(rest, tokens[1..], strtod)
    requires forall e :: Expects(terms, tokens, e, strtod) <==> Expects(rest, tokens[1..], e, strtod)
    ensures Extends(n, n', response, terms, tokens, strtod)
  {
    hide WellFormed, Reached, Takes, Complete, Accepts, Expects, ValidTerms, ChildFor;
    LookBelow(n', child', tokens, strtod);
    if ChildFor(n, tokens[0], strtod).Some? {
      LookBelow(n, child, tokens, strtod);
    } else {
      LookNowhere(n, child, tokens, strtod);
    }
  }

  /** Making an undetermined node a keyword node only adds the expectation of a keyword. */
  lemma KindSetExtends(n: Node, n': Node, response: int, terms: seq<Term>, tokens: seq<string>, strtod: Strtod)
    requires WellFormed(n) && WellFormed(n') && ValidTerms(terms) && (n.kind.Undetermined? || n.kind.Keywords?)
    requires terms != [] && (terms[0].Keyword? || terms[0].Choice?)
    requires WellFormed(n.(kind := Keywords))
    requires Extends(n.(kind := Keywords), n', response, terms, tokens, strtod)
    ensures Extends(n, n', response, terms, tokens, strtod)
  {
  }

  lemma {:induction false} AddOptionExtends(n: Node, response: int, terms: seq<Term>, tokens: seq<string>, strtod: Strtod)
    requires WellFormed(n) && response != 0 && ValidTerms(terms)
    requires terms != [] && terms[0].Choice? && Add(n, response, terms, true).Some?
    ensures WellFormed(Add(n, response, terms, true).value)
    ensures Extends(n, Add(n, response, terms, true).value, response, terms, tokens, strtod)
    decreases |terms|, 0, 0
  {
    var rest := terms[1..];
    var Choice(optional, name, words) := terms[0];
    var k := n.(kind := Keywords);
    var required := [Choice(false, name, words)] + rest;
    var n' := Add(n, response, terms, true).value;
    AddKeeps(n, response, terms, true);
    if optional {
      var n1 := Add(k, response, rest, true).value;
      AddExtends(k, response, rest, tokens, strtod);
      AddKeeps(k, response, rest, true);
      AddChoiceExtends(n1, response, rest, words, name, tokens, strtod);
      ExtendsCompose(k, n1, n', response, rest, required, terms, tokens, strtod);
    } else {
      assert terms == required;
      AddChoiceExtends(k, response, rest, words, name, tokens, strtod);
    }
    KindSetExtends(n, n', response, terms, tokens, strtod);
  }

  lemma {:induction false} AddChoiceExtends(n: Node, response: int, rest: seq<Term>, words: seq<string>, name: string,
                                            tokens: seq<string>, strtod: Strtod)
    requires WellFormed(n) && n.kind.Keywords? && response != 0 && ValidTerms(rest)
    requires AddChoice(n, response, rest, words, name, true).Some?
    ensures ValidTerms([Choice(false, name, words)] + rest)
    ensures WellFormed(AddChoice(n, response, rest, words, name, true).value)
    ensures Extends(n, AddChoice(n, response, rest, words, name, true).value, response,
                    [Choice(false, name, words)] + rest, tokens, strtod)
    decreases |rest|, 3, |words|
  {
    AddChoiceKeeps(n, response, rest, words, name, true);
    var terms := [Choice(false, name, words)] + rest;
    assert terms[1..] == rest;
    if words != [] {
      var first, others := [Keyword(words[0])] + rest, [Choice(false, name, words[1..])] + rest;
      assert first[1..] == rest && others[1..] == rest;
      var n1 := AddKeyword(n, response, rest, words[0], Some(name), true).value;
      AddKeywordExtends(n, response, rest, words[0], Some(name), tokens, strtod);
      AddKeywordKeeps(n, response, rest, words[0], Some(name), true);
      AddChoiceExtends(n1, response, rest, words[1..], name, tokens, strtod);
      if tokens != [] {
        OneOfCons(words, tokens[0]);
      }
      ExtendsCompose(n, n1, AddChoice(n, response, rest, words, name, true).value, response, first, others, terms,
                     tokens, strtod);
    }
  }

  lemma OneOfCons(words: seq<string>, token: string)
    requires words != []
    ensures OneOf(words, token) <==> Lower(words[0]) == Lower(token) || OneOf(words[1..], token)
  {
    assert words == [words[0]] + words[1..];
    if OneOf(words, token) {
      var w :| w in words && Lower(w) == Lower(token);
      assert w == words[0] || w in words[1..];
    }
  }

  lemma {:induction false} AddKeywordExtends(n: Node, response: int, rest: seq<Term>, word: string, name: Option<string>,
                                             tokens: seq<string>, strtod: Strtod)
    requires WellFormed(n) && n.kind.Keywords? && response != 0 && ValidTerms(rest)
    requires AddKeyword(n, response, rest, word, name, true).Some?
    ensures ValidTerms([Keyword(word)] + rest)
    ensures WellFormed(AddKeyword(n, response, rest, word, name, true).value)
    ensures Extends(n, AddKeyword(n, response, rest, word, name, true).value, response, [Keyword(word)] + rest, tokens, strtod)
    decreases |rest|, 2, 0
  {
    AddKeywordKeeps(n, response, rest, word, name, true);
    var n' := AddKeyword(n, response, rest, word, name, true).value;
    assert ([Keyword(word)] + rest)[1..] == rest;
    if tokens != [] {
      AddKeywordChildren(n, response, rest, word, name, true, tokens[0], strtod);
      if Lower(tokens[0]) == Lower(word) {
        var child := ChildOrNew(n, word, name);
        AddExtends(child, response, rest, tokens[1..], strtod);
        ExtendsBelow(n, n', child, Add(child, response, rest, true).value, response, [Keyword(word)] + rest, rest, tokens, strtod);
      }
    }
  }

  /** The node under a keyword, or the one to be put there. */
  function ChildOrNew(n: Node, word: string, name: Option<string>): (r: Node)
    requires WellFormed(n)
    ensures WellFormed(r)
  {
    match LFind(Keys(n.children), Lower(word), 0)
    case Some(i) => n.children[i]
    case None => NewNode(word, name.Some?)
  }

  /** Adding under a keyword changes what that keyword leads to, and no other. */
  lemma AddKeywordChildren(n: Node, response: int, rest: seq<Term>, word: string, name: Option<string>, strict: bool,
                           token: string, strtod: Strtod)
    requires WellFormed(n) && n.kind.Keywords? && response != 0 && ValidTerms(rest)
    requires AddKeyword(n, response, rest, word, name, strict).Some?
    requires WellFormed(AddKeyword(n, response, rest, word, name, strict).value)
    ensures var n' := AddKeyword(n, response, rest, word, name, strict).value;
            var child := ChildOrNew(n, word, name);
            && n'.response == n.response && n'.kind == n.kind
            && (if Lower(token) == Lower(word)
                then ChildFor(n', token, strtod) == Add(child, response, rest, strict) && Add(child, response, rest, strict).Some?
                     && (ChildFor(n, token, strtod) == Some(child)
                         || (ChildFor(n, token, strtod) == None && child == NewNode(word, name.Some?)))
                else ChildFor(n', token, strtod) == ChildFor(n, token, strtod))
  {
    var n' := AddKeyword(n, response, rest, word, name, strict).value;
    var keys, keys' := Keys(n.children), Keys(n'.children);
    var at := LFind(keys, Lower(word), 0);
    AddKeepsWord(ChildOrNew(n, word, name), response, rest, strict);
    hide Add, WellFormed;
    if Lower(token) == Lower(word) {
      LFindAt(keys', Lower(word), if at.Some? then at.value else |keys|);
    } else {
      LFindOther(keys, keys', Lower(token));
      if at.Some? {
        KeysOfFound(keys, Lower(token), at.value);
      }
    }
  }

  lemma KeysOfFound(keys: seq<string>, key: string, i: nat)
    requires i < |keys| && keys[i] != key
    ensures LFind(keys, key, 0) != Some(i)
  {
  }

  lemma {:induction false} AddFillInExtends(n: Node, response: int, blank: Blank, rest: seq<Term>, tokens: seq<string>, strtod: Strtod)
    requires WellFormed(n) && response != 0 && ValidTerms(rest) && ValidSpec(blank.spec)
    requires AddFillIn(n, response, blank, rest, true).Some?
    ensures ValidTerms([FillIn(blank)] + rest)
    ensures WellFormed(AddFillIn(n, response, blank, rest, true).value)
    ensures Extends(n, AddFillIn(n, response, blank, rest, true).value, response, [FillIn(blank)] + rest, tokens, strtod)
    decreases |rest|, 2, 0
  {
    AddFillInKeeps(n, response, blank, rest, true);
    assert ([FillIn(blank)] + rest)[1..] == rest;
    if tokens != [] {
      var child := if n.kind.Value? then n.children[0] else NewNode(blank.shown, false);
      var n' := AddFillIn(n, response, blank, rest, true).value;
      if FitOf(blank.spec, tokens[0], strtod) == Fits {
        AddExtends(child, response, rest, tokens[1..], strtod);
        ExtendsBelow(n, n', child, n'.children[0], response, [FillIn(blank)] + rest, rest, tokens, strtod);
      } else {
        assert ChildFor(n', tokens[0], strtod) == ChildFor(n, tokens[0], strtod) == None;
      }
    }
  }

  lemma {:induction false} AddOptionalFillInExtends(n: Node, response: int, terms: seq<Term>, tokens: seq<string>, strtod: Strtod)
    requires WellFormed(n) && response != 0 && ValidTerms(terms)
    requires terms != [] && terms[0].OptionalFillIn? && Add(n, response, terms, true).Some?
    ensures WellFormed(Add(n, response, terms, true).value)
    ensures Extends(n, Add(n, response, terms, true).value, response, terms, tokens, strtod)
    decreases |terms|, 0, 0
  {
    var rest := terms[1..];
    var blank := terms[0].blank;
    var done := n.(response := response);
    var n' := Add(n, response, terms, true).value;
    assert ([FillIn(blank)] + rest)[1..] == rest;
    AddKeeps(n, response, terms, true);
    AddFillInExtends(done, response, blank, rest, tokens, strtod);
    if tokens == [] {
      AddFillInKeepsResponse(done, response, blank, rest, true);
    }
  }

  lemma AddFillInKeepsResponse(n: Node, response: int, blank: Blank, rest: seq<Term>, strict: bool)
    requires AddFillIn(n, response, blank, rest, strict).Some?
    ensures AddFillIn(n, response, blank, rest, strict).value.response == n.response
  {
  }
}
