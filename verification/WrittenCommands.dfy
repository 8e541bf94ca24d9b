/** Commands written as statements, compiled and typed: the parser answers with a response just for the
    command lines that its pattern accepts (src/libfootball/fb_parser.c:575-720). */
module WrittenCommands {
  import opened Basics
  import opened CStrings
  import opened Patterns
  import opened CommandTrie
  import opened CommandParser
  import opened CommandLanguage
  import opened PatternTexts

  datatype Command = Command(response: int, terms: seq<Term>)

  /** Commands that can be written, with the responses that the header of the parser asks for. */
  predicate WritableCommands(commands: seq<Command>) {
    forall c :: c in commands ==> c.response > 0 && WritableTerms(c.terms)
  }

  /** The definition of a command, as its statement says it. */
  function DefinitionOf(command: Command): Definition {
    Definition(command.response, Statement(command.terms))
  }

  function Definitions(commands: seq<Command>): (r: seq<Definition>)
    ensures |r| == |commands|
  {
    seq(|commands|, i requires 0 <= i < |commands| => DefinitionOf(commands[i]))
  }

  /** Some command with this response accepts the command line. */
  predicate SomeCommand(commands: seq<Command>, tokens: seq<string>, response: int, strtod: Strtod) {
    exists c :: c in commands && c.response == response && ValidTerms(c.terms) && Accepts(c.terms, tokens, strtod)
  }

  /** The terms behind a written definition are those it was written for. */
  lemma TermsAreRead(command: Command, strtod: Strtod)
    requires WritableTerms(command.terms)
    ensures TermsOf(DefinitionOf(command), strtod) == command.terms
  {
    StatementIsRead(command.terms, strtod);
  }

  lemma SameCommands(commands: seq<Command>, tokens: seq<string>, response: int, strtod: Strtod)
    requires WritableCommands(commands)
    ensures SomeAccepts(Definitions(commands), tokens, response, strtod) <==> SomeCommand(commands, tokens, response, strtod)
  {
    var defs := Definitions(commands);
    forall i | 0 <= i < |commands| ensures TermsOf(defs[i], strtod) == commands[i].terms {
      assert commands[i] in commands;
      TermsAreRead(commands[i], strtod);
    }
    hide TermsOf;
    if d :| d in defs && d.response == response && Accepts(TermsOf(d, strtod), tokens, strtod) {
      var i :| 0 <= i < |defs| && defs[i] == d;
      assert commands[i] in commands;
    }
    if c :| c in commands && c.response == response && ValidTerms(c.terms) && Accepts(c.terms, tokens, strtod) {
      var i :| 0 <= i < |commands| && commands[i] == c;
      assert defs[i] in defs;
    }
  }

  /** An accepted command line is viable all along. */
  lemma AcceptedIsViable(defs: seq<Definition>, tokens: seq<string>, response: int, k: nat, strtod: Strtod)
    requires SomeAccepts(defs, tokens, response, strtod) && k <= |tokens|
    ensures Viable(defs, tokens[..k], strtod)
  {
    var d :| d in defs && d.response == response && Accepts(TermsOf(d, strtod), tokens, strtod);
    assert tokens[..k] + tokens[k..] == tokens;
    ExtensionReaches(TermsOf(d, strtod), tokens[..k], tokens[k..], strtod);
  }

  lemma DefinitionsNumbered(commands: seq<Command>)
    requires WritableCommands(commands)
    ensures Numbered(Definitions(commands))
  {
    assert forall i :: 0 <= i < |commands| ==> commands[i] in commands;
  }

  /** What fb_interpret answers on written commands. */
  lemma AnswersWritten(sets: seq<seq<Definition>>, commands: seq<Command>, tokens: seq<string>, response: int, strtod: Strtod)
    requires WritableCommands(commands) && Flatten(sets) == Definitions(commands)
    requires Compile(sets, true, strtod).Some?
    ensures WellFormed(Compile(sets, true, strtod).value)
    ensures var o := Interpret(Compile(sets, true, strtod).value, tokens, strtod);
            o.Accepted? && o.response == response <==> SomeCommand(commands, tokens, response, strtod)
  {
    var defs, n := Flatten(sets), Compile(sets, true, strtod).value;
    DefinitionsNumbered(commands);
    CompiledMeans(sets, tokens, strtod);
    var o := Interpret(n, tokens, strtod);
    InterpretIsExact(sets, tokens, o, strtod);
    SameCommands(commands, tokens, response, strtod);
    hide SomeCommand, Compile, Interpret, TermsOf, Accepts;
    if SomeAccepts(defs, tokens, response, strtod) {
      OnlyAccepted(defs, tokens, response, o, strtod);
      assert Complete(n, tokens, strtod) == response;
    }
  }

  /** The only outcome explained for an accepted command line is that it is accepted. */
  lemma OnlyAccepted(defs: seq<Definition>, tokens: seq<string>, response: int, o: Outcome, strtod: Strtod)
    requires SomeAccepts(defs, tokens, response, strtod) && Explains(defs, tokens, o, strtod)
    ensures o.Accepted?
  {
    hide SomeAccepts, SomeExpects, Viable;
    if !o.Accepted? && !o.Incomplete? {
      AcceptedIsViable(defs, tokens, response, o.at + 1, strtod);
    }
  }

  // ---------------------------------------------------------------- commands that do compile

  /** The words of a choice are different. */
  predicate Apart(words: seq<string>) {
    forall i, j :: 0 <= i < j < |words| ==> Lower(words[i]) != Lower(words[j])
  }

  /** A pattern that goes straight on: choices offer different words, what is optional is told by its next
      word from what comes behind it, and an optional blank is the last but for three dots. */
  predicate Straight(terms: seq<Term>)
    decreases |terms|
  {
    if terms == [] then true
    else
      var rest := terms[1..];
      match terms[0]
      case Keyword(_) => Straight(rest)
      case Choice(optional, _, words) =>
        && Apart(words) && Straight(rest)
        && (optional && rest != [] ==> rest[0].Keyword? && forall w :: w in words ==> Lower(w) != Lower(rest[0].word))
      case FillIn(_) => Straight(rest)
      case OptionalFillIn(_) => rest == [] || rest == [Ellipsis]
      case Ellipsis => true
      case Invalid => false
  }

  /** A node nothing was added to yet. */
  predicate Fresh(n: Node) {
    n.kind.Undetermined? && n.children == [] && n.response == 0 && n.name.None?
  }

  /** A word that is not there yet becomes one child more. */
  lemma NewKeyword(n: Node, response: int, rest: seq<Term>, word: string, name: Option<string>, strict: bool)
    requires Add(NewNode(word, name.Some?), response, rest, strict).Some? && Lower(word) !in Keys(n.children)
    requires name.Some? ==> n.name.None? || n.name == name
    ensures var n' := AddKeyword(n, response, rest, word, name, strict);
            && n'.Some? && n'.value.kind == n.kind && Keys(n'.value.children) == Keys(n.children) + [Lower(word)]
            && n'.value.name == (if name.Some? then name else n.name)
  {
    AddKeepsWord(NewNode(word, name.Some?), response, rest, strict);
    hide Add;
    assert Keys(n.children)[0..] == Keys(n.children);
  }

  lemma {:induction false} WordsAreAdded(n: Node, response: int, rest: seq<Term>, words: seq<string>, name: string, strict: bool)
    requires Apart(words) && (n.name.None? || n.name == Some(name))
    requires forall w :: w in words ==> Lower(w) !in Keys(n.children)
    requires forall w :: w in words ==> Add(NewNode(w, true), response, rest, strict).Some?
    ensures AddChoice(n, response, rest, words, name, strict).Some?
    decreases |words|
  {
    if words != [] {
      NewKeyword(n, response, rest, words[0], Some(name), strict);
      var n' := AddKeyword(n, response, rest, words[0], Some(name), strict).value;
      hide Add, AddKeyword, Keys;
      forall w | w in words[1..] ensures w in words && Lower(w) !in Keys(n'.children) {
        var i :| 0 <= i < |words[1..]| && words[1..][i] == w;
        assert words[i + 1] == w;
      }
      WordsAreAdded(n', response, rest, words[1..], name, strict);
    }
  }

  /** A fresh node takes every straight pattern. */
  lemma {:induction false} StraightIsAdded(n: Node, response: int, terms: seq<Term>, strict: bool)
    requires Fresh(n) && Straight(terms) && response != 0
    ensures Add(n, response, terms, strict).Some?
    decreases |terms|, 1
  {
    if terms != [] {
      var rest := terms[1..];
      match terms[0]
      case Keyword(word) =>
        StraightIsAdded(NewNode(word, false), response, rest, strict);
        NewKeyword(n.(kind := Keywords), response, rest, word, None, strict);
      case Choice(optional, name, words) => ChoiceIsAdded(n, response, rest, optional, name, words, strict);
      case FillIn(blank) => StraightIsAdded(NewNode(blank.shown, false), response, rest, strict);
      case OptionalFillIn(blank) => StraightIsAdded(NewNode(blank.shown, false), response, rest, strict);
      case Ellipsis =>
    }
  }

  lemma {:induction false} ChoiceIsAdded(n: Node, response: int, rest: seq<Term>, optional: bool, name: string,
                                         words: seq<string>, strict: bool)
    requires Fresh(n) && Straight([Choice(optional, name, words)] + rest) && response != 0
    ensures Add(n, response, [Choice(optional, name, words)] + rest, strict).Some?
    decreases |rest| + 1, 0
  {
    assert ([Choice(optional, name, words)] + rest)[1..] == rest;
    var open := n.(kind := Keywords);
    forall w | w in words ensures Add(NewNode(w, true), response, rest, strict).Some? {
      StraightIsAdded(NewNode(w, true), response, rest, strict);
    }
    if optional && rest != [] {
      StraightIsAdded(NewNode(rest[0].word, false), response, rest[1..], strict);
      NewKeyword(open, response, rest[1..], rest[0].word, None, strict);
      var omitted := AddKeyword(open, response, rest[1..], rest[0].word, None, strict).value;
      WordsAreAdded(omitted, response, rest, words, name, strict);
    } else {
      WordsAreAdded(if optional then open.(response := response) else open, response, rest, words, name, strict);
    }
  }

  /** Commands that begin with different words, and go straight on. */
  predicate ApartCommands(commands: seq<Command>) {
    && (forall i :: 0 <= i < |commands| ==>
          commands[i].terms != [] && commands[i].terms[0].Keyword? && Straight(commands[i].terms))
    && (forall i, j :: 0 <= i < j < |commands| ==> Lower(commands[i].terms[0].word) != Lower(commands[j].terms[0].word))
  }

  /** A root as it is before and between such commands. */
  predicate Rooted(n: Node) {
    Fresh(n) || n.kind.Keywords?
  }

  lemma CommandIsAdded(n: Node, response: int, terms: seq<Term>, strict: bool)
    requires Rooted(n) && terms != [] && terms[0].Keyword? && Straight(terms) && response != 0
    requires Lower(terms[0].word) !in Keys(n.children)
    ensures var n' := Add(n, response, terms, strict);
            n'.Some? && Rooted(n'.value) && Keys(n'.value.children) == Keys(n.children) + [Lower(terms[0].word)]
  {
    StraightIsAdded(NewNode(terms[0].word, false), response, terms[1..], strict);
    NewKeyword(n.(kind := Keywords), response, terms[1..], terms[0].word, None, strict);
  }

  lemma {:induction false} CommandsAreAdded(n: Node, commands: seq<Command>, k: nat, strict: bool, strtod: Strtod)
    requires WritableCommands(commands) && ApartCommands(commands) && k <= |commands| && Rooted(n)
    requires forall i :: k <= i < |commands| ==> Lower(commands[i].terms[0].word) !in Keys(n.children)
    ensures AddAll(n, Definitions(commands)[k..], strict, strtod).Some?
    decreases |commands| - k
  {
    if k < |commands| {
      var c, defs := commands[k], Definitions(commands);
      assert c in commands;
      TermsAreRead(c, strtod);
      CommandIsAdded(n, c.response, c.terms, strict);
      var n' := Add(n, c.response, c.terms, strict).value;
      hide Add, TermsOf, Keys, Rooted, Straight;
      CommandsAreAdded(n', commands, k + 1, strict, strtod);
      assert defs[k..][0] == DefinitionOf(c) && defs[k..][1..] == defs[k + 1..];
    }
  }

  lemma OneSet(defs: seq<Definition>, strtod: Strtod)
    ensures Flatten([defs]) == defs
    ensures AddAll(EmptyParser, defs, true, strtod).Some? ==> Compile([defs], true, strtod).Some?
  {
    hide AddAll, SortAll;
    var sets := [defs];
    assert Flatten(sets) == defs + Flatten(sets[1..]) == defs;
    var n := CompileSet(EmptyParser, defs, true, strtod);
    if n.Some? {
      assert AddSets(n.value, sets[1..], true, strtod) == n;
    }
  }

  /** Statements of such commands are all accepted, and then the parser answers with a response just for the
      command lines of its command. */
  lemma ApartAnswers(commands: seq<Command>, tokens: seq<string>, response: int, strtod: Strtod)
    requires WritableCommands(commands) && ApartCommands(commands)
    ensures var n := Compile([Definitions(commands)], true, strtod);
            && n.Some? && WellFormed(n.value) && n == Compile([Definitions(commands)], false, strtod)
            && var o := Interpret(n.value, tokens, strtod);
               o.Accepted? && o.response == response <==> SomeCommand(commands, tokens, response, strtod)
  {
    var defs := Definitions(commands);
    CommandsAreAdded(EmptyParser, commands, 0, true, strtod);
    assert defs[0..] == defs;
    OneSet(defs, strtod);
    AddSetsLax(EmptyParser, [defs], strtod);
    AnswersWritten([defs], commands, tokens, response, strtod);
  }
}
