/** fb_create_argv: splitting a command line into an argv vector (src/libfootball/fb_parser.c).
    The C function counts words in a first pass that ignores quotes, sizes the vector by that
    count, and fills it in a second, quote-aware pass that chops up a private copy of the line. */
module Tokenizer {
  import opened CStrings

  // ---------------------------------------------------------------- what a line means

  /** A term: where it starts in the line (at its opening quote, if it has one), and its text. */
  datatype Token = Token(start: nat, text: string)

  /** The first index at or after `i` that is whitespace. */
  function WordEnd(s: string, i: nat): (r: nat)
    requires i <= |s|
    ensures i <= r <= |s|
    ensures r < |s| ==> IsSpace(s[r])
    ensures forall k :: i <= k < r ==> !IsSpace(s[k])
    decreases |s| - i
  {
    if i < |s| && !IsSpace(s[i]) then WordEnd(s, i + 1) else i
  }

  /** A quote that closes a term: one at the end of a word. */
  predicate ClosesAt(s: string, i: nat)
    requires i < |s|
  {
    s[i] == '"' && (i + 1 == |s| || IsSpace(s[i + 1]))
  }

  function QuoteEnd(s: string, i: nat): (r: nat)
    requires i <= |s|
    ensures i <= r <= |s|
    ensures r < |s| ==> ClosesAt(s, r)
    ensures forall k :: i <= k < r ==> !ClosesAt(s, k)
    decreases |s| - i
  {
    if i < |s| && !ClosesAt(s, i) then QuoteEnd(s, i + 1) else i
  }

  /** The text range of the term at `i`: first and past-the-last index. */
  function TermFrom(s: string, i: nat): nat
    requires i < |s|
  {
    if s[i] == '"' then i + 1 else i
  }

  function TermEnd(s: string, i: nat): (r: nat)
    requires i < |s|
    ensures TermFrom(s, i) <= r <= |s|
  {
    if s[i] == '"' then QuoteEnd(s, i + 1) else WordEnd(s, i)
  }

  /** Where scanning resumes after the term at `i`. */
  function NextTerm(s: string, i: nat): (r: nat)
    requires i < |s|
    requires !IsSpace(s[i])
    ensures i < r <= |s|
    ensures r < |s| ==> !IsSpace(s[r]) && IsSpace(s[r - 1])
  {
    var e := TermEnd(s, i);
    if e < |s| then
      var r := SkipSpace(s, e + 1);
      assert s[i] != '"' ==> e > i;
      r
    else e
  }

  /** The terms of `s` from index `i` on, which is at a term or at the end. */
  function Split(s: string, i: nat): seq<Token>
    requires i <= |s|
    requires i < |s| ==> !IsSpace(s[i])
    decreases |s| - i
  {
    if i == |s| then []
    else [Token(i, s[TermFrom(s, i)..TermEnd(s, i)])] + Split(s, NextTerm(s, i))
  }

  function Trim(line: string): (r: string)
    ensures r != [] ==> !IsSpace(r[0])
  {
    line[SkipSpace(line, 0)..]
  }

  /** The terms of a whole line, placed in the line without its leading whitespace. */
  function Terms(line: string): seq<Token> {
    Split(Trim(line), 0)
  }

  function Texts(tokens: seq<Token>): seq<string> {
    seq(|tokens|, k requires 0 <= k < |tokens| => tokens[k].text)
  }

  /** The first pass: how many whitespace-separated words there are. */
  function CountWords(s: string, i: nat): nat
    requires i <= |s|
    requires i < |s| ==> !IsSpace(s[i])
    decreases |s| - i
  {
    if i == |s| then 0 else 1 + CountWords(s, SkipSpace(s, WordEnd(s, i)))
  }

  // ---------------------------------------------------------------- the vector is big enough

  /** Word starts further right have fewer words after them. */
  lemma {:induction false} CountWordsLater(s: string, i: nat, j: nat)
    requires i < j <= |s|
    requires !IsSpace(s[i])
    requires j < |s| ==> !IsSpace(s[j]) && IsSpace(s[j - 1])
    ensures CountWords(s, j) < CountWords(s, i)
    decreases j - i
  {
    var n := SkipSpace(s, WordEnd(s, i));
    if n < j {
      CountWordsLater(s, n, j);
    }
  }

  /** The quote-aware pass never finds more terms than the first pass counted words. */
  lemma {:induction false} TermsFitCount(s: string, i: nat)
    requires i <= |s|
    requires i < |s| ==> !IsSpace(s[i])
    ensures |Split(s, i)| <= CountWords(s, i)
    decreases |s| - i
  {
    if i < |s| {
      TermsFitCount(s, NextTerm(s, i));
      CountWordsLater(s, i, NextTerm(s, i));
    }
  }

  // ---------------------------------------------------------------- writing terms back

  function Quoted(term: string): string {
    "\"" + term + "\""
  }

  /** Terms written out, each in quotes, one space between. */
  function WriteQuoted(terms: seq<string>): string {
    if terms == [] then ""
    else if |terms| == 1 then Quoted(terms[0])
    else Quoted(terms[0]) + " " + WriteQuoted(terms[1..])
  }

  /** No quote directly before whitespace, where it would be taken for the closing one. */
  predicate Quotable(term: string) {
    forall k :: 0 <= k < |term| - 1 ==> !(term[k] == '"' && IsSpace(term[k + 1]))
  }

  lemma NoEarlyClose(p: string, t: string, q: string, i: nat)
    requires Quotable(t) && |p| + 1 <= i < |p| + 1 + |t|
    ensures !ClosesAt(p + Quoted(t) + q, i)
  {
    var s := p + Quoted(t) + q;
    var k := i - |p| - 1;
    assert s[i] == t[k];
    assert k + 1 < |t| ==> s[i + 1] == t[k + 1];
  }

  /** The first quoted term of a written list is scanned to its end exactly when it is quotable. */
  lemma QuotedTermEnd(p: string, t: string, q: string)
    requires q == "" || q[0] == ' '
    ensures var s := p + Quoted(t) + q;
            TermEnd(s, |p|) == |p| + 1 + |t| <==> Quotable(t)
    ensures TermEnd(p + Quoted(t) + q, |p|) <= |p| + 1 + |t|
    ensures (p + Quoted(t) + q)[|p| + 1..|p| + 1 + |t|] == t
  {
    var s := p + Quoted(t) + q;
    var close := |p| + 1 + |t|;
    assert forall k :: 0 <= k < |t| ==> s[|p| + 1 + k] == t[k];
    assert s[close] == '"' && ClosesAt(s, close);
    var e := QuoteEnd(s, |p| + 1);
    assert e <= close;
    if Quotable(t) {
      if e < close {
        NoEarlyClose(p, t, q, e);
      }
    }
    if !Quotable(t) {
      var k :| 0 <= k < |t| - 1 && t[k] == '"' && IsSpace(t[k + 1]);
      assert ClosesAt(s, |p| + 1 + k);
    }
  }

  lemma QuotedParts(p: string, t: string, q: string)
    ensures var s := p + Quoted(t) + q;
            && |s| == |p| + |t| + 2 + |q| && s[|p|] == '"'
            && (|q| > 1 ==> s[|p| + |t| + 2] == q[0] && s[|p| + |t| + 3] == q[1])
  {
  }

  lemma SplitOnce(s: string, i: nat)
    requires i < |s| && !IsSpace(s[i])
    ensures Split(s, i) == [Token(i, s[TermFrom(s, i)..TermEnd(s, i)])] + Split(s, NextTerm(s, i))
  {
  }

  /** Where the next term begins, behind a quoted one that ends the line or has a space after it. */
  lemma NextAfterQuoted(s: string, i: nat)
    requires i < |s| && s[i] == '"' && TermEnd(s, i) < |s|
    requires var e := TermEnd(s, i); e + 1 == |s| || (e + 2 < |s| && s[e + 1] == ' ' && !IsSpace(s[e + 2]))
    ensures var e := TermEnd(s, i); NextTerm(s, i) == if e + 1 == |s| then |s| else e + 2
  {
    var e := TermEnd(s, i);
    hide TermEnd;
    if e + 1 < |s| {
      assert SkipSpace(s, e + 2) == e + 2;
      assert SkipSpace(s, e + 1) == e + 2;
    }
  }

  lemma SplitQuotedAt(s: string, i: nat, t: string)
    requires i < |s| && s[i] == '"' && TermEnd(s, i) == i + 1 + |t| < |s| && s[i + 1..i + 1 + |t|] == t
    requires i + |t| + 2 == |s| || (i + |t| + 3 < |s| && s[i + |t| + 2] == ' ' && !IsSpace(s[i + |t| + 3]))
    ensures Split(s, i) == [Token(i, t)] + Split(s, if i + |t| + 2 == |s| then |s| else i + |t| + 3)
  {
    hide Split;
    SplitOnce(s, i);
    NextAfterQuoted(s, i);
  }

  /** Splitting at a quotable written term yields it and goes on after the separator. */
  lemma SplitQuoted(p: string, t: string, q: string)
    requires Quotable(t)
    requires q == "" || (|q| > 1 && q[0] == ' ' && !IsSpace(q[1]))
    ensures var s := p + Quoted(t) + q;
            var n := if q == "" then |s| else |p| + |t| + 3;
            && Split(s, |p|) == [Token(|p|, t)] + Split(s, n)
  {
    hide *;
    var s := p + Quoted(t) + q;
    QuotedParts(p, t, q);
    QuotedTermEnd(p, t, q);
    SplitQuotedAt(s, |p|, t);
  }

  lemma TextsCons(token: Token, tokens: seq<Token>)
    ensures Texts([token] + tokens) == [token.text] + Texts(tokens)
  {
  }

  lemma ConsEqual<T>(a: T, x: seq<T>, b: T, y: seq<T>)
    ensures [a] + x == [b] + y <==> a == b && x == y
  {
    if [a] + x == [b] + y {
      assert ([a] + x)[0] == a && ([b] + y)[0] == b;
      assert ([a] + x)[1..] == x && ([b] + y)[1..] == y;
    }
  }

  lemma QuotableCons(terms: seq<string>)
    requires terms != []
    ensures AllQuotable(terms) <==> Quotable(terms[0]) && AllQuotable(terms[1..])
  {
    assert terms == [terms[0]] + terms[1..];
  }

  /** Splitting at a term that is not quotable cuts it short. */
  lemma SplitUnquotable(p: string, t: string, q: string)
    requires !Quotable(t)
    requires q == "" || q[0] == ' '
    ensures var s := p + Quoted(t) + q; var here := Split(s, |p|);
            here != [] && Texts(here)[0] != t
  {
    var s := p + Quoted(t) + q;
    QuotedParts(p, t, q);
    QuotedTermEnd(p, t, q);
    SplitOnce(s, |p|);
    hide Quoted, Quotable, TermEnd, Split, NextTerm;
    assert Texts(Split(s, |p|))[0] == s[|p| + 1..TermEnd(s, |p|)];
  }

  predicate AllQuotable(terms: seq<string>) {
    forall t :: t in terms ==> Quotable(t)
  }

  /** What follows the first term of a written list. */
  function WrittenTail(terms: seq<string>): string {
    if |terms| <= 1 then "" else " " + WriteQuoted(terms[1..])
  }

  lemma WriteQuotedSplits(p: string, terms: seq<string>)
    requires terms != []
    ensures var q := WrittenTail(terms); var s := p + Quoted(terms[0]) + q;
            && p + WriteQuoted(terms) == s && s[|p|] == '"'
            && (q == "" || (|q| > 1 && q[0] == ' ' && q[1] == '"'))
            && (q != "" ==> s == p + Quoted(terms[0]) + " " + WriteQuoted(terms[1..]))
  {
  }

  lemma {:induction false} WriteThenSplit(p: string, terms: seq<string>)
    ensures var s := p + WriteQuoted(terms);
            && (|p| < |s| ==> !IsSpace(s[|p|]))
            && (Texts(Split(s, |p|)) == terms <==> AllQuotable(terms))
    decreases |terms|
  {
    if terms != [] {
      var t, q := terms[0], WrittenTail(terms);
      var s := p + Quoted(t) + q;
      WriteQuotedSplits(p, terms);
      QuotableCons(terms);
      if Quotable(t) {
        SplitQuoted(p, t, q);
        var rest := terms[1..];
        var n := if q == "" then |s| else |p| + |t| + 3;
        if q == "" {
          assert rest == [] && Split(s, n) == [];
        } else {
          var p' := p + Quoted(t) + " ";
          assert |p'| == n;
          assert p' + WriteQuoted(rest) == s;
          WriteThenSplit(p', rest);
        }
        TextsCons(Token(|p|, t), Split(s, n));
        ConsEqual(t, Texts(Split(s, n)), t, rest);
        assert terms == [t] + rest;
      } else {
        SplitUnquotable(p, t, q);
      }
    }
  }

  /** Writing terms in quotes and splitting the line gives the same terms back exactly when no
      term has a quote directly before whitespace. */
  lemma QuotedRoundTrip(terms: seq<string>)
    ensures Texts(Terms(WriteQuoted(terms))) == terms <==> AllQuotable(terms)
  {
    WriteThenSplit("", terms);
    assert "" + WriteQuoted(terms) == WriteQuoted(terms);
  }

  // ---------------------------------------------------------------- the C function

  datatype Pointer = Null | At(offset: nat)

  /** The C string at `p` in `buffer` is `text`. */
  predicate HoldsString(buffer: seq<char>, p: Pointer, text: string) {
    && p.At?
    && p.offset + |text| < |buffer|
    && buffer[p.offset..p.offset + |text|] == text
    && buffer[p.offset + |text|] == '\0'
  }

  /** `command`, the scratch copy of `t`, is untouched from `c` on. */
  ghost predicate Unscanned(command: seq<char>, t: string, c: nat) {
    && |command| == |t| + 1
    && command[|t|] == '\0'
    && forall j :: c <= j < |t| ==> command[j] == t[j]
  }

  /** The first pass. */
  method CountPass(command: array<char>, ghost t: string) returns (wordcount: nat)
    requires IsCString(t) && (t != [] ==> !IsSpace(t[0])) && Unscanned(command[..], t, 0)
    ensures wordcount == CountWords(t, 0)
  {
    wordcount := 0;
    var c := 0;
    while command[c] != '\0'
      invariant c <= |t|
      invariant c < |t| ==> !IsSpace(t[c])
      invariant wordcount + CountWords(t, c) == CountWords(t, 0)
      decreases |t| - c
    {
      ghost var from := c;
      wordcount := wordcount + 1;
      while command[c] != '\0' && !IsSpace(command[c])
        invariant from <= c <= |t|
        invariant WordEnd(t, c) == WordEnd(t, from)
        decreases |t| - c
      {
        c := c + 1;
      }
      while command[c] != '\0' && IsSpace(command[c])
        invariant from < c <= |t|
        invariant SkipSpace(t, c) == SkipSpace(t, WordEnd(t, from))
        decreases |t| - c
      {
        c := c + 1;
      }
    }
  }

  /** Find the end of the term at `from`. */
  method ScanTerm(command: array<char>, from: nat, ghost t: string) returns (c: nat)
    requires IsCString(t) && from < |t| && Unscanned(command[..], t, from)
    ensures c == TermEnd(t, from)
  {
    c := from;
    if command[c] == '"' {
      c := c + 1;
      while command[c] != '\0'
        invariant from < c <= |t|
        invariant QuoteEnd(t, c) == QuoteEnd(t, from + 1)
        decreases |t| - c
      {
        if command[c] == '"' && (IsSpace(command[c + 1]) || command[c + 1] == '\0') {
          break;
        }
        c := c + 1;
      }
    } else {
      while command[c] != '\0' && !IsSpace(command[c])
        invariant from <= c <= |t|
        invariant WordEnd(t, c) == WordEnd(t, from)
        decreases |t| - c
      {
        c := c + 1;
      }
    }
  }

  /** The first term is freed through argv[0], so its opening quote is dropped by shifting the
      text down over it. */
  method ShiftFirst(command: array<char>, c: nat, ghost t: string)
    requires IsCString(t) && 0 < c <= |t| && Unscanned(command[..], t, 0)
    modifies command
    ensures Unscanned(command[..], t, c)
    ensures HoldsString(command[..], At(0), t[1..c])
  {
    forall j | 0 <= j < c {
      command[j] := command[j + 1];
    }
    command[c - 1] := '\0';
    assert command[..][0..c - 1] == t[1..c];
  }

  /** A string that ends before `bound` survives any change from `bound` on. */
  lemma HoldsFrame(before: seq<char>, after: seq<char>, p: Pointer, text: string, bound: nat)
    requires HoldsString(before, p, text) && p.offset + |text| < bound
    requires |before| == |after|
    requires forall j :: 0 <= j < bound && j < |before| ==> after[j] == before[j]
    ensures HoldsString(after, p, text)
  {
    assert after[p.offset..p.offset + |text|] == before[p.offset..p.offset + |text|];
  }

  /** End the term that stops at `c` with a NUL and skip the whitespace after it. */
  method EndTerm(command: array<char>, end: nat, ghost t: string, ghost from: nat) returns (c: nat)
    requires IsCString(t) && from < |t| && !IsSpace(t[from]) && end == TermEnd(t, from)
    requires Unscanned(command[..], t, end)
    modifies command
    ensures c == NextTerm(t, from) && Unscanned(command[..], t, c)
    ensures forall j :: 0 <= j < end ==> command[j] == old(command[j])
    ensures command[end] == '\0' && (end < c || end == |t|)
  {
    c := end;
    if command[c] != '\0' {
      command[c] := '\0';
      c := c + 1;
    }
    while command[c] != '\0' && IsSpace(command[c])
      invariant end <= c <= |t|
      invariant end < |t| ==> end < c && SkipSpace(t, c) == NextTerm(t, from)
      decreases |t| - c
    {
      c := c + 1;
    }
  }

  /** Chop the term at `from` out of the scratch copy: where its text is, and where to go on. */
  method TakeTerm(command: array<char>, from: nat, ghost t: string) returns (p: Pointer, c: nat)
    requires IsCString(t) && from < |t| && !IsSpace(t[from]) && Unscanned(command[..], t, from)
    modifies command
    ensures c == NextTerm(t, from) && Unscanned(command[..], t, c)
    ensures HoldsString(command[..], p, Split(t, from)[0].text)
    ensures p.offset + |Split(t, from)[0].text| < if c < |t| then c else |t| + 1
    ensures from == 0 ==> p == At(0)
    ensures forall j :: 0 <= j < from ==> command[j] == old(command[j])
  {
    p := At(from);
    ghost var text := t[TermFrom(t, from)..TermEnd(t, from)];
    var end := ScanTerm(command, from, t);
    if command[from] == '"' {
      if from == 0 {
        ShiftFirst(command, end, t);
        ghost var shifted := command[..];
        c := EndTerm(command, end, t, from);
        HoldsFrame(shifted, command[..], p, text, end);
        return;
      }
      p := At(from + 1);
    }
    c := EndTerm(command, end, t, from);
    assert command[..][TermFrom(t, from)..end] == text;
  }

  /** What has been put in the vector: `argc` terms, all of whose texts end below `edge`. The
      vector holds argv at 0 and argr at `argr`; `lead` is the leading whitespace of the line. */
  ghost predicate Filled(command: seq<char>, vector: seq<Pointer>, argc: nat, argr: nat, lead: nat,
                         tokens: seq<Token>, edge: nat)
    requires argc <= |tokens| < argr && |vector| == 2 * argr
  {
    && (forall k :: 0 <= k < argc ==>
          HoldsString(command, vector[k], tokens[k].text) && vector[k].offset + |tokens[k].text| < edge)
    && (forall k :: argr <= k < argr + argc ==> vector[k] == At(lead + tokens[k - argr].start))
    && (forall k :: argc <= k < argr ==> vector[k] == Null)
    && (forall k :: argr + argc <= k < 2 * argr ==> vector[k] == Null)
    && (argc > 0 ==> vector[0] == At(0))
  }

  /** One more term in the vector, and nothing below the old edge disturbed. */
  lemma FilledStep(command: seq<char>, command': seq<char>, vector: seq<Pointer>, p: Pointer,
                   argc: nat, argr: nat, lead: nat, tokens: seq<Token>, edge: nat, edge': nat)
    requires argc < |tokens| < argr && |vector| == 2 * argr
    requires Filled(command, vector, argc, argr, lead, tokens, edge)
    requires HoldsString(command', p, tokens[argc].text) && p.offset + |tokens[argc].text| < edge'
    requires argc == 0 ==> p == At(0)
    requires |command'| == |command| && edge <= edge'
    requires forall j :: 0 <= j < edge && j < |command| ==> command'[j] == command[j]
    ensures Filled(command', vector[argc := p][argr + argc := At(lead + tokens[argc].start)],
                   argc + 1, argr, lead, tokens, edge')
  {
    forall k | 0 <= k < argc
      ensures HoldsString(command', vector[k], tokens[k].text)
    {
      HoldsFrame(command, command', vector[k], tokens[k].text, edge);
    }
  }

  method PutTerm(vector: array<Pointer>, argc: nat, argr: nat, p: Pointer, remainder: Pointer)
    requires argc < argr && vector.Length == 2 * argr
    modifies vector
    ensures vector[..] == old(vector[..])[argc := p][argr + argc := remainder]
  {
    vector[argc] := p;
    vector[argr + argc] := remainder;
  }

  /** The second pass has taken the first `argc` terms of `t` and stands at `c`. */
  ghost predicate Taken(command: seq<char>, vector: seq<Pointer>, argc: nat, argr: nat, lead: nat, t: string, c: nat)
    requires t != [] ==> !IsSpace(t[0])
  {
    var tokens := Split(t, 0);
    && c <= |t| && Unscanned(command, t, c) && (c < |t| ==> !IsSpace(t[c]))
    && argc <= |tokens| < argr && |vector| == 2 * argr
    && tokens[argc..] == Split(t, c)
    && (c == 0 <==> argc == 0)
    && Filled(command, vector, argc, argr, lead, tokens, if c < |t| then c else |t| + 1)
  }

  lemma TakenStep(command: seq<char>, command': seq<char>, vector: seq<Pointer>, p: Pointer,
                  argc: nat, argr: nat, lead: nat, t: string, c: nat)
    requires t != [] ==> !IsSpace(t[0])
    requires Taken(command, vector, argc, argr, lead, t, c) && c < |t|
    requires Unscanned(command', t, NextTerm(t, c))
    requires HoldsString(command', p, Split(t, c)[0].text) && (c == 0 ==> p == At(0))
    requires p.offset + |Split(t, c)[0].text| < if NextTerm(t, c) < |t| then NextTerm(t, c) else |t| + 1
    requires forall j :: 0 <= j < c ==> command'[j] == command[j]
    ensures argc < argr
    ensures Taken(command', vector[argc := p][argr + argc := At(lead + c)], argc + 1, argr, lead, t, NextTerm(t, c))
  {
    hide Filled, HoldsString, TermEnd, TermFrom;
    var tokens, next := Split(t, 0), NextTerm(t, c);
    assert tokens[argc] == Split(t, c)[0];
    assert tokens[argc + 1..] == Split(t, c)[1..] == Split(t, next);
    FilledStep(command, command', vector, p, argc, argr, lead, tokens, c, if next < |t| then next else |t| + 1);
  }

  lemma TakenGuard(command: seq<char>, vector: seq<Pointer>, argc: nat, argr: nat, lead: nat, t: string, c: nat)
    requires IsCString(t) && (t != [] ==> !IsSpace(t[0]))
    requires Taken(command, vector, argc, argr, lead, t, c)
    ensures c <= |t| && |command| == |t| + 1 && (command[c] == '\0' <==> c == |t|)
    ensures Unscanned(command, t, c) && (c < |t| ==> !IsSpace(t[c]))
  {
    hide Split, Filled;
    assert c < |t| ==> t[c] in t;
  }

  lemma TakenEnd(command: seq<char>, vector: seq<Pointer>, argc: nat, argr: nat, lead: nat, t: string)
    requires t != [] ==> !IsSpace(t[0])
    requires Taken(command, vector, argc, argr, lead, t, |t|)
    ensures argc == |Split(t, 0)| < argr && |vector| == 2 * argr
    ensures |command| == |t| + 1 && Filled(command, vector, argc, argr, lead, Split(t, 0), |command|)
  {
    hide Filled;
  }

  /** At first nothing is taken. */
  lemma NothingTaken(command: seq<char>, vector: seq<Pointer>, argr: nat, lead: nat, t: string)
    requires IsCString(t) && (t != [] ==> !IsSpace(t[0])) && Unscanned(command, t, 0)
    requires |Split(t, 0)| < argr && |vector| == 2 * argr
    requires forall k :: 0 <= k < 2 * argr ==> vector[k] == Null
    ensures Taken(command, vector, 0, argr, lead, t, 0)
  {
    hide Split, Unscanned, IsCString;
  }

  /** The second pass, over the trimmed line `t`. */
  method FillPass(command: array<char>, vector: array<Pointer>, argr: nat, lead: nat, ghost t: string)
    returns (argc: nat)
    requires IsCString(t) && (t != [] ==> !IsSpace(t[0])) && Unscanned(command[..], t, 0)
    requires |Split(t, 0)| < argr && vector.Length == 2 * argr
    requires forall k :: 0 <= k < 2 * argr ==> vector[k] == Null
    modifies command, vector
    ensures argc == |Split(t, 0)|
    ensures Filled(command[..], vector[..], argc, argr, lead, Split(t, 0), command.Length)
  {
    argc := 0;
    var c := 0;
    hide *;
    NothingTaken(command[..], vector[..], argr, lead, t);
    TakenGuard(command[..], vector[..], argc, argr, lead, t, c);
    while command[c] != '\0'
      invariant c < command.Length && (command[c] == '\0' <==> c == |t|) && vector.Length == 2 * argr
      invariant Taken(command[..], vector[..], argc, argr, lead, t, c)
      decreases |t| - c
    {
      ghost var command0 := command[..];
      TakenGuard(command0, vector[..], argc, argr, lead, t, c);
      var p, next := TakeTerm(command, c, t);
      TakenStep(command0, command[..], vector[..], p, argc, argr, lead, t, c);
      PutTerm(vector, argc, argr, p, At(lead + c));
      argc, c := argc + 1, next;
      TakenGuard(command[..], vector[..], argc, argr, lead, t, c);
    }
    TakenEnd(command[..], vector[..], argc, argr, lead, t);
  }

  /** The whole of fb_create_argv. The vector, sized by the first pass, takes every term of the
      second and still ends both its halves with a null. */
  method CreateArgv(line: string)
    returns (argc: nat, command: array<char>, vector: array<Pointer>, argr: nat)
    requires IsCString(line)
    ensures fresh(command) && fresh(vector)
    ensures argc == |Terms(line)| < argr && vector.Length == 2 * argr
    ensures Filled(command[..], vector[..], argc, argr, SkipSpace(line, 0), Terms(line), command.Length)
  {
    var lead := 0;
    while lead < |line| && IsSpace(line[lead])
      invariant lead <= |line|
      invariant SkipSpace(line, lead) == SkipSpace(line, 0)
    {
      lead := lead + 1;
    }
    ghost var t := line[lead..];
    var length := |line| - lead;
    command := new char[length + 1](i requires 0 <= i <= length => if i < length then line[lead + i] else '\0');
    var wordcount := CountPass(command, t);
    TermsFitCount(t, 0);
    argr := wordcount + 1;
    vector := new Pointer[2 * argr](_ => Null);
    argc := FillPass(command, vector, argr, lead, t);
  }
}
