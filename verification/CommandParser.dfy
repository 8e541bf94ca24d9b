/** Whole parsers: sets of definitions compiled one after another, sorted after each set, and
    command lines interpreted by binary search (src/libfootball/fb_parser.c). */
module CommandParser {
  import opened Basics
  import opened CStrings
  import opened Patterns
  import opened CommandTrie

  // ---------------------------------------------------------------- sorting

  function Key(n: Node): string {
    Lower(n.word)
  }

  function Insert(x: Node, s: seq<Node>): (r: seq<Node>)
    ensures |r| == |s| + 1
    ensures forall y :: y in r <==> y == x || y in s
  {
    if s == [] || Compare(Key(x), Key(s[0])) <= 0 then [x] + s
    else [s[0]] + Insert(x, s[1..])
  }

  /** qsort(3) by keyword; no two keywords of a node are alike, so the result is settled. */
  function SortByKey(s: seq<Node>): (r: seq<Node>)
    ensures |r| == |s|
    ensures forall y :: y in r <==> y in s
  {
    if s == [] then [] else Insert(s[0], SortByKey(s[1..]))
  }

  /** fb_sort_all. */
  function SortAll(n: Node): Node
    decreases n, 1
  {
    n.(children := SortByKey(SortEach(n)))
  }

  function SortEach(n: Node): (r: seq<Node>)
    ensures |r| == |n.children|
    ensures forall i :: 0 <= i < |r| ==> r[i] == SortAll(n.children[i])
    decreases n, 0
  {
    seq(|n.children|, i requires 0 <= i < |n.children| => SortAll(n.children[i]))
  }

  lemma {:induction false} InsertAscending(x: Node, s: seq<Node>)
    requires Ascending(Keys(s)) && Key(x) !in Keys(s)
    ensures Ascending(Keys(Insert(x, s)))
  {
    if s != [] && Compare(Key(x), Key(s[0])) > 0 {
      var keys := Keys(s);
      assert Key(s[0]) == keys[0];
      assert Keys(s[1..]) == keys[1..];
      InsertAscending(x, s[1..]);
      AscendingCons(s[0], Insert(x, s[1..])) by {
        forall y | y in Insert(x, s[1..])
          ensures Compare(Key(s[0]), Key(y)) < 0
        {
          if y == x {
            CompareFlip(Key(s[0]), Key(x));
          } else {
            var j :| 0 <= j < |s[1..]| && s[1..][j] == y;
            assert keys[j + 1] == Key(y);
          }
        }
      }
    } else if s != [] {
      CompareEqual(Key(x), Key(s[0]));
      assert Key(s[0]) == Keys(s)[0];
      forall y | y in s
        ensures Compare(Key(x), Key(y)) < 0
      {
        var j :| 0 <= j < |s| && s[j] == y;
        assert Keys(s)[j] == Key(y);
        if j > 0 {
          CompareTransitive(Key(x), Keys(s)[0], Keys(s)[j]);
        }
      }
      AscendingCons(x, s);
    }
  }

  lemma AscendingCons(x: Node, s: seq<Node>)
    requires Ascending(Keys(s)) && forall y :: y in s ==> Compare(Key(x), Key(y)) < 0
    ensures Ascending(Keys([x] + s))
  {
    var keys := Keys([x] + s);
    forall i, j | 0 <= i < j < |keys|
      ensures Compare(keys[i], keys[j]) < 0
    {
      if i == 0 {
        assert keys[j] == Key(s[j - 1]) && s[j - 1] in s;
      } else {
        assert keys[i] == Keys(s)[i - 1] && keys[j] == Keys(s)[j - 1];
      }
    }
  }

  lemma {:induction false} SortByKeyAscending(s: seq<Node>)
    requires Distinct(Keys(s))
    ensures Ascending(Keys(SortByKey(s)))
  {
    if s != [] {
      assert Keys(s[1..]) == Keys(s)[1..];
      SortByKeyAscending(s[1..]);
      var t := SortByKey(s[1..]);
      forall j | 0 <= j < |t|
        ensures Keys(t)[j] != Key(s[0])
      {
        assert t[j] in s[1..];
        var i :| 0 <= i < |s[1..]| && s[1..][i] == t[j];
        assert Keys(s)[i + 1] == Keys(t)[j] && Keys(s)[0] == Key(s[0]);
      }
      InsertAscending(s[0], t);
    }
  }

  lemma AscendingDistinct(keys: seq<string>)
    requires Ascending(keys)
    ensures Distinct(keys)
  {
    forall i, j | 0 <= i < j < |keys|
      ensures keys[i] != keys[j]
    {
      CompareEqual(keys[i], keys[j]);
    }
  }

  /** Every keyword node has its keywords in order, so that bsearch(3) works on it. */
  ghost predicate Sorted(n: Node) {
    && (n.kind.Keywords? ==> Ascending(Keys(n.children)))
    && forall i :: 0 <= i < |n.children| ==> Sorted(n.children[i])
  }

  lemma SortEachKeys(n: Node)
    ensures Keys(SortEach(n)) == Keys(n.children)
  {
  }

  lemma {:induction false} SortAllSorts(n: Node)
    requires WellFormed(n)
    ensures WellFormed(SortAll(n)) && Sorted(SortAll(n))
    decreases n
  {
    var each := SortEach(n);
    var sorted := SortByKey(each);
    SortEachKeys(n);
    if n.kind.Keywords? {
      SortByKeyAscending(each);
      AscendingDistinct(Keys(sorted));
    }
    forall i | 0 <= i < |sorted|
      ensures WellFormed(sorted[i]) && Settled(sorted[i]) && Sorted(sorted[i])
    {
      assert sorted[i] in each;
      var j :| 0 <= j < |each| && each[j] == sorted[i];
      SortAllSorts(n.children[j]);
    }
  }

  function SortedNode(n: Option<Node>): Option<Node> {
    match n case Some(m) => Some(SortAll(m)) case None => None
  }

  lemma SortedChild(n: Node, token: string, strtod: Strtod)
    requires WellFormed(n) && WellFormed(SortAll(n))
    ensures ChildFor(SortAll(n), token, strtod) == SortedNode(ChildFor(n, token, strtod))
  {
    var each := SortEach(n);
    var sorted := SortByKey(each);
    SortEachKeys(n);
    if n.kind.Keywords? {
      SortedFind(each, sorted, Lower(token));
    } else if n.kind.Value? {
      assert sorted[0] in each;
    }
  }

  /** A key is found among the same nodes in another order. */
  lemma SortedFind(each: seq<Node>, sorted: seq<Node>, key: string)
    requires |sorted| == |each| && (forall y :: y in sorted <==> y in each)
    requires forall i, j :: 0 <= i < j < |sorted| ==> Keys(sorted)[i] != Keys(sorted)[j]
    ensures var at, at' := LFind(Keys(each), key, 0), LFind(Keys(sorted), key, 0);
            (at.None? <==> at'.None?) && (at.Some? ==> sorted[at'.value] == each[at.value])
  {
    var at := LFind(Keys(each), key, 0);
    if at.Some? {
      assert each[at.value] in sorted;
      var j :| 0 <= j < |sorted| && sorted[j] == each[at.value];
      LFindAt(Keys(sorted), key, j);
    } else {
      assert Keys(each)[0..] == Keys(each);
      forall j | 0 <= j < |sorted|
        ensures Keys(sorted)[j] != key
      {
        assert sorted[j] in each;
        var i :| 0 <= i < |each| && each[i] == sorted[j];
        assert Keys(sorted)[j] == Keys(each)[i];
      }
    }
  }

  /** Sorting moves nodes about but leads every token list to the same node as before. */
  lemma {:induction false} SortKeepsNodes(n: Node, tokens: seq<string>, strtod: Strtod)
    requires WellFormed(n)
    ensures WellFormed(SortAll(n))
    ensures NodeAt(SortAll(n), tokens, strtod) == SortedNode(NodeAt(n, tokens, strtod))
    decreases |tokens|
  {
    SortAllSorts(n);
    if tokens != [] {
      SortedChild(n, tokens[0], strtod);
      var child := ChildFor(n, tokens[0], strtod);
      if child.Some? {
        SortKeepsNodes(child.value, tokens[1..], strtod);
      }
    }
  }

  // ---------------------------------------------------------------- interpreting

  /** What fb_interpret returns, with `at` the number of tokens before the error term it sets (on
      acceptance, before the first term it did not use). */
  datatype Outcome =
    | Accepted(response: int, at: nat)
    | Incomplete(missing: string)
    | InvalidKeyword(at: nat)
    | ExtraTerms(at: nat)
    | BadNumber(at: nat)
    | BadRange(at: nat)

  function Later(o: Outcome): Outcome {
    match o
    case Accepted(r, at) => Accepted(r, at + 1)
    case Incomplete(missing) => Incomplete(missing)
    case InvalidKeyword(at) => InvalidKeyword(at + 1)
    case ExtraTerms(at) => ExtraTerms(at + 1)
    case BadNumber(at) => BadNumber(at + 1)
    case BadRange(at) => BadRange(at + 1)
  }

  /** fb_interpret_recurse. */
  function Interpret(n: Node, tokens: seq<string>, strtod: Strtod): Outcome
    requires WellFormed(n)
    decreases |tokens|
  {
    if tokens == [] then
      if n.response != 0 then Accepted(n.response, 0) else Incomplete(n.word)
    else
      match n.kind
      case Undetermined => ExtraTerms(0)
      case OpenEnd => Accepted(n.response, 0)
      case Keywords =>
        (match BSearch(Keys(n.children), Lower(tokens[0]), 0, |n.children|)
         case None => InvalidKeyword(0)
         case Some(i) => Later(Interpret(n.children[i], tokens[1..], strtod)))
      case Value(spec) =>
        match FitOf(spec, tokens[0], strtod)
        case NotANumber => BadNumber(0)
        case OutOfRange => BadRange(0)
        case Fits => Later(Interpret(n.children[0], tokens[1..], strtod))
  }

  predicate TakesBad(n: Node, tokens: seq<string>, at: nat, bad: Fit, strtod: Strtod)
    requires WellFormed(n) && at < |tokens|
  {
    && Reached(n, tokens[..at], strtod)
    && var kind := NodeAt(n, tokens[..at], strtod).value.kind;
       kind.Value? && FitOf(kind.spec, tokens[at], strtod) == bad
  }

  predicate TakesNothing(n: Node, tokens: seq<string>, strtod: Strtod)
    requires WellFormed(n)
  {
    Reached(n, tokens, strtod) && NodeAt(n, tokens, strtod).value.kind.Undetermined?
  }

  predicate StopsAt(n: Node, tokens: seq<string>, at: nat, strtod: Strtod)
    requires WellFormed(n)
  {
    at < |tokens| && Reached(n, tokens[..at], strtod) && !Reached(n, tokens[..at + 1], strtod)
  }

  /** What an outcome says about where the tokens lead. */
  ghost predicate Verdict(n: Node, tokens: seq<string>, o: Outcome, strtod: Strtod)
    requires WellFormed(n)
  {
    match o
    case Accepted(r, at) =>
      && at <= |tokens| && r != 0 && Complete(n, tokens, strtod) == r
      && (at < |tokens| ==> Takes(n, tokens[..at], Anything, strtod))
      && (forall k :: 0 <= k < at ==> !Takes(n, tokens[..k], Anything, strtod))
    case Incomplete(_) => Reached(n, tokens, strtod) && Complete(n, tokens, strtod) == 0
    case InvalidKeyword(at) => StopsAt(n, tokens, at, strtod) && Takes(n, tokens[..at], AKeyword, strtod)
    case ExtraTerms(at) => StopsAt(n, tokens, at, strtod) && TakesNothing(n, tokens[..at], strtod)
    case BadNumber(at) => StopsAt(n, tokens, at, strtod) && TakesBad(n, tokens, at, NotANumber, strtod)
    case BadRange(at) => StopsAt(n, tokens, at, strtod) && TakesBad(n, tokens, at, OutOfRange, strtod)
  }

  lemma PrefixBelow(n: Node, child: Node, tokens: seq<string>, k: nat, strtod: Strtod)
    requires WellFormed(n) && WellFormed(child) && k < |tokens| && ChildFor(n, tokens[0], strtod) == Some(child)
    ensures NodeAt(n, tokens[..k + 1], strtod) == NodeAt(child, tokens[1..][..k], strtod)
  {
    assert tokens[..k + 1][1..] == tokens[1..][..k];
  }

  lemma AcceptedBelow(n: Node, child: Node, tokens: seq<string>, o: Outcome, strtod: Strtod)
    requires WellFormed(n) && WellFormed(child) && tokens != [] && ChildFor(n, tokens[0], strtod) == Some(child)
    requires !n.kind.OpenEnd? && o.Accepted? && Verdict(child, tokens[1..], o, strtod)
    ensures Verdict(n, tokens, Later(o), strtod)
  {
    LookBelow(n, child, tokens, strtod);
    hide WellFormed, NodeAt;
    if o.at + 1 < |tokens| {
      PrefixBelow(n, child, tokens, o.at, strtod);
    }
    forall k | 0 <= k < o.at + 1
      ensures !Takes(n, tokens[..k], Anything, strtod)
    {
      if k > 0 {
        PrefixBelow(n, child, tokens, k - 1, strtod);
      } else {
        assert tokens[..0] == [];
      }
    }
  }

  lemma StopBelow(n: Node, child: Node, tokens: seq<string>, at: nat, strtod: Strtod)
    requires WellFormed(n) && WellFormed(child) && tokens != [] && ChildFor(n, tokens[0], strtod) == Some(child)
    requires StopsAt(child, tokens[1..], at, strtod)
    ensures StopsAt(n, tokens, at + 1, strtod)
    ensures forall e :: Takes(n, tokens[..at + 1], e, strtod) <==> Takes(child, tokens[1..][..at], e, strtod)
    ensures TakesNothing(n, tokens[..at + 1], strtod) <==> TakesNothing(child, tokens[1..][..at], strtod)
    ensures forall bad :: TakesBad(n, tokens, at + 1, bad, strtod) <==> TakesBad(child, tokens[1..], at, bad, strtod)
  {
    PrefixBelow(n, child, tokens, at, strtod);
    PrefixBelow(n, child, tokens, at + 1, strtod);
  }

  lemma VerdictBelow(n: Node, child: Node, tokens: seq<string>, o: Outcome, strtod: Strtod)
    requires WellFormed(n) && WellFormed(child) && tokens != [] && ChildFor(n, tokens[0], strtod) == Some(child)
    requires !n.kind.OpenEnd? && Verdict(child, tokens[1..], o, strtod)
    ensures Verdict(n, tokens, Later(o), strtod)
  {
    if o.Accepted? {
      AcceptedBelow(n, child, tokens, o, strtod);
    } else if o.Incomplete? {
      LookBelow(n, child, tokens, strtod);
    } else {
      StopBelow(n, child, tokens, o.at, strtod);
    }
  }

  /** Interpreting a sorted tree by binary search says where the tokens lead, as linear search finds it. */
  lemma {:induction false} InterpretVerdict(n: Node, tokens: seq<string>, strtod: Strtod)
    requires WellFormed(n) && Sorted(n)
    ensures Verdict(n, tokens, Interpret(n, tokens, strtod), strtod)
    decreases |tokens|
  {
    if tokens != [] {
      assert tokens[..0] == [] && tokens[..1] == [tokens[0]];
      if n.kind.Keywords? {
        BSearchIsLFind(Keys(n.children), Lower(tokens[0]));
      }
      if n.kind.OpenEnd? {
        OpenEndAbsorbs(n, tokens, strtod);
      } else {
        var child := ChildFor(n, tokens[0], strtod);
        if child.Some? {
          SortedBelow(n, tokens[0], strtod);
          InterpretVerdict(child.value, tokens[1..], strtod);
          VerdictBelow(n, child.value, tokens, Interpret(child.value, tokens[1..], strtod), strtod);
        }
      }
    }
  }

  lemma SortedBelow(n: Node, token: string, strtod: Strtod)
    requires WellFormed(n) && Sorted(n) && ChildFor(n, token, strtod).Some?
    ensures Sorted(ChildFor(n, token, strtod).value)
  {
  }

  lemma {:induction false} ReachedPrefix(n: Node, tokens: seq<string>, k: nat, strtod: Strtod)
    requires WellFormed(n) && Reached(n, tokens, strtod) && k <= |tokens|
    ensures Reached(n, tokens[..k], strtod)
    decreases k
  {
    if k > 0 {
      var child := ChildFor(n, tokens[0], strtod).value;
      LookBelow(n, child, tokens, strtod);
      ReachedPrefix(child, tokens[1..], k - 1, strtod);
      PrefixBelow(n, child, tokens, k - 1, strtod);
    }
  }

  /** Outcomes agree, but for the name of a missing term. */
  predicate SameOutcome(a: Outcome, b: Outcome) {
    a == b || (a.Incomplete? && b.Incomplete?)
  }

  lemma StopsOnce(n: Node, tokens: seq<string>, i: nat, j: nat, strtod: Strtod)
    requires WellFormed(n) && StopsAt(n, tokens, i, strtod) && StopsAt(n, tokens, j, strtod)
    ensures i >= j
  {
    if i < j {
      assert tokens[..j][..i + 1] == tokens[..i + 1];
      ReachedPrefix(n, tokens[..j], i + 1, strtod);
    }
  }

  lemma StopsNotReached(n: Node, tokens: seq<string>, i: nat, strtod: Strtod)
    requires WellFormed(n) && StopsAt(n, tokens, i, strtod)
    ensures !Reached(n, tokens, strtod)
  {
    if Reached(n, tokens, strtod) {
      ReachedPrefix(n, tokens, i + 1, strtod);
    }
  }

  lemma SameStop(n: Node, tokens: seq<string>, a: Outcome, b: Outcome, strtod: Strtod)
    requires WellFormed(n) && Verdict(n, tokens, a, strtod) && Verdict(n, tokens, b, strtod)
    requires !a.Accepted? && !a.Incomplete? && !b.Accepted? && !b.Incomplete?
    ensures a == b
  {
    StopsOnce(n, tokens, a.at, b.at, strtod);
    StopsOnce(n, tokens, b.at, a.at, strtod);
    var kind := NodeAt(n, tokens[..a.at], strtod).value.kind;
    assert kind.Value? ==> Takes(n, tokens[..a.at], AValue(kind.spec), strtod);
  }

  /** A token list leads one way only: there is one verdict. */
  lemma VerdictUnique(n: Node, tokens: seq<string>, a: Outcome, b: Outcome, strtod: Strtod)
    requires WellFormed(n) && Verdict(n, tokens, a, strtod) && Verdict(n, tokens, b, strtod)
    ensures SameOutcome(a, b)
  {
    var endsA, endsB := a.Accepted? || a.Incomplete?, b.Accepted? || b.Incomplete?;
    if !endsA && !endsB {
      SameStop(n, tokens, a, b, strtod);
    } else if !endsA {
      StopsNotReached(n, tokens, a.at, strtod);
    } else if !endsB {
      StopsNotReached(n, tokens, b.at, strtod);
    }
  }
}
