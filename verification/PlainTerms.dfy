/** Command lines whose terms need no quotes, and where the terms of a line are (src/libfootball/fb_parser.c:131-216). */
module PlainTerms {
  import opened CStrings
  import opened Tokenizer

  /** A term that needs no quotes: a word, which does not begin with one. */
  predicate Plain(term: string) {
    term != [] && term[0] != '"' && forall k :: 0 <= k < |term| ==> !IsSpace(term[k])
  }

  predicate AllPlain(terms: seq<string>) {
    forall t :: t in terms ==> Plain(t)
  }

  /** Terms written out as they are, one space between. */
  function WritePlain(terms: seq<string>): string {
    if terms == [] then ""
    else if |terms| == 1 then terms[0]
    else terms[0] + " " + WritePlain(terms[1..])
  }

  lemma {:induction false} WordEndIs(s: string, i: nat, e: nat)
    requires i <= e <= |s| && (forall k :: i <= k < e ==> !IsSpace(s[k])) && (e < |s| ==> IsSpace(s[e]))
    ensures WordEnd(s, i) == e
    decreases e - i
  {
    if i < e {
      WordEndIs(s, i + 1, e);
    }
  }

  lemma PlainTermEnd(p: string, t: string, q: string)
    requires Plain(t) && (q == "" || q[0] == ' ')
    ensures var s := p + t + q;
            && |p| < |s| && !IsSpace(s[|p|])
            && TermFrom(s, |p|) == |p| && TermEnd(s, |p|) == |p| + |t| && s[|p|..|p| + |t|] == t
  {
    var s := p + t + q;
    assert forall k :: |p| <= k < |p| + |t| ==> s[k] == t[k - |p|];
    WordEndIs(s, |p|, |p| + |t|);
  }

  /** From `i` on, the line splits into these terms. */
  predicate Splits(s: string, i: nat, terms: seq<string>) {
    i <= |s| && (i < |s| ==> !IsSpace(s[i])) && Texts(Split(s, i)) == terms
  }

  lemma SplitsAtEnd(s: string)
    ensures Splits(s, |s|, [])
  {
  }

  /** A word at the end of a line, */
  lemma SplitsLast(s: string, i: nat, t: string)
    requires i < |s| && !IsSpace(s[i]) && TermFrom(s, i) == i && TermEnd(s, i) == |s| && s[i..|s|] == t
    ensures Splits(s, i, [t])
  {
    SplitOnce(s, i);
    hide TermEnd, TermFrom;
    TextsCons(Token(i, t), []);
  }

  /** and one with a space and more behind it. */
  lemma SplitsMore(s: string, i: nat, e: nat, t: string, rest: seq<string>)
    requires i < |s| && !IsSpace(s[i]) && TermFrom(s, i) == i && TermEnd(s, i) == e && s[i..e] == t
    requires e + 1 < |s| && Splits(s, e + 1, rest)
    ensures Splits(s, i, [t] + rest)
  {
    SplitOnce(s, i);
    NextAfterPlain(s, i);
    hide Split, TermEnd, TermFrom, NextTerm;
    TextsCons(Token(i, t), Split(s, e + 1));
  }

  lemma NextAfterPlain(s: string, i: nat)
    requires i < |s| && !IsSpace(s[i]) && TermEnd(s, i) + 1 < |s| && !IsSpace(s[TermEnd(s, i) + 1])
    ensures NextTerm(s, i) == TermEnd(s, i) + 1
  {
    hide TermEnd;
  }

  lemma PlainFirst(terms: seq<string>)
    requires terms != [] && AllPlain(terms)
    ensures Plain(terms[0]) && AllPlain(terms[1..]) && |WritePlain(terms)| > 0
  {
    assert terms[0] in terms;
  }

  lemma WrittenPlain(p: string, t: string, rest: seq<string>)
    ensures p + WritePlain([t] + rest) == p + t + if rest == [] then "" else " " + WritePlain(rest)
    ensures rest != [] ==> (p + t + " ") + WritePlain(rest) == p + t + (" " + WritePlain(rest))
  {
    assert ([t] + rest)[1..] == rest;
  }

  lemma {:induction false} PlainThenSplit(p: string, terms: seq<string>)
    requires AllPlain(terms)
    ensures Splits(p + WritePlain(terms), |p|, terms)
    decreases |terms|
  {
    if terms == [] {
      assert p + WritePlain(terms) == p;
      SplitsAtEnd(p);
    } else {
      PlainFirst(terms);
      hide *;
      if |terms| == 1 {
        PlainLast(p, terms[0]);
        assert terms == [terms[0]];
      } else {
        PlainThenSplit(p + terms[0] + " ", terms[1..]);
        PlainMore(p, terms[0], terms[1..]);
        assert terms == [terms[0]] + terms[1..];
      }
    }
  }

  lemma PlainLast(p: string, t: string)
    requires Plain(t)
    ensures Splits(p + WritePlain([t]), |p|, [t])
  {
    PlainTermEnd(p, t, "");
    assert p + WritePlain([t]) == p + t + "";
    hide *;
    SplitsLast(p + t + "", |p|, t);
  }

  lemma PlainMore(p: string, t: string, rest: seq<string>)
    requires Plain(t) && rest != [] && AllPlain(rest)
    requires Splits(p + t + " " + WritePlain(rest), |p + t + " "|, rest)
    ensures Splits(p + WritePlain([t] + rest), |p|, [t] + rest)
  {
    WrittenPlain(p, t, rest);
    PlainFirst(rest);
    PlainTermEnd(p, t, " " + WritePlain(rest));
    hide *;
    SplitsMore(p + t + (" " + WritePlain(rest)), |p|, |p| + |t|, t, rest);
  }

  /** Plain words, written as they are with a space between, are split up again. */
  lemma PlainRoundTrip(terms: seq<string>)
    requires AllPlain(terms)
    ensures Texts(Terms(WritePlain(terms))) == terms
  {
    PlainThenSplit("", terms);
    assert "" + WritePlain(terms) == WritePlain(terms);
  }

  /** A term starts where a word does, and its text stands there, or behind the quote there. */
  predicate Placed(s: string, t: Token) {
    && t.start < |s| && !IsSpace(s[t.start]) && (t.start == 0 || IsSpace(s[t.start - 1]))
    && t.text <= s[if s[t.start] == '"' then t.start + 1 else t.start..]
  }

  /** Wherever a line is split, its terms are where they are said to be, one behind the other. */
  lemma {:induction false} TermsArePlaced(s: string, i: nat, k: nat)
    requires i <= |s| && (i < |s| ==> !IsSpace(s[i]) && (i == 0 || IsSpace(s[i - 1]))) && k < |Split(s, i)|
    ensures Placed(s, Split(s, i)[k]) && i <= Split(s, i)[k].start
    ensures k > 0 ==> Split(s, i)[k - 1].start < Split(s, i)[k].start
    decreases |s| - i
  {
    FirstIsPlaced(s, i);
    if k > 0 {
      var n := NextTerm(s, i);
      hide Placed, Split, NextTerm, TermEnd, TermFrom, IsSpace;
      assert Split(s, i)[k] == Split(s, n)[k - 1];
      TermsArePlaced(s, n, k - 1);
      if k > 1 {
        assert Split(s, i)[k - 1] == Split(s, n)[k - 2];
      }
    }
  }

  lemma FirstIsPlaced(s: string, i: nat)
    requires i <= |s| && (i < |s| ==> !IsSpace(s[i]) && (i == 0 || IsSpace(s[i - 1]))) && Split(s, i) != []
    ensures i < |s| && Placed(s, Split(s, i)[0]) && Split(s, i)[0].start == i
    ensures Split(s, i)[1..] == Split(s, NextTerm(s, i))
  {
    SplitOnce(s, i);
    hide Split, NextTerm, TermEnd;
    var from := TermFrom(s, i);
    assert s[from..TermEnd(s, i)] == s[from..][..TermEnd(s, i) - from];
  }
}
