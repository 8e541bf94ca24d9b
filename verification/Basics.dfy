/** What several modules need: optional values, lists without repeats, and lists joined end to end. */
module Basics {
  datatype Option<+T> = None | Some(value: T)

  predicate NoRepeats<T(==)>(s: seq<T>) {
    forall i, j :: 0 <= i < j < |s| ==> s[i] != s[j]
  }

  function Joined<T>(pieces: seq<seq<T>>): seq<T> {
    if pieces == [] then [] else pieces[0] + Joined(pieces[1..])
  }

  lemma {:induction false} JoinedMore<T>(pieces: seq<seq<T>>, k: nat)
    requires k < |pieces|
    ensures Joined(pieces[..k + 1]) == Joined(pieces[..k]) + pieces[k]
    decreases |pieces|
  {
    if k == 0 {
      assert pieces[..1][1..] == [];
    } else {
      JoinedMore(pieces[1..], k - 1);
      assert pieces[..k + 1][1..] == pieces[1..][..k] && pieces[..k][1..] == pieces[1..][..k - 1];
    }
  }

  lemma {:induction false} JoinedRest<T>(pieces: seq<seq<T>>, k: nat)
    requires k <= |pieces|
    ensures Joined(pieces) == Joined(pieces[..k]) + Joined(pieces[k..])
    decreases |pieces|
  {
    if k > 0 {
      JoinedRest(pieces[1..], k - 1);
      assert pieces[..k][1..] == pieces[1..][..k - 1] && pieces[k..] == pieces[1..][k - 1..];
    } else {
      assert pieces[k..] == pieces;
    }
  }

  lemma JoinedTwo<T>(a: seq<T>, b: seq<T>)
    ensures Joined([a, b]) == a + b && Joined([a, b][..1]) == a
  {
    assert [a, b][1..] == [b] && [b][1..] == [] && [a, b][..1] == [a] && [a][1..] == [];
    assert Joined([b]) == b + [] == b;
    assert Joined([a]) == a + [] == a;
  }
}
