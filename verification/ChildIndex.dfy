/** How ezxml links the children of a tag: all of them in document order, the first of every name, and
    those of one name (src/libezxml/ezxml.c:60-73, 221-230 and 849-904). Children come in document order
    here, as the parser adds them. */
module ChildIndex {
  // ---------------------------------------------------------------- places in a list of names

  /** The first place from `k` on where a name stands, or past the end. */
  function FirstFrom(names: seq<string>, k: nat, name: string): (r: nat)
    requires k <= |names|
    ensures k <= r <= |names| && name !in names[k..r]
    ensures r < |names| ==> names[r] == name
    decreases |names| - k
  {
    if k == |names| then k else if names[k] == name then k else FirstFrom(names, k + 1, name)
  }

  predicate IsFirst(names: seq<string>, i: nat)
    requires i < |names|
  {
    names[i] !in names[..i]
  }

  /** The first place from `k` on where a name stands for the first time, or past the end. */
  function FirstKind(names: seq<string>, k: nat): (r: nat)
    requires k <= |names|
    ensures k <= r <= |names|
    ensures r < |names| ==> IsFirst(names, r)
    decreases |names| - k
  {
    if k == |names| then k else if IsFirst(names, k) then k else FirstKind(names, k + 1)
  }

  /** All places of a name from `k` on, in order. */
  function Places(names: seq<string>, name: string, k: nat): seq<nat>
    requires k <= |names|
    decreases |names| - k
  {
    if k == |names| then [] else (if names[k] == name then [k] else []) + Places(names, name, k + 1)
  }

  /** Going from one place of a name to the next `j` times, or past the end. */
  function Hop(names: seq<string>, name: string, k: nat, j: nat): (r: nat)
    requires k <= |names|
    ensures r <= |names|
    decreases j
  {
    var first := FirstFrom(names, k, name);
    if first == |names| || j == 0 then first else Hop(names, name, first + 1, j - 1)
  }

  lemma {:induction false} PlacesSkip(names: seq<string>, name: string, k: nat)
    requires k <= |names|
    ensures var first := FirstFrom(names, k, name);
            Places(names, name, k) == if first < |names| then [first] + Places(names, name, first + 1) else []
    decreases |names| - k
  {
    PlacesStep(names, name, k);
    hide FirstFrom, Places;
    if k < |names| && names[k] != name {
      PlacesSkip(names, name, k + 1);
    }
  }

  lemma PlacesStep(names: seq<string>, name: string, k: nat)
    requires k <= |names|
    ensures k == |names| ==> Places(names, name, k) == [] && FirstFrom(names, k, name) == k
    ensures k < |names| && names[k] == name ==>
              Places(names, name, k) == [k] + Places(names, name, k + 1) && FirstFrom(names, k, name) == k
    ensures k < |names| && names[k] != name ==>
              Places(names, name, k) == Places(names, name, k + 1) && FirstFrom(names, k, name) == FirstFrom(names, k + 1, name)
  {
  }

  /** Hopping arrives at the places in turn. */
  lemma {:induction false} HopArrives(names: seq<string>, name: string, k: nat, j: nat)
    requires k <= |names|
    ensures var places := Places(names, name, k);
            Hop(names, name, k, j) == if j < |places| then places[j] else |names|
    decreases j
  {
    PlacesSkip(names, name, k);
    var first := FirstFrom(names, k, name);
    if first < |names| && j > 0 {
      HopArrives(names, name, first + 1, j - 1);
    }
  }

  /** All first places from `k` on, in order. */
  function Firsts(names: seq<string>, k: nat): seq<nat>
    requires k <= |names|
    decreases |names| - k
  {
    if k == |names| then [] else (if IsFirst(names, k) then [k] else []) + Firsts(names, k + 1)
  }

  /** Going from one first place to the next `j` times, or past the end. */
  function KindHop(names: seq<string>, k: nat, j: nat): (r: nat)
    requires k <= |names|
    ensures r <= |names|
    decreases j
  {
    var first := FirstKind(names, k);
    if first == |names| || j == 0 then first else KindHop(names, first + 1, j - 1)
  }

  lemma {:induction false} FirstsSkip(names: seq<string>, k: nat)
    requires k <= |names|
    ensures var first := FirstKind(names, k);
            Firsts(names, k) == if first < |names| then [first] + Firsts(names, first + 1) else []
    decreases |names| - k
  {
    FirstsStep(names, k);
    hide FirstKind, IsFirst, Firsts;
    if k < |names| && !IsFirst(names, k) {
      FirstsSkip(names, k + 1);
    }
  }

  lemma FirstsStep(names: seq<string>, k: nat)
    requires k <= |names|
    ensures k == |names| ==> Firsts(names, k) == [] && FirstKind(names, k) == k
    ensures k < |names| && IsFirst(names, k) ==> Firsts(names, k) == [k] + Firsts(names, k + 1) && FirstKind(names, k) == k
    ensures k < |names| && !IsFirst(names, k) ==>
              Firsts(names, k) == Firsts(names, k + 1) && FirstKind(names, k) == FirstKind(names, k + 1)
  {
    hide IsFirst;
  }

  /** Hopping over siblings arrives at the first of every name in turn. */
  lemma {:induction false} KindHopArrives(names: seq<string>, k: nat, j: nat)
    requires k <= |names|
    ensures var firsts := Firsts(names, k);
            KindHop(names, k, j) == if j < |firsts| then firsts[j] else |names|
    decreases j
  {
    FirstsSkip(names, k);
    var first := FirstKind(names, k);
    if first < |names| && j > 0 {
      KindHopArrives(names, first + 1, j - 1);
    }
  }

  lemma {:induction false} FirstFromAppend(names: seq<string>, k: nat, name: string, more: string)
    requires k <= |names|
    ensures var was := FirstFrom(names, k, name);
            FirstFrom(names + [more], k, name) == if was < |names| then was else if more == name then |names| else |names| + 1
    decreases |names| - k
  {
    if k < |names| && names[k] != name {
      FirstFromAppend(names, k + 1, name, more);
    }
  }

  lemma {:induction false} FirstKindAppend(names: seq<string>, k: nat, more: string)
    requires k <= |names|
    ensures var was := FirstKind(names, k);
            FirstKind(names + [more], k) == if was < |names| then was else if more !in names then |names| else |names| + 1
    decreases |names| - k
  {
    var all := names + [more];
    if k < |names| {
      assert all[..k] == names[..k];
      if !IsFirst(names, k) {
        FirstKindAppend(names, k + 1, more);
      }
    } else {
      assert all[..k] == names;
    }
  }

  /** A name that is found first at or after `k` stands at a first place. */
  lemma {:induction false} NoneBetween(names: seq<string>, k: nat, name: string)
    requires k <= |names| && name !in names[..k]
    ensures name !in names[..FirstKind(names, k)]
    decreases |names| - k
  {
    if k < |names| && !IsFirst(names, k) {
      assert names[..k + 1] == names[..k] + [names[k]];
      NoneBetween(names, k + 1, name);
    }
  }

  lemma {:induction false} FirstFromIs(names: seq<string>, k: nat, r: nat, name: string)
    requires k <= r <= |names| && name !in names[k..r] && (r < |names| ==> names[r] == name)
    ensures FirstFrom(names, k, name) == r
    decreases r - k
  {
    if k < r {
      assert names[k] == names[k..r][0] && names[k + 1..r] == names[k..r][1..];
      FirstFromIs(names, k + 1, r, name);
    }
  }

  // ---------------------------------------------------------------- tags and their links

  /** struct ezxml */
  class Tag {
    const name: string
    /** Where in the parent's text it stands. */
    var off: nat
    var txt: string
    var child: Tag?
    var ordered: Tag?
    var sibling: Tag?
    var next: Tag?

    constructor (name: string)
      ensures this.name == name && off == 0 && txt == "" && child == null
      ensures ordered == null && sibling == null && next == null
    {
      this.name := name;
      off, txt, child, ordered, sibling, next := 0, "", null, null, null, null;
    }
  }

  ghost function At(tags: seq<Tag>, i: nat): Tag? {
    if i < |tags| then tags[i] else null
  }

  ghost function Names(tags: seq<Tag>): (r: seq<string>)
    ensures |r| == |tags| && forall i :: 0 <= i < |tags| ==> r[i] == tags[i].name
  {
    seq(|tags|, i requires 0 <= i < |tags| => tags[i].name)
  }

  ghost predicate Distinct(tags: seq<Tag>) {
    forall i, j :: 0 <= i < j < |tags| ==> tags[i] != tags[j]
  }

  ghost predicate OrderedLinks(tags: seq<Tag>)
    reads tags`ordered
  {
    forall i {:trigger tags[i].ordered} :: 0 <= i < |tags| ==> tags[i].ordered == At(tags, i + 1)
  }

  ghost predicate NextLinks(tags: seq<Tag>)
    reads tags`next
  {
    forall i {:trigger tags[i].next} :: 0 <= i < |tags| ==>
      tags[i].next == At(tags, FirstFrom(Names(tags), i + 1, tags[i].name))
  }

  ghost predicate SiblingLinks(tags: seq<Tag>)
    reads tags`sibling
  {
    forall i {:trigger tags[i].sibling} :: 0 <= i < |tags| ==>
      tags[i].sibling == if IsFirst(Names(tags), i) then At(tags, FirstKind(Names(tags), i + 1)) else null
  }

  /** Each child stands no earlier in the text than the one before, and none after `end`. */
  ghost predicate InOrder(tags: seq<Tag>, end: nat)
    reads tags`off
  {
    && (forall i, j :: 0 <= i <= j < |tags| ==> tags[i].off <= tags[j].off)
    && (forall i :: 0 <= i < |tags| ==> tags[i].off <= end)
  }

  /** The links of a tag's children, wherever they are walked along. */
  ghost predicate Linked(tags: seq<Tag>)
    reads tags`ordered, tags`next, tags`sibling
  {
    Distinct(tags) && OrderedLinks(tags) && NextLinks(tags) && SiblingLinks(tags)
  }

  lemma LinksAt(tags: seq<Tag>, i: nat)
    requires Linked(tags) && i < |tags|
    ensures tags[i].ordered == At(tags, i + 1)
    ensures tags[i].next == At(tags, FirstFrom(Names(tags), i + 1, tags[i].name))
    ensures tags[i].sibling == if IsFirst(Names(tags), i) then At(tags, FirstKind(Names(tags), i + 1)) else null
  {
  }

  /** Where one gets from the first child over so many siblings. */
  ghost function Sibling(head: Tag?, j: nat): Tag?
    reads *
  {
    if head == null || j == 0 then head else Sibling(head.sibling, j - 1)
  }

  lemma {:induction false} SiblingsAreFirsts(tags: seq<Tag>, k: nat, j: nat)
    requires Linked(tags) && k <= |tags|
    ensures Sibling(At(tags, FirstKind(Names(tags), k)), j) == At(tags, KindHop(Names(tags), k, j))
    decreases j
  {
    hide *;
    KindHopStep(Names(tags), k, j);
    SiblingStep(At(tags, FirstKind(Names(tags), k)), j);
    AtIs(tags, FirstKind(Names(tags), k));
    var first := FirstKind(Names(tags), k);
    if first < |tags| && j > 0 {
      LinksAt(tags, first);
      SiblingsAreFirsts(tags, first + 1, j - 1);
    }
  }

  lemma SiblingStep(head: Tag?, j: nat)
    ensures Sibling(head, j) == if head == null || j == 0 then head else Sibling(head.sibling, j - 1)
  {
  }

  lemma AtIs(tags: seq<Tag>, i: nat)
    ensures At(tags, i) == if i < |tags| then tags[i] else null
  {
  }

  lemma KindHopStep(names: seq<string>, k: nat, j: nat)
    requires k <= |names|
    ensures var first := FirstKind(names, k);
            && (first < |names| ==> IsFirst(names, first))
            && KindHop(names, k, j) == if first == |names| || j == 0 then first else KindHop(names, first + 1, j - 1)
  {
  }

  // ---------------------------------------------------------------- looking up

  lemma SiblingAt(tags: seq<Tag>, i: nat)
    requires SiblingLinks(tags) && i < |tags| && IsFirst(Names(tags), i)
    ensures tags[i].sibling == At(tags, FirstKind(Names(tags), i + 1))
  {
  }

  /** The loop over `sibling` that looks for a name. */
  method FirstOfName(head: Tag?, name: string, ghost children: seq<Tag>) returns (found: Tag?)
    requires SiblingLinks(children) && head == At(children, 0)
    ensures found == At(children, FirstFrom(Names(children), 0, name))
  {
    hide SiblingLinks, FirstFrom, FirstKind;
    found := head;
    ghost var names := Names(children);
    ghost var k: nat := 0;
    while found != null && name != found.name
      invariant k <= |names| && found == At(children, k)
      invariant k < |names| ==> IsFirst(names, k)
      invariant name !in names[..k]
      decreases |names| - k
    {
      SiblingAt(children, k);
      assert names[..k + 1] == names[..k] + [names[k]];
      NoneBetween(names, k + 1, name);
      found := found.sibling;
      k := FirstKind(names, k + 1);
    }
    assert names[0..k] == names[..k];
    FirstFromIs(names, 0, k, name);
  }

  /** ezxml_child */
  method Child(xml: Tag, name: string, ghost children: seq<Tag>) returns (found: Tag?)
    requires Linked(children) && xml.child == At(children, 0)
    ensures found == At(children, FirstFrom(Names(children), 0, name))
  {
    found := FirstOfName(xml.child, name, children);
  }

  lemma HopStep(names: seq<string>, name: string, k: nat, j: nat)
    requires k <= |names|
    ensures Hop(names, name, k, 0) == FirstFrom(names, k, name)
    ensures var first := FirstFrom(names, k, name);
            if first < |names| then Hop(names, name, k, j + 1) == Hop(names, name, first + 1, j)
            else Hop(names, name, k, j) == |names|
  {
  }

  /** ezxml_idx, from any first tag of a name on. A count below nothing runs off the end. */
  method Idx(xml: Tag?, idx: int, ghost children: seq<Tag>, ghost k: nat, ghost name: string) returns (found: Tag?)
    requires Linked(children) && k <= |children| && xml == At(children, FirstFrom(Names(children), k, name))
    ensures found == if idx < 0 then null else At(children, Hop(Names(children), name, k, idx))
  {
    hide Linked, FirstFrom, FirstKind, Hop;
    found := xml;
    ghost var names := Names(children);
    ghost var from := k;
    var left := idx;
    while found != null && left != 0
      invariant from <= |names| && found == At(children, FirstFrom(names, from, name))
      invariant left < 0 <==> idx < 0
      invariant 0 <= left ==> Hop(names, name, from, left) == Hop(names, name, k, idx)
      decreases |names| - from
    {
      ghost var at := FirstFrom(names, from, name);
      LinksAt(children, at);
      if left > 0 {
        HopStep(names, name, from, left - 1);
      }
      found := found.next;
      left := left - 1;
      from := at + 1;
    }
    if left >= 0 {
      HopStep(names, name, from, left);
    }
  }

  /** ezxml_idx (ezxml_child (xml, name), k): the k-th of all children of that name, none if there are
      not so many. */
  method NthChild(xml: Tag, name: string, k: nat, ghost children: seq<Tag>) returns (found: Tag?)
    requires Linked(children) && xml.child == At(children, 0)
    ensures var places := Places(Names(children), name, 0);
            found == At(children, if k < |places| then places[k] else |children|)
  {
    hide Linked;
    HopArrives(Names(children), name, 0, k);
    found := Child(xml, name, children);
    found := Idx(found, k, children, 0, name);
  }

  // ---------------------------------------------------------------- adding a child

  /** The last place of a name. */
  ghost predicate IsLast(names: seq<string>, name: string, i: nat) {
    i < |names| && names[i] == name && FirstFrom(names, i + 1, name) == |names|
  }

  /** The last of the first places. */
  ghost predicate IsLastKind(names: seq<string>, i: nat) {
    i < |names| && IsFirst(names, i) && FirstKind(names, i + 1) == |names|
  }

  lemma NamesAppend(tags: seq<Tag>, xml: Tag)
    ensures Names(tags + [xml]) == Names(tags) + [xml.name]
  {
  }

  /** Only from the last place of a name is there a step to a place added at the end. */
  lemma NextGrows(names: seq<string>, more: string, i: nat)
    requires i < |names|
    ensures var was, now := FirstFrom(names, i + 1, names[i]), FirstFrom(names + [more], i + 1, names[i]);
            if IsLast(names, more, i) then now == |names| else now == was < |names| || (was == |names| && now == |names| + 1)
  {
    FirstFromAppend(names, i + 1, names[i], more);
  }

  lemma SiblingGrows(names: seq<string>, more: string, i: nat)
    requires i < |names|
    ensures IsFirst(names + [more], i) <==> IsFirst(names, i)
    ensures var was, now := FirstKind(names, i + 1), FirstKind(names + [more], i + 1);
            if was < |names| then now == was else now == if more in names then |names| + 1 else |names|
  {
    assert (names + [more])[..i] == names[..i];
    FirstKindAppend(names, i + 1, more);
  }

  lemma {:induction false} FirstFromAtMost(names: seq<string>, k: nat, j: nat, name: string)
    requires k <= j < |names| && names[j] == name
    ensures FirstFrom(names, k, name) <= j
    decreases j - k
  {
    if k < j {
      FirstFromAtMost(names, k + 1, j, name);
    }
  }

  lemma OneLast(names: seq<string>, name: string, i: nat, j: nat)
    requires IsLast(names, name, i) && IsLast(names, name, j)
    ensures i == j
  {
    forall a, b | 0 <= a < b < |names| && names[b] == name ensures !IsLast(names, name, a) {
      FirstFromAtMost(names, a + 1, b, name);
    }
  }

  lemma OrderedAt(tags: seq<Tag>, i: nat, off: nat)
    requires OrderedLinks(tags) && i < |tags| && InOrder(tags, off)
    ensures if i + 1 < |tags| then tags[i].ordered == tags[i + 1] && tags[i + 1].off <= off else tags[i].ordered == null
  {
  }

  /** The loop over `ordered`, which ends at the last child. */
  method LastOrdered(head: Tag, off: nat, ghost children: seq<Tag>) returns (cur: Tag)
    requires OrderedLinks(children) && InOrder(children, off) && children != [] && head == children[0]
    ensures cur == children[|children| - 1]
  {
    hide OrderedLinks, InOrder;
    ghost var i: nat := 0;
    cur := head;
    OrderedAt(children, i, off);
    while cur.ordered != null && cur.ordered.off <= off
      invariant i < |children| && cur == children[i]
      invariant if i + 1 < |children| then cur.ordered == children[i + 1] && children[i + 1].off <= off else cur.ordered == null
      decreases |children| - i
    {
      cur := cur.ordered;
      i := i + 1;
      OrderedAt(children, i, off);
    }
  }

  method LinkOrdered(cur: Tag, xml: Tag, ghost children: seq<Tag>)
    requires OrderedLinks(children) && Distinct(children) && xml !in children
    requires children != [] && cur == children[|children| - 1]
    modifies cur`ordered, xml`ordered
    ensures OrderedLinks(children + [xml])
  {
    xml.ordered := cur.ordered;
    cur.ordered := xml;
    ghost var all := children + [xml];
    forall i | 0 <= i < |all| ensures all[i].ordered == At(all, i + 1) {
      assert i < |children| - 1 ==> all[i] != cur && children[i].ordered == old(children[i].ordered) == children[i + 1];
    }
  }

  lemma NextAt(tags: seq<Tag>, i: nat, off: nat)
    requires NextLinks(tags) && i < |tags| && InOrder(tags, off)
    ensures var at := FirstFrom(Names(tags), i + 1, tags[i].name);
            if at < |tags| then tags[i].next == tags[at] && tags[at].off <= off else tags[i].next == null
  {
  }

  /** The loop over `next`, which ends at the last of a name. */
  method LastOfName(first: Tag, off: nat, ghost children: seq<Tag>, ghost k: nat) returns (cur: Tag, ghost i: nat)
    requires NextLinks(children) && InOrder(children, off) && k < |children| && first == children[k]
    ensures IsLast(Names(children), first.name, i) && cur == children[i]
  {
    hide NextLinks, InOrder, FirstFrom;
    ghost var names := Names(children);
    i := k;
    cur := first;
    NextAt(children, i, off);
    while cur.next != null && cur.next.off <= off
      invariant i < |children| && cur == children[i] && names[i] == first.name
      invariant var at := FirstFrom(names, i + 1, first.name);
                if at < |names| then cur.next == children[at] && children[at].off <= off else cur.next == null
      decreases |children| - i
    {
      i := FirstFrom(names, i + 1, first.name);
      cur := cur.next;
      NextAt(children, i, off);
    }
  }

  /** The new child comes after the last of its name. */
  method LinkNext(cur: Tag, xml: Tag, ghost children: seq<Tag>, ghost last: nat)
    requires NextLinks(children) && Distinct(children) && xml !in children && xml.next == null
    requires IsLast(Names(children), xml.name, last) && cur == children[last]
    modifies cur`next, xml`next
    ensures NextLinks(children + [xml])
  {
    assert cur.next == null;
    xml.next := cur.next;
    cur.next := xml;
    forall i | 0 <= i < |children|
      ensures children[i].next == if IsLast(Names(children), xml.name, i) then xml
                                  else At(children, FirstFrom(Names(children), i + 1, children[i].name))
    {
      if IsLast(Names(children), xml.name, i) {
        OneLast(Names(children), xml.name, i, last);
      }
    }
    NextLinksGrow(xml, children);
  }

  lemma KindAt(tags: seq<Tag>, i: nat, off: nat)
    requires SiblingLinks(tags) && i < |tags| && IsFirst(Names(tags), i) && InOrder(tags, off)
    ensures var at := FirstKind(Names(tags), i + 1);
            if at < |tags| then tags[i].sibling == tags[at] && tags[at].off <= off else tags[i].sibling == null
  {
  }

  /** The loop for a new sibling's place, which ends behind the last of the first tags. */
  method LastKind(head: Tag, off: nat, ghost children: seq<Tag>) returns (prev: Tag, cur: Tag?, ghost i: nat)
    requires SiblingLinks(children) && InOrder(children, off) && children != [] && head == children[0]
    ensures IsLastKind(Names(children), i) && prev == children[i] && cur == null
  {
    hide SiblingLinks, InOrder, FirstKind, IsFirst;
    ghost var names := Names(children);
    i := 0;
    FirstIsFirst(names);
    KindAt(children, i, off);
    assert head.off <= off by {
      OffAt(children, 0, off);
    }
    prev := head;
    cur := head.sibling;
    while cur != null && cur.off <= off
      invariant i < |children| && prev == children[i] && IsFirst(names, i)
      invariant var at := FirstKind(names, i + 1);
                if at < |names| then cur == children[at] && children[at].off <= off else cur == null
      decreases |children| - i
    {
      i := FirstKind(names, i + 1);
      prev := cur;
      cur := cur.sibling;
      KindAt(children, i, off);
    }
  }

  lemma FirstIsFirst(names: seq<string>)
    requires names != []
    ensures IsFirst(names, 0)
  {
  }

  lemma OffAt(tags: seq<Tag>, i: nat, off: nat)
    requires InOrder(tags, off) && i < |tags|
    ensures tags[i].off <= off
  {
  }

  /** The first child of a new name comes after the last first child. */
  method LinkSibling(prev: Tag, xml: Tag, ghost children: seq<Tag>, ghost last: nat)
    requires SiblingLinks(children) && Distinct(children) && xml !in children && xml.sibling == null
    requires IsLastKind(Names(children), last) && prev == children[last] && xml.name !in Names(children)
    modifies prev`sibling
    ensures SiblingLinks(children + [xml])
  {
    prev.sibling := xml;
    forall i | 0 <= i < |children|
      ensures children[i].sibling == if IsLastKind(Names(children), i) && xml.name !in Names(children) then xml
                                     else if IsFirst(Names(children), i) then At(children, FirstKind(Names(children), i + 1))
                                     else null
    {
      if IsLastKind(Names(children), i) {
        OneLastKind(Names(children), i, last);
      }
    }
    SiblingLinksGrow(xml, children);
  }

  lemma {:induction false} FirstKindAtMost(names: seq<string>, k: nat, j: nat)
    requires k <= j < |names| && IsFirst(names, j)
    ensures FirstKind(names, k) <= j
    decreases j - k
  {
    if k < j {
      FirstKindAtMost(names, k + 1, j);
    }
  }

  lemma OneLastKind(names: seq<string>, i: nat, j: nat)
    requires IsLastKind(names, i) && IsLastKind(names, j)
    ensures i == j
  {
    forall a, b | 0 <= a < b < |names| && IsFirst(names, b) ensures !IsLastKind(names, a) {
      FirstKindAtMost(names, a + 1, b);
    }
  }

  lemma NextLinksGrow(xml: Tag, children: seq<Tag>)
    requires xml !in children && xml.next == null
    requires forall i :: 0 <= i < |children| ==>
               children[i].next == if IsLast(Names(children), xml.name, i) then xml
                                   else At(children, FirstFrom(Names(children), i + 1, children[i].name))
    ensures NextLinks(children + [xml])
  {
    var names, all := Names(children), children + [xml];
    NamesAppend(children, xml);
    forall i | 0 <= i < |all| ensures all[i].next == At(all, FirstFrom(Names(all), i + 1, all[i].name)) {
      if i < |children| {
        NextGrows(names, xml.name, i);
        hide IsLast, FirstFrom;
      }
    }
  }

  lemma SiblingLinksGrow(xml: Tag, children: seq<Tag>)
    requires xml !in children && xml.sibling == null
    requires forall i :: 0 <= i < |children| ==>
               children[i].sibling == if IsLastKind(Names(children), i) && xml.name !in Names(children) then xml
                                      else if IsFirst(Names(children), i) then At(children, FirstKind(Names(children), i + 1))
                                      else null
    ensures SiblingLinks(children + [xml])
  {
    var names, all := Names(children), children + [xml];
    NamesAppend(children, xml);
    forall i | 0 <= i < |all|
      ensures all[i].sibling == if IsFirst(Names(all), i) then At(all, FirstKind(Names(all), i + 1)) else null
    {
      if i < |children| {
        SiblingGrows(names, xml.name, i);
        hide IsFirst, FirstKind;
      }
    }
  }

  /** A new name leaves the lists of other names alone, a known name the list of names. */
  lemma NewName(xml: Tag, children: seq<Tag>)
    requires NextLinks(children) && xml !in children && xml.next == null && xml.name !in Names(children)
    ensures NextLinks(children + [xml])
  {
    forall i | 0 <= i < |children| ensures !IsLast(Names(children), xml.name, i) {
      assert Names(children)[i] in Names(children);
    }
    NextLinksGrow(xml, children);
  }

  lemma KnownName(xml: Tag, children: seq<Tag>)
    requires SiblingLinks(children) && xml !in children && xml.sibling == null && xml.name in Names(children)
    ensures SiblingLinks(children + [xml])
  {
    SiblingLinksGrow(xml, children);
  }

  lemma AddedTo(tags: seq<Tag>, xml: Tag, off: nat)
    requires Distinct(tags) && InOrder(tags, off) && xml !in tags && xml.off == off
    ensures Distinct(tags + [xml]) && InOrder(tags + [xml], off)
  {
  }

  /** The part of ezxml_insert that links a tag by its name. */
  method LinkByName(head: Tag, xml: Tag, ghost children: seq<Tag>)
    requires NextLinks(children) && SiblingLinks(children) && Distinct(children) && InOrder(children, xml.off)
    requires children != [] && head == children[0]
    requires xml !in children && xml.next == null && xml.sibling == null
    modifies children`next, children`sibling, xml`next, xml`sibling
    ensures NextLinks(children + [xml]) && SiblingLinks(children + [xml])
  {
    hide NextLinks, SiblingLinks, InOrder, Distinct, FirstFrom, FirstKind, IsLast, IsLastKind;
    var cur := FirstOfName(head, xml.name, children);
    WhereNamed(children, xml.name);
    if cur != null {
      ghost var k := FirstFrom(Names(children), 0, xml.name);
      ghost var i;
      KnownName(xml, children);
      cur, i := LastOfName(cur, xml.off, children, k);
      LastIsPlace(Names(children), xml.name, i);
      LinkNext(cur, xml, children, i);
    } else {
      var prev;
      ghost var i;
      NewName(xml, children);
      prev, cur, i := LastKind(head, xml.off, children);
      LastKindIsPlace(Names(children), i);
      xml.sibling := cur;
      LinkSibling(prev, xml, children, i);
    }
  }

  lemma WhereNamed(tags: seq<Tag>, name: string)
    ensures var k := FirstFrom(Names(tags), 0, name);
            if k < |tags| then name in Names(tags) && tags[k].name == name else name !in Names(tags)
  {
    var k := FirstFrom(Names(tags), 0, name);
    assert k == |tags| ==> Names(tags)[0..k] == Names(tags);
  }

  lemma LastIsPlace(names: seq<string>, name: string, i: nat)
    requires IsLast(names, name, i)
    ensures i < |names|
  {
  }

  lemma LastKindIsPlace(names: seq<string>, i: nat)
    requires IsLastKind(names, i)
    ensures i < |names|
  {
  }

  /** The links of the first child. */
  lemma OnlyChild(xml: Tag, off: nat)
    requires xml.next == null && xml.sibling == null && xml.ordered == null && xml.off == off
    ensures Linked([xml]) && InOrder([xml], off)
  {
  }

  /** The part of ezxml_insert that links a tag after all others. */
  method LinkInOrder(head: Tag, xml: Tag, ghost children: seq<Tag>)
    requires OrderedLinks(children) && Distinct(children) && InOrder(children, xml.off)
    requires children != [] && head == children[0] && xml !in children
    modifies children`ordered, xml`ordered
    ensures OrderedLinks(children + [xml])
  {
    hide *;
    var last := LastOrdered(head, xml.off, children);
    LinkOrdered(last, xml, children);
  }

  lemma LinkedParts(tags: seq<Tag>)
    ensures Linked(tags) <==> Distinct(tags) && OrderedLinks(tags) && NextLinks(tags) && SiblingLinks(tags)
  {
  }

  /** ezxml_insert where there are children already. */
  method InsertAfter(xml: Tag, head: Tag, off: nat, ghost children: seq<Tag>)
    requires Linked(children) && InOrder(children, off) && children != [] && head == children[0]
    requires xml !in children && xml.next == null && xml.sibling == null && xml.ordered == null && xml.off == off
    modifies xml`ordered, xml`next, xml`sibling, children`ordered, children`next, children`sibling
    ensures Linked(children + [xml]) && InOrder(children + [xml], off)
  {
    ghost var all := children + [xml];
    AddedTo(children, xml, off);
    LinkedParts(children);
    hide *;
    LinkInOrder(head, xml, children);
    LinkByName(head, xml, children);
    LinkedParts(all);
  }

  /** ezxml_insert, of a tag that stands no earlier in the text than those there already. */
  method Insert(xml: Tag, dest: Tag, off: nat, ghost children: seq<Tag>)
    requires Linked(children) && dest.child == At(children, 0) && InOrder(children, off)
    requires xml !in children
    modifies xml`off, xml`ordered, xml`next, xml`sibling, dest`child, children`ordered, children`next, children`sibling
    ensures Linked(children + [xml]) && dest.child == At(children + [xml], 0) && InOrder(children + [xml], off)
    ensures xml.off == off
  {
    hide Linked, InOrder;
    xml.next, xml.sibling, xml.ordered := null, null, null;
    xml.off := off;
    var head := dest.child;
    if head != null {
      InsertAfter(xml, head, off, children);
    } else {
      dest.child := xml;
      OnlyChild(xml, off);
      assert children + [xml] == [xml];
    }
  }

  // ---------------------------------------------------------------- the parser at work on one tag

  /** An open tag while the parser reads what is in it. */
  class OpenTag {
    const tag: Tag
    ghost var children: seq<Tag>

    ghost predicate Valid()
      reads this, tag, children
    {
      && Linked(children) && tag.child == At(children, 0) && tag !in children
      && InOrder(children, |tag.txt|)
    }

    constructor (name: string)
      ensures Valid() && fresh(tag) && tag.name == name && children == [] && tag.txt == ""
    {
      tag := new Tag(name);
      children := [];
    }

    lemma ValidIs()
      ensures Valid() <==> (&& Linked(children) && tag.child == At(children, 0) && tag !in children
                            && InOrder(children, |tag.txt|))
    {
    }

    /** ezxml_char_content: text adds to what the tag has. */
    method CharContent(text: string)
      requires Valid()
      modifies tag`txt
      ensures Valid() && children == old(children) && tag.txt == old(tag.txt) + text
    {
      hide *;
      ValidIs();
      OrderStays(children, |tag.txt|, |tag.txt| + |text|);
      tag.txt := tag.txt + text;
      ValidIs();
    }

    /** ezxml_open_tag with ezxml_add_child: a child begins where the text is now. */
    method AddChild(name: string) returns (xml: Tag)
      requires Valid()
      modifies this`children, tag`child, children`ordered, children`next, children`sibling
      ensures Valid() && fresh(xml) && xml.name == name && children == old(children) + [xml]
      ensures xml.off == |tag.txt|
    {
      hide Linked, InOrder;
      xml := new Tag(name);
      Insert(xml, tag, |tag.txt|, children);
      children := children + [xml];
    }

    /** The k-th child of a name, as ezxml_idx (ezxml_child (xml, name), k) finds it. */
    method Get(name: string, k: nat) returns (found: Tag?)
      requires Valid()
      ensures var places := Places(Names(children), name, 0);
              found == At(children, if k < |places| then places[k] else |children|)
    {
      found := NthChild(tag, name, k, children);
    }
  }

  lemma OrderStays(tags: seq<Tag>, end: nat, end': nat)
    requires InOrder(tags, end) && end <= end'
    ensures InOrder(tags, end')
  {
  }
}
