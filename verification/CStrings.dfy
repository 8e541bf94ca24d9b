/** C string helpers shared by the other modules: character classes, the strcmp(3) and
    strcasecmp(3) orders, and the bsearch(3) both the command parser and the tuner rely on.
    A C string is a `string` without a NUL in it. */
module CStrings {
  import opened Basics

  predicate IsCString(s: string) {
    '\0' !in s
  }

  predicate IsSpace(c: char) {
    c == ' ' || c == '\t' || c == '\n' || c == '\r' || c == '\U{0b}' || c == '\U{0c}'
  }

  predicate IsDigit(c: char) {
    '0' <= c <= '9'
  }

  function ToLower(c: char): char {
    if 'A' <= c <= 'Z' then (c as int + 32) as char else c
  }

  function Lower(s: string): (r: string)
    ensures |r| == |s|
  {
    seq(|s|, i requires 0 <= i < |s| => ToLower(s[i]))
  }

  /** The same letter, in upper or lower case, or the same character. */
  predicate SameLetter(c: char, d: char) {
    c == d || ('A' <= c <= 'Z' && d as int == c as int + 32) || ('A' <= d <= 'Z' && c as int == d as int + 32)
  }

  /** Comparing in lower case tells nothing but letters in upper and lower case alike. */
  lemma LowerAgrees(a: string, b: string)
    ensures Lower(a) == Lower(b) <==> |a| == |b| && forall i :: 0 <= i < |a| ==> SameLetter(a[i], b[i])
  {
    assert forall i :: 0 <= i < |a| ==> Lower(a)[i] == ToLower(a[i]);
    assert forall i :: 0 <= i < |b| ==> Lower(b)[i] == ToLower(b[i]);
  }

  /** strchr(3): the first occurrence of `c` at or after `from`. */
  function Find(s: string, c: char, from: nat): (r: Option<nat>)
    requires from <= |s|
    ensures r.Some? ==> from <= r.value < |s| && s[r.value] == c && c !in s[from..r.value]
    ensures r.None? ==> c !in s[from..]
    decreases |s| - from
  {
    if from == |s| then None
    else if s[from] == c then Some(from)
    else Find(s, c, from + 1)
  }

  lemma {:induction false} FindIs(s: string, c: char, from: nat, k: nat)
    requires from <= k < |s| && s[k] == c && c !in s[from..k]
    ensures Find(s, c, from) == Some(k)
    decreases k - from
  {
    if from < k {
      assert s[from] == s[from..k][0];
      assert s[from + 1..k] == s[from..k][1..];
      FindIs(s, c, from + 1, k);
    }
  }

  lemma FindNone(s: string, c: char, from: nat)
    requires from <= |s| && c !in s[from..]
    ensures Find(s, c, from) == None
  {
  }

  /** The first index at or after `i` that is not whitespace. */
  function SkipSpace(s: string, i: nat): (r: nat)
    requires i <= |s|
    ensures i <= r <= |s|
    ensures r < |s| ==> !IsSpace(s[r])
    ensures forall k :: i <= k < r ==> IsSpace(s[k])
    decreases |s| - i
  {
    if i < |s| && IsSpace(s[i]) then SkipSpace(s, i + 1) else i
  }

  /** strcmp(3), reduced to a sign. */
  function Compare(a: string, b: string): int {
    if a == [] && b == [] then 0
    else if a == [] then -1
    else if b == [] then 1
    else if a[0] < b[0] then -1
    else if b[0] < a[0] then 1
    else Compare(a[1..], b[1..])
  }

  lemma {:induction false} CompareEqual(a: string, b: string)
    ensures Compare(a, b) == 0 <==> a == b
  {
    if a != [] && b != [] && a[0] == b[0] {
      CompareEqual(a[1..], b[1..]);
      assert a == [a[0]] + a[1..] && b == [b[0]] + b[1..];
    }
  }

  lemma {:induction false} CompareFlip(a: string, b: string)
    ensures Compare(a, b) == -Compare(b, a)
  {
    if a != [] && b != [] && a[0] == b[0] {
      CompareFlip(a[1..], b[1..]);
    }
  }

  lemma {:induction false} CompareTransitive(a: string, b: string, c: string)
    requires Compare(a, b) < 0 && Compare(b, c) < 0
    ensures Compare(a, c) < 0
  {
    if a != [] && b != [] && c != [] && a[0] == b[0] && b[0] == c[0] {
      CompareTransitive(a[1..], b[1..], c[1..]);
    }
  }

  /** Strictly ascending in strcmp order, hence without repeats. */
  ghost predicate Ascending(keys: seq<string>) {
    forall i, j :: 0 <= i < j < |keys| ==> Compare(keys[i], keys[j]) < 0
  }

  /** bsearch(3) over `keys[lo..hi]`. */
  function BSearch(keys: seq<string>, key: string, lo: nat, hi: nat): (r: Option<nat>)
    requires lo <= hi <= |keys|
    ensures r.Some? ==> lo <= r.value < hi && Compare(key, keys[r.value]) == 0
    decreases hi - lo
  {
    if lo == hi then None
    else
      var mid := lo + (hi - lo) / 2;
      var order := Compare(key, keys[mid]);
      if order == 0 then Some(mid)
      else if order < 0 then BSearch(keys, key, lo, mid)
      else BSearch(keys, key, mid + 1, hi)
  }

  /** lfind(3). */
  function LFind(keys: seq<string>, key: string, from: nat): (r: Option<nat>)
    requires from <= |keys|
    ensures r.Some? ==> from <= r.value < |keys| && keys[r.value] == key && key !in keys[from..r.value]
    ensures r.None? ==> key !in keys[from..]
    decreases |keys| - from
  {
    if from == |keys| then None
    else if keys[from] == key then Some(from)
    else LFind(keys, key, from + 1)
  }

  lemma {:induction false} BSearchComplete(keys: seq<string>, key: string, lo: nat, hi: nat)
    requires lo <= hi <= |keys| && Ascending(keys)
    ensures BSearch(keys, key, lo, hi).None? ==> key !in keys[lo..hi]
    decreases hi - lo
  {
    if lo < hi {
      var mid := lo + (hi - lo) / 2;
      var order := Compare(key, keys[mid]);
      CompareFlip(key, keys[mid]);
      CompareEqual(key, keys[mid]);
      if order < 0 {
        BSearchComplete(keys, key, lo, mid);
        forall i | mid < i < hi
          ensures key != keys[i]
        {
          CompareTransitive(key, keys[mid], keys[i]);
          CompareEqual(key, keys[i]);
        }
      } else if order > 0 {
        BSearchComplete(keys, key, mid + 1, hi);
        forall i | lo <= i < mid
          ensures key != keys[i]
        {
          CompareFlip(keys[i], key);
          CompareTransitive(keys[i], keys[mid], key);
          CompareEqual(keys[i], key);
        }
      }
    }
  }

  /** On ascending keys, binary search and linear search find the same thing. */
  lemma BSearchIsLFind(keys: seq<string>, key: string)
    requires Ascending(keys)
    ensures BSearch(keys, key, 0, |keys|) == LFind(keys, key, 0)
  {
    BSearchComplete(keys, key, 0, |keys|);
    var b := BSearch(keys, key, 0, |keys|);
    var l := LFind(keys, key, 0);
    if b.Some? {
      CompareEqual(key, keys[b.value]);
      assert key in keys[0..];
      CompareEqual(keys[b.value], keys[l.value]);
    }
  }
}
