/** `OrderedDict(sorted(icons.items(), key=lambda t: t[0]))`
    (icon_font.py:73): the dict's entries in ascending key order. */
module Sorting {
  import opened Strings
  import opened Results
  import opened Table

  /** Keys strictly ascending in Python's string order. */
  predicate StrictlySorted(s: seq<Entry>) {
    forall i, j :: 0 <= i < j < |s| ==> Less(s[i].name, s[j].name)
  }

  /** Places `e` into an ascending run whose keys all differ from its own. */
  function Insert(e: Entry, s: seq<Entry>): (r: seq<Entry>)
    requires StrictlySorted(s)
    requires forall i :: 0 <= i < |s| ==> s[i].name != e.name
    ensures StrictlySorted(r)
    ensures multiset(r) == multiset(s) + multiset{e}
  {
    if |s| == 0 then [e]
    else if Less(e.name, s[0].name) then
      HeadBelowAll(e, s);
      [e] + s
    else
      LessTotal(e.name, s[0].name);
      var rest := Insert(e, s[1..]);
      assert s == [s[0]] + s[1..];
      HeadBelowRest(s, e, rest);
      [s[0]] + rest
  }

  lemma HeadBelowAll(e: Entry, s: seq<Entry>)
    requires StrictlySorted(s) && |s| > 0 && Less(e.name, s[0].name)
    ensures StrictlySorted([e] + s)
  {
    forall j | 0 < j < |s|
      ensures Less(e.name, s[j].name)
    {
      LessTransitive(e.name, s[0].name, s[j].name);
    }
  }

  lemma HeadBelowRest(s: seq<Entry>, e: Entry, rest: seq<Entry>)
    requires StrictlySorted(s) && |s| > 0 && Less(s[0].name, e.name)
    requires StrictlySorted(rest) && multiset(rest) == multiset(s[1..]) + multiset{e}
    ensures StrictlySorted([s[0]] + rest)
  {
    forall j | 0 <= j < |rest|
      ensures Less(s[0].name, rest[j].name)
    {
      assert rest[j] in multiset(rest);
      if rest[j] != e {
        assert rest[j] in s[1..];
      }
    }
  }

  /** The dict's entries, each exactly once, in ascending key order. */
  function SortByKey(t: Dict): (r: seq<Entry>)
    ensures StrictlySorted(r)
    ensures multiset(r) == multiset(t)
  {
    if |t| == 0 then []
    else
      DictTail(t);
      var rest := SortByKey(t[1..]);
      RestAvoidsHead(t, rest);
      Insert(t[0], rest)
  }

  /** The entries after the head of a dict, in any order, all have keys other
      than the head's. */
  lemma RestAvoidsHead(t: Dict, rest: seq<Entry>)
    requires |t| > 0 && multiset(rest) == multiset(t[1..])
    ensures forall i :: 0 <= i < |rest| ==> rest[i].name != t[0].name
    ensures multiset(rest) + multiset{t[0]} == multiset(t)
  {
    forall i | 0 <= i < |rest|
      ensures rest[i].name != t[0].name
    {
      assert rest[i] in multiset(t[1..]);
      var j :| 0 <= j < |t[1..]| && t[1..][j] == rest[i];
      assert t[j + 1] == rest[i];
    }
    assert t == [t[0]] + t[1..];
  }

  /** A strictly ascending sequence has distinct keys, so it is a dict. */
  lemma SortedIsDict(s: seq<Entry>)
    requires StrictlySorted(s)
    ensures DistinctKeys(s)
  {
    forall i, j | 0 <= i < j < |s|
      ensures s[i].name != s[j].name
    {
      LessIrreflexive(s[i].name);
    }
  }

  /** Two strictly ascending sequences with the same entries are equal: the
      sorted table is determined by its entries alone. */
  lemma {:induction false} SortedUnique(a: seq<Entry>, b: seq<Entry>)
    requires StrictlySorted(a) && StrictlySorted(b)
    requires forall x :: x in a <==> x in b
    ensures a == b
  {
    assert |a| > 0 ==> a[0] in b;
    assert |b| > 0 ==> b[0] in a;
    if |a| > 0 && |b| > 0 {
      SortedHeadsEqual(a, b);
      SortedTailFacts(a);
      SortedTailFacts(b);
      SortedUnique(a[1..], b[1..]);
      assert a == [a[0]] + a[1..] && b == [b[0]] + b[1..];
    }
  }

  /** Two strictly ascending sequences with the same entries start alike. */
  lemma SortedHeadsEqual(a: seq<Entry>, b: seq<Entry>)
    requires StrictlySorted(a) && StrictlySorted(b) && |a| > 0 && |b| > 0
    requires a[0] in b && b[0] in a
    ensures a[0] == b[0]
  {
    var i :| 0 <= i < |b| && b[i] == a[0];
    var j :| 0 <= j < |a| && a[j] == b[0];
    if i > 0 && j > 0 {
      LessAsymmetric(a[0].name, a[j].name);
    }
  }

  /** The tail of a strictly ascending sequence is what remains after taking
      its head away. */
  lemma SortedTailFacts(a: seq<Entry>)
    requires StrictlySorted(a) && |a| > 0
    ensures StrictlySorted(a[1..])
    ensures forall x :: x in a[1..] <==> x in a && x != a[0]
  {
    forall x | x in a[1..]
      ensures x != a[0]
    {
      var k :| 1 <= k < |a| && a[k] == x;
      LessIrreflexive(a[0].name);
    }
    assert a == [a[0]] + a[1..];
  }

  /** The sorted table depends only on what the dict maps each name to, not on
      the insertion order in which the stylesheet's rules built it. */
  lemma SortDependsOnlyOnLookups(t1: Dict, t2: Dict)
    requires forall k :: Get(t1, k) == Get(t2, k)
    ensures SortByKey(t1) == SortByKey(t2)
  {
    var r1, r2 := SortByKey(t1), SortByKey(t2);
    forall x
      ensures x in r1 <==> x in r2
    {
      assert x in r1 <==> x in multiset(t1);
      assert x in r2 <==> x in multiset(t2);
      if x in t1 {
        assert Get(t2, x.name) == Some(x.glyph);
      }
      if x in t2 {
        assert Get(t1, x.name) == Some(x.glyph);
      }
    }
    SortedUnique(r1, r2);
  }

  /** An already ascending dict comes out of the sort unchanged. */
  lemma SortKeepsSorted(t: Dict)
    requires StrictlySorted(t)
    ensures SortByKey(t) == t
  {
    var r := SortByKey(t);
    forall x
      ensures x in r <==> x in t
    {
      assert x in r <==> x in multiset(r);
      assert x in t <==> x in multiset(t);
    }
    SortedUnique(r, t);
  }

  /** Sorting keeps every lookup. */
  lemma SortKeepsLookups(t: Dict, k: string)
    ensures Get(SortByKey(t), k) == Get(t, k)
  {
    var r := SortByKey(t);
    SortedIsDict(r);
    SameEntriesSameLookups(r, t, k);
  }

  /** Sorting keeps the number of entries: it is a permutation. */
  lemma SortedCount(t: Dict)
    ensures |SortByKey(t)| == |t|
  {
    assert |multiset(SortByKey(t))| == |multiset(t)|;
  }
}
