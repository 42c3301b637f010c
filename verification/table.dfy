/** The icon dictionary of `load_css`: a Python dict from icon name to code
    point, modelled as its entries in insertion order, keys distinct. */
module Table {
  import opened Results
  import opened Content

  datatype Entry = Entry(name: string, glyph: CodePoint)

  predicate DistinctKeys(t: seq<Entry>) {
    forall i, j :: 0 <= i < j < |t| ==> t[i].name != t[j].name
  }

  /** A dict: no name occurs twice. */
  type Dict = t: seq<Entry> | DistinctKeys(t)

  /** Dropping the last entry, or the first, leaves a dict. */
  lemma DictInit(t: Dict)
    requires |t| > 0
    ensures DistinctKeys(t[..|t| - 1])
  {
    assert forall i :: 0 <= i < |t| - 1 ==> t[..|t| - 1][i] == t[i];
  }

  lemma DictTail(t: Dict)
    requires |t| > 0
    ensures DistinctKeys(t[1..])
  {
    assert forall i :: 0 <= i < |t| - 1 ==> t[1..][i] == t[i + 1];
  }

  /** The position of key `k`, if present. */
  function IndexOf(t: seq<Entry>, k: string): (r: Option<nat>)
    ensures r.Some? ==> r.value < |t| && t[r.value].name == k
    ensures r.None? ==> forall i :: 0 <= i < |t| ==> t[i].name != k
  {
    if |t| == 0 then None
    else if t[0].name == k then Some(0)
    else match IndexOf(t[1..], k)
      case Some(i) => Some(i + 1)
      case None => None
  }

  /** `d.get(k)`: the code point stored under `k`, if any. */
  function Get(t: seq<Entry>, k: string): (r: Option<CodePoint>)
    ensures r.Some? <==> exists i :: 0 <= i < |t| && t[i].name == k
    ensures DistinctKeys(t) ==> forall i :: 0 <= i < |t| && t[i].name == k ==> r == Some(t[i].glyph)
  {
    match IndexOf(t, k)
    case Some(i) => Some(t[i].glyph)
    case None => None
  }

  /** `d[k] = v`: an existing key keeps its position and takes the new value,
      a new key is appended. */
  function Put(t: Dict, k: string, v: CodePoint): (r: Dict)
    ensures Get(r, k) == Some(v)
    ensures forall k' :: k' != k ==> Get(r, k') == Get(t, k')
    ensures |r| == if Get(t, k).Some? then |t| else |t| + 1
    ensures forall i :: 0 <= i < |t| ==> r[i].name == t[i].name
    ensures Get(t, k).None? ==> r == t + [Entry(k, v)]
  {
    match IndexOf(t, k)
    case Some(i) =>
      ReplaceLookups(t, i, v);
      t[i := Entry(k, v)]
    case None =>
      AppendLookups(t, k, v);
      t + [Entry(k, v)]
  }

  lemma ReplaceLookups(t: Dict, i: nat, v: CodePoint)
    requires i < |t|
    ensures DistinctKeys(t[i := Entry(t[i].name, v)])
    ensures Get(t[i := Entry(t[i].name, v)], t[i].name) == Some(v)
    ensures forall k' :: k' != t[i].name ==> Get(t[i := Entry(t[i].name, v)], k') == Get(t, k')
  {
    var r := t[i := Entry(t[i].name, v)];
    assert forall j :: 0 <= j < |t| ==> r[j].name == t[j].name;
    forall k' | k' != t[i].name
      ensures Get(r, k') == Get(t, k')
    {
      if j :| 0 <= j < |t| && t[j].name == k' {
        assert r[j] == t[j];
      }
    }
  }

  lemma AppendLookups(t: Dict, k: string, v: CodePoint)
    requires forall i :: 0 <= i < |t| ==> t[i].name != k
    ensures DistinctKeys(t + [Entry(k, v)])
    ensures Get(t + [Entry(k, v)], k) == Some(v)
    ensures forall k' :: k' != k ==> Get(t + [Entry(k, v)], k') == Get(t, k')
  {
    var r := t + [Entry(k, v)];
    assert r[|t|].name == k;
    forall k' | k' != k
      ensures Get(r, k') == Get(t, k')
    {
      if j :| 0 <= j < |t| && t[j].name == k' {
        assert r[j] == t[j];
      }
    }
  }

  /** Two dicts holding the same entries, in any order, answer every lookup alike. */
  lemma SameEntriesSameLookups(a: Dict, b: Dict, k: string)
    requires multiset(a) == multiset(b)
    ensures Get(a, k) == Get(b, k)
  {
    forall i | 0 <= i < |a|
      ensures a[i] in b
    {
      assert a[i] in multiset(a);
    }
    forall j | 0 <= j < |b|
      ensures b[j] in a
    {
      assert b[j] in multiset(b);
    }
  }
}
