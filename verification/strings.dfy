/** String helpers with Python semantics: slicing past the end, the common
    prefix of `os.path.commonprefix`, and the code-point order `sorted` uses. */
module Strings {

  /** No newline in `s[lo..hi]`: the stretch a regex's `.` may run over. */
  predicate InLine(s: string, lo: nat, hi: nat) {
    forall k :: lo <= k < hi && k < |s| ==> s[k] != '\n'
  }

  /** Python's slice `s[k:]`, which is empty when `k` runs past the end. */
  function Drop(s: string, k: nat): (r: string)
    ensures |r| == if k <= |s| then |s| - k else 0
  {
    if k <= |s| then s[k..] else []
  }

  /** `os.path.commonprefix((a, b))`: the longest string that is a prefix of both. */
  function CommonPrefix(a: string, b: string): (r: string)
    ensures r <= a && r <= b
    ensures |r| == |a| || |r| == |b| || a[|r|] != b[|r|]
  {
    if |a| == 0 || |b| == 0 || a[0] != b[0] then []
    else [a[0]] + CommonPrefix(a[1..], b[1..])
  }

  /** Every common prefix of `a` and `b` is a prefix of `CommonPrefix(a, b)`:
      the result is the greatest common prefix, not merely a common one. */
  lemma CommonPrefixIsLongest(a: string, b: string, q: string)
    requires q <= a && q <= b
    ensures q <= CommonPrefix(a, b)
  {
    var r := CommonPrefix(a, b);
    assert forall k :: 0 <= k < |q| ==> q[k] == a[k] && q[k] == b[k];
    assert |q| <= |r|;
    assert q[..|q|] == a[..|q|] && r[..|q|] == a[..|q|] by {
      assert r == a[..|r|];
    }
  }

  /** A shared start carries over into the common prefix. */
  lemma {:induction false} CommonPrefixOfExtensions(p: string, a: string, b: string)
    ensures CommonPrefix(p + a, p + b) == p + CommonPrefix(a, b)
  {
    if |p| > 0 {
      CommonPrefixOfExtensions(p[1..], a, b);
      assert (p + a)[1..] == p[1..] + a && (p + b)[1..] == p[1..] + b;
      assert p == [p[0]] + p[1..];
    } else {
      assert p + a == a && p + b == b;
    }
  }

  lemma PrefixTransitive(p: string, q: string, s: string)
    requires p <= q && q <= s
    ensures p <= s
  {
    assert q[..|p|] == s[..|p|];
  }

  /** Python's string `<`: lexicographic order on code points, a proper
      prefix coming first. */
  predicate Less(a: string, b: string) {
    if |a| == 0 then |b| > 0
    else if |b| == 0 then false
    else if a[0] != b[0] then a[0] < b[0]
    else Less(a[1..], b[1..])
  }

  /** `a` and `b` first differ at an index where `a` has the smaller character. */
  predicate FirstDifferenceBelow(a: string, b: string) {
    exists i :: 0 <= i < |a| && i < |b| && a[..i] == b[..i] && a[i] < b[i]
  }

  /** The declarative reading of `Less`: `a` is a proper prefix of `b`, or
      the two first differ at an index where `a` has the smaller character. */
  lemma {:induction false} LessIffFirstDifference(a: string, b: string)
    ensures Less(a, b) <==> a < b || FirstDifferenceBelow(a, b)
  {
    if |a| == 0 || |b| == 0 {
    } else if a[0] != b[0] {
      if a[0] < b[0] {
        assert a[..0] == b[..0];
      } else {
        assert forall i :: 0 < i <= |a| ==> a[..i][0] == a[0];
        assert forall i :: 0 < i <= |b| ==> b[..i][0] == b[0];
      }
    } else {
      LessIffFirstDifference(a[1..], b[1..]);
      PrefixAfterHead(a, b);
      DifferenceAfterHead(a, b);
    }
  }

  /** Past a shared first character, proper prefixes stay proper prefixes. */
  lemma PrefixAfterHead(a: string, b: string)
    requires |a| > 0 && |b| > 0 && a[0] == b[0]
    ensures a < b <==> a[1..] < b[1..]
  {
    assert a == [a[0]] + a[1..] && b == [b[0]] + b[1..];
  }

  /** Past a shared first character, the first difference moves one place. */
  lemma DifferenceAfterHead(a: string, b: string)
    requires |a| > 0 && |b| > 0 && a[0] == b[0]
    ensures FirstDifferenceBelow(a, b) <==> FirstDifferenceBelow(a[1..], b[1..])
  {
    if FirstDifferenceBelow(a[1..], b[1..]) {
      var i :| 0 <= i < |a| - 1 && i < |b| - 1 && a[1..][..i] == b[1..][..i] && a[1..][i] < b[1..][i];
      assert a[..i + 1] == [a[0]] + a[1..][..i];
      assert b[..i + 1] == [b[0]] + b[1..][..i];
    }
    if FirstDifferenceBelow(a, b) {
      var i :| 0 <= i < |a| && i < |b| && a[..i] == b[..i] && a[i] < b[i];
      assert i > 0;
      assert a[1..][..i - 1] == a[..i][1..] == b[..i][1..] == b[1..][..i - 1];
      assert a[1..][i - 1] < b[1..][i - 1];
    }
  }

  lemma {:induction false} LessIrreflexive(a: string)
    ensures !Less(a, a)
  {
    if |a| > 0 {
      LessIrreflexive(a[1..]);
    }
  }

  lemma {:induction false} LessTransitive(a: string, b: string, c: string)
    requires Less(a, b) && Less(b, c)
    ensures Less(a, c)
  {
    if |a| > 0 && |b| > 0 && |c| > 0 && a[0] == b[0] == c[0] {
      LessTransitive(a[1..], b[1..], c[1..]);
    }
  }

  /** Any two different strings are ordered one way or the other. */
  lemma {:induction false} LessTotal(a: string, b: string)
    requires a != b
    ensures Less(a, b) || Less(b, a)
  {
    if |a| > 0 && |b| > 0 && a[0] == b[0] {
      assert a == [a[0]] + a[1..] && b == [b[0]] + b[1..];
      LessTotal(a[1..], b[1..]);
    }
  }

  lemma {:induction false} LessAsymmetric(a: string, b: string)
    requires Less(a, b)
    ensures !Less(b, a)
  {
    if Less(b, a) {
      LessTransitive(a, b, a);
      LessIrreflexive(a);
    }
  }
}
