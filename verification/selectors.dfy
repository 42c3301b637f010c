/** The icon-selector regular expression `\.(.*):before,?` of icon_font.py,
    as `re.match` (anchored at the start) and `re.finditer` (every
    non-overlapping match, left to right) use it. The `.` of the pattern does
    not match a newline, so a name never spans lines, and the greedy `.*`
    makes a name run to the LAST `:before` on its line. */
module Selectors {
  import opened Results
  import opened Strings

  const Before: string := ":before"

  /** `:before` starts at index `i` of `s`. */
  predicate OccursAt(s: string, i: nat) {
    i + |Before| <= |s| && s[i..i + |Before|] == Before
  }

  /** The index of the first newline at or after `i`, or `|s|` if there is none. */
  function LineEnd(s: string, i: nat): (e: nat)
    requires i <= |s|
    ensures i <= e <= |s|
    ensures InLine(s, i, e)
    ensures e < |s| ==> s[e] == '\n'
    decreases |s| - i
  {
    if i == |s| || s[i] == '\n' then i else LineEnd(s, i + 1)
  }

  /** The last start of `:before` lying wholly inside `s[lo..hi]`. */
  function LastOccurrence(s: string, lo: nat, hi: nat): (r: Option<nat>)
    requires lo <= hi <= |s|
    ensures r.Some? ==> lo <= r.value && r.value + |Before| <= hi && OccursAt(s, r.value)
    ensures r.Some? ==> forall q :: r.value < q && q + |Before| <= hi ==> !OccursAt(s, q)
    ensures r.None? ==> forall q :: lo <= q && q + |Before| <= hi ==> !OccursAt(s, q)
    decreases hi - lo
  {
    if hi - lo < |Before| then None
    else if OccursAt(s, hi - |Before|) then Some(hi - |Before|)
    else LastOccurrence(s, lo, hi - 1)
  }

  /** One regex match: the captured name and the index just past the match. */
  datatype Match = Match(name: string, end: nat)

  /** The regex tried at index `p`. It matches exactly when `s[p]` is a dot and
      `:before` occurs later on the same line; the name then runs from after
      the dot to the last such `:before`, and an immediately following comma
      is consumed. */
  function MatchAt(s: string, p: nat): (r: Option<Match>)
    requires p <= |s|
    ensures r.Some? <==>
      p < |s| && s[p] == '.' && exists q :: p < q && OccursAt(s, q) && InLine(s, p + 1, q)
    ensures r.Some? ==> MatchedAt(s, p, r.value)
  {
    if p < |s| && s[p] == '.' then
      var e := LineEnd(s, p + 1);
      match LastOccurrence(s, p + 1, e)
      case None =>
        NoOccurrenceOnLine(s, p, e);
        None
      case Some(q) =>
        LaterOccurrenceLeavesLine(s, p, e, q);
        var k := q + |Before|;
        var m := Match(s[p + 1..q], if k < |s| && s[k] == ',' then k + 1 else k);
        FoundMatch(s, p, q, m);
        Some(m)
    else None
  }

  /** `m` is what the regex yields at `p`: the name runs from after the dot up
      to a `:before` on the same line with none later on it, and the match
      ends past that `:before` and one comma directly after it, if any. */
  ghost predicate MatchedAt(s: string, p: nat, m: Match) {
    var q := p + 1 + |m.name|;
    && OccursAt(s, q) && InLine(s, p + 1, q)
    && m.name == s[p + 1..q]
    && (forall q' :: q < q' && OccursAt(s, q') ==> !InLine(s, p + 1, q'))
    && m.end == (if q + |Before| < |s| && s[q + |Before|] == ',' then q + |Before| + 1 else q + |Before|)
  }

  lemma FoundMatch(s: string, p: nat, q: nat, m: Match)
    requires p < q && OccursAt(s, q) && InLine(s, p + 1, q)
    requires forall q' :: q < q' && OccursAt(s, q') ==> !InLine(s, p + 1, q')
    requires m == Match(s[p + 1..q], if q + |Before| < |s| && s[q + |Before|] == ',' then q + |Before| + 1 else q + |Before|)
    ensures MatchedAt(s, p, m)
  {
  }

  /** An occurrence of `:before` on the line that starts at `p + 1` lies
      wholly before the line's end `e`, because `:before` holds no newline. */
  lemma OccurrenceWithinLine(s: string, p: nat, e: nat, q: nat)
    requires p + 1 <= e <= |s| && InLine(s, p + 1, e) && (e < |s| ==> s[e] == '\n')
    requires p < q && OccursAt(s, q) && InLine(s, p + 1, q)
    ensures q + |Before| <= e
  {
    assert forall k :: q <= k < q + |Before| ==> s[k] == Before[k - q];
    assert forall j :: 0 <= j < |Before| ==> Before[j] != '\n';
  }

  lemma NoOccurrenceOnLine(s: string, p: nat, e: nat)
    requires p + 1 <= e <= |s| && InLine(s, p + 1, e) && (e < |s| ==> s[e] == '\n')
    requires forall q :: p + 1 <= q && q + |Before| <= e ==> !OccursAt(s, q)
    ensures !exists q :: p < q && OccursAt(s, q) && InLine(s, p + 1, q)
  {
    forall q | p < q && OccursAt(s, q) && InLine(s, p + 1, q)
      ensures false
    {
      OccurrenceWithinLine(s, p, e, q);
    }
  }

  lemma LaterOccurrenceLeavesLine(s: string, p: nat, e: nat, q: nat)
    requires p + 1 <= e <= |s| && InLine(s, p + 1, e) && (e < |s| ==> s[e] == '\n')
    requires q + |Before| <= e
    requires forall q' :: q < q' && q' + |Before| <= e ==> !OccursAt(s, q')
    ensures forall q' :: q < q' && OccursAt(s, q') ==> !InLine(s, p + 1, q')
  {
    forall q' | q < q' && OccursAt(s, q') && InLine(s, p + 1, q')
      ensures false
    {
      OccurrenceWithinLine(s, p, e, q');
    }
  }

  /** `re.finditer` from index `p`: the names of all non-overlapping matches,
      left to right. Each name, with its dot and `:before`, fits in `s[p..]`. */
  function FindAll(s: string, p: nat): (r: seq<string>)
    requires p <= |s|
    ensures forall i :: 0 <= i < |r| ==> |r[i]| + 1 + |Before| <= |s| - p
    decreases |s| - p
  {
    if p == |s| then []
    else match MatchAt(s, p)
      case Some(m) => [m.name] + FindAll(s, m.end)
      case None => FindAll(s, p + 1)
  }

  /** `is_icon.match(selector)`: the selector is an icon selector. */
  predicate IsIcon(selector: string) {
    MatchAt(selector, 0).Some?
  }

  /** The icon names `is_icon.finditer(selector)` yields. */
  function Names(selector: string): seq<string> {
    FindAll(selector, 0)
  }

  /** The number of newlines in `s[p..]`. */
  function Newlines(s: string, p: nat): nat
    requires p <= |s|
    decreases |s| - p
  {
    if p == |s| then 0 else (if s[p] == '\n' then 1 else 0) + Newlines(s, p + 1)
  }

  lemma {:induction false} NewlinesInLine(s: string, x: nat, e: nat)
    requires x <= e <= |s| && InLine(s, x, e)
    ensures Newlines(s, x) == Newlines(s, e)
    decreases e - x
  {
    if x < e {
      NewlinesInLine(s, x + 1, e);
    }
  }

  /** After a match at `p`, no further match starts on the same line: one
      would need a `:before` past the captured one on that line, which the
      greedy capture rules out. */
  lemma NoMatchAfterCapture(s: string, p: nat, m: Match, x: nat)
    requires p <= |s| && MatchAt(s, p) == Some(m)
    requires m.end <= x < LineEnd(s, p + 1)
    ensures MatchAt(s, x) == None
  {
    var e := LineEnd(s, p + 1);
    assert MatchedAt(s, p, m);
    assert InLine(s, x + 1, e);
    forall q | x < q && OccursAt(s, q) && InLine(s, x + 1, q)
      ensures false
    {
      OccurrenceWithinLine(s, x, e, q);
    }
  }

  /** `finditer` steps past a position where the regex does not match. */
  lemma FindAllMiss(s: string, x: nat)
    requires x < |s| && MatchAt(s, x).None?
    ensures FindAll(s, x) == FindAll(s, x + 1)
  {
  }

  /** No match starts at a character other than a dot. */
  lemma FindAllNoDot(s: string, x: nat)
    requires x < |s| && s[x] != '.'
    ensures FindAll(s, x) == FindAll(s, x + 1)
  {
  }

  /** `finditer` yields a match's name and resumes after the match. */
  lemma FindAllHit(s: string, p: nat, m: Match)
    requires p < |s| && MatchAt(s, p) == Some(m)
    ensures FindAll(s, p) == [m.name] + FindAll(s, m.end)
  {
  }

  /** The regex matches nowhere in `s[x..e]`. */
  ghost predicate NoMatchIn(s: string, x: nat, e: nat)
    decreases e - x
  {
    x < e && x <= |s| ==> MatchAt(s, x).None? && NoMatchIn(s, x + 1, e)
  }

  /** `finditer` passes over a stretch without matches. */
  lemma {:induction false} FindAllSkips(s: string, x: nat, e: nat)
    requires x <= e <= |s| && NoMatchIn(s, x, e)
    ensures FindAll(s, x) == FindAll(s, e)
    decreases e - x
  {
    if x < e {
      FindAllMiss(s, x);
      FindAllSkips(s, x + 1, e);
    }
  }

  lemma {:induction false} NoMatchRest(s: string, p: nat, m: Match, x: nat)
    requires p <= |s| && MatchAt(s, p) == Some(m)
    requires m.end <= x <= LineEnd(s, p + 1)
    ensures NoMatchIn(s, x, LineEnd(s, p + 1))
    decreases LineEnd(s, p + 1) - x
  {
    if x < LineEnd(s, p + 1) {
      NoMatchAfterCapture(s, p, m, x);
      NoMatchRest(s, p, m, x + 1);
    }
  }

  /** So `finditer` resumes at the end of the matched line. */
  lemma RestOfLineSkipped(s: string, p: nat, m: Match)
    requires p <= |s| && MatchAt(s, p) == Some(m)
    ensures m.end <= LineEnd(s, p + 1)
    ensures FindAll(s, m.end) == FindAll(s, LineEnd(s, p + 1))
  {
    var e := LineEnd(s, p + 1);
    assert MatchedAt(s, p, m);
    OccurrenceWithinLine(s, p, e, p + 1 + |m.name|);
    NoMatchRest(s, p, m, m.end);
    FindAllSkips(s, m.end, e);
  }

  /** A match at `p` contributes one name, and `finditer` carries on from
      the end of its line. */
  lemma MatchConsumesLine(s: string, p: nat, m: Match)
    requires p < |s| && MatchAt(s, p) == Some(m)
    ensures |FindAll(s, p)| == 1 + |FindAll(s, LineEnd(s, p + 1))|
  {
    FindAllHit(s, p, m);
    RestOfLineSkipped(s, p, m);
  }

  /** A newline ends the line: `finditer` passes over it, and it is counted. */
  lemma NewlineStep(s: string, e: nat)
    requires e < |s| && s[e] == '\n'
    ensures |FindAll(s, e)| == |FindAll(s, e + 1)|
    ensures Newlines(s, e) == 1 + Newlines(s, e + 1)
  {
    FindAllNoDot(s, e);
  }

  /** One step of `finditer` from `p`: either no match starts there, or one
      name is found and the search resumes past the end of its line. */
  lemma Advance(s: string, p: nat) returns (next: nat)
    requires p < |s|
    ensures p < next <= |s|
    ensures || (|FindAll(s, p)| == |FindAll(s, next)| && Newlines(s, p) >= Newlines(s, next))
            || (|FindAll(s, p)| == 1 + |FindAll(s, next)| && Newlines(s, p) == 1 + Newlines(s, next))
            || (|FindAll(s, p)| == 1 && next == |s|)
  {
    var r := MatchAt(s, p);
    if r.None? {
      FindAllMiss(s, p);
      next := p + 1;
    } else {
      var e := LineEnd(s, p + 1);
      MatchConsumesLine(s, p, r.value);
      NewlinesInLine(s, p + 1, e);
      if e < |s| {
        NewlineStep(s, e);
        next := e + 1;
      } else {
        next := e;
      }
    }
  }

  /** `re.finditer` yields at most one name per line: never more names than
      lines, counted as newlines plus one. */
  lemma {:induction false} NamesAtMostOnePerLine(s: string, p: nat)
    requires p <= |s|
    ensures |FindAll(s, p)| <= Newlines(s, p) + 1
    decreases |s| - p
  {
    if p < |s| {
      var next := Advance(s, p);
      NamesAtMostOnePerLine(s, next);
    }
  }




  /** An icon selector yields at least one name, the first being the match at
      its start; every name is shorter than the selector minus its dot. */
  lemma IconNames(selector: string)
    requires IsIcon(selector)
    ensures |Names(selector)| >= 1
    ensures Names(selector)[0] == MatchAt(selector, 0).value.name
    ensures forall i :: 0 <= i < |Names(selector)| ==> |Names(selector)[i]| < |selector| - 1
  {
  }

  lemma {:induction false} NoMatchFrom(s: string, p: nat)
    requires p <= |s|
    requires forall q :: p < q ==> !OccursAt(s, q)
    ensures FindAll(s, p) == []
    decreases |s| - p
  {
    if p < |s| {
      NoMatchFrom(s, p + 1);
    }
  }

  /** On a selector without newlines the greedy capture leaves no room for a
      second match, so it yields exactly one name. */
  lemma {:induction false} SingleLineSelectorHasOneName(selector: string)
    requires IsIcon(selector) && InLine(selector, 0, |selector|)
    ensures Names(selector) == [MatchAt(selector, 0).value.name]
  {
    var m := MatchAt(selector, 0).value;
    forall q | m.end < q
      ensures !OccursAt(selector, q)
    {
      assert InLine(selector, 1, q);
    }
    NoMatchFrom(selector, m.end);
  }

  /** The common case `.name:before`: whatever `name` holds, the greedy
      capture gives back all of it, and nothing else. */
  lemma SimpleSelectorName(name: string)
    requires InLine(name, 0, |name|)
    ensures IsIcon("." + name + Before)
    ensures Names("." + name + Before) == [name]
  {
    var s := "." + name + Before;
    var q := 1 + |name|;
    assert s[q..q + |Before|] == Before;
    assert OccursAt(s, q);
    assert InLine(s, 1, |s|) by {
      assert forall k :: 1 <= k <= |name| ==> s[k] == name[k - 1];
      assert forall k :: 0 <= k < |Before| ==> s[q + k] == Before[k];
    }
    var m := MatchAt(s, 0).value;
    assert s[1..q] == name;
    SingleLineSelectorHasOneName(s);
  }

  /** A selector that names two icons, one per line, as stylesheets write
      alias groups. */
  const AliasGroup: string := ".a:before,\n.b:before"

  /** `LineEnd` finds the first newline: if `s[i..j]` holds none and `j` is
      a newline or the end, the line ends at `j`. */
  lemma {:induction false} LineEndAt(s: string, i: nat, j: nat)
    requires i <= j <= |s| && InLine(s, i, j) && (j == |s| || s[j] == '\n')
    ensures LineEnd(s, i) == j
    decreases j - i
  {
    if i < j {
      LineEndAt(s, i + 1, j);
    }
  }

  /** `LastOccurrence` finds the last `:before`: one at `q` with none after it
      inside the window is the answer. */
  lemma {:induction false} LastOccurrenceAt(s: string, lo: nat, hi: nat, q: nat)
    requires lo <= q && q + |Before| <= hi <= |s| && OccursAt(s, q)
    requires forall q' :: q < q' && q' + |Before| <= hi ==> !OccursAt(s, q')
    ensures LastOccurrence(s, lo, hi) == Some(q)
    decreases hi - lo
  {
    if q + |Before| < hi {
      LastOccurrenceAt(s, lo, hi - 1, q);
    }
  }

  /** The characters of `AliasGroup` the matches below depend on. */
  lemma AliasGroupLayout()
    ensures |AliasGroup| == 20
    ensures AliasGroup[2..9] == Before && AliasGroup[13..20] == Before
    ensures AliasGroup[1..2] == "a" && AliasGroup[12..13] == "b"
    ensures AliasGroup[0] == '.' && AliasGroup[9] == ',' && AliasGroup[10] == '\n' && AliasGroup[11] == '.'
    ensures InLine(AliasGroup, 1, 10) && InLine(AliasGroup, 12, 20)
    ensures !OccursAt(AliasGroup, 3)
  {
    assert AliasGroup[3..10][0] == 'b';
    assert AliasGroup[1..2][0] == 'a' && AliasGroup[12..13][0] == 'b';
    assert forall k :: 0 <= k < 7 ==> AliasGroup[2..9][k] == Before[k] && AliasGroup[13..20][k] == Before[k];
  }

  lemma AliasGroupFirstMatch()
    ensures MatchAt(AliasGroup, 0) == Some(Match("a", 10))
  {
    AliasGroupLayout();
    LineEndAt(AliasGroup, 1, 10);
    LastOccurrenceAt(AliasGroup, 1, 10, 2);
  }

  lemma AliasGroupSecondMatch()
    ensures MatchAt(AliasGroup, 10) == None
    ensures MatchAt(AliasGroup, 11) == Some(Match("b", 20))
  {
    AliasGroupLayout();
    LineEndAt(AliasGroup, 12, 20);
    LastOccurrenceAt(AliasGroup, 12, 20, 13);
  }

  /** An alias group written one selector per line yields one name per line. */
  lemma AliasGroupNames()
    ensures Names(AliasGroup) == ["a", "b"]
  {
    AliasGroupFirstMatch();
    AliasGroupSecondMatch();
    assert FindAll(AliasGroup, 20) == [];
  }
}
