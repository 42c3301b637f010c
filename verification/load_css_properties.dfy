/** What `load_css` promises about its two results: the common prefix is the
    longest common prefix of the icon selectors, the table holds each
    extracted name with the value of its last assignment, prefix stripping
    rewrites the keys without adding entries, and the output is sorted. */
module LoadCssProperties {
  import opened Results
  import opened Strings
  import opened Selectors
  import opened Content
  import opened Table
  import opened Sorting
  import opened LoadCss

  /** `rule` assigns a value to icon `k`: it is an icon rule, `k` is one of the
      names its selector yields, and it has a `content` declaration. */
  predicate Writes(rule: Rule, k: string) {
    IsIcon(rule.selector) && k in Names(rule.selector) && LastContent(rule.declarations).Some?
  }

  /** `rules[i]` is the last rule of the stylesheet that assigns to `k`. */
  predicate LastWriter(rules: seq<Rule>, i: int, k: string) {
    0 <= i < |rules| && Writes(rules[i], k) && forall j :: i < j < |rules| ==> !Writes(rules[j], k)
  }

  /** The code point a rule assigns to each of its names. */
  function WrittenValue(rule: Rule): Option<CodePoint>
    requires LastContent(rule.declarations).Some?
  {
    DecodeContent(LastContent(rule.declarations).value).ToOption()
  }

  /** The icon rules of a stylesheet, in order. */
  function IconRules(rules: seq<Rule>): (r: seq<Rule>)
    ensures forall i :: 0 <= i < |r| ==> IsIcon(r[i].selector)
    ensures |r| <= |rules|
  {
    if |rules| == 0 then []
    else
      var last := rules[|rules| - 1];
      IconRules(rules[..|rules| - 1]) + (if IsIcon(last.selector) then [last] else [])
  }

  lemma FoldSplits(rules: seq<Rule>)
    requires |rules| > 0 && Fold(rules).Success?
    ensures Fold(rules[..|rules| - 1]).Success?
    ensures Fold(rules) == Step(Fold(rules[..|rules| - 1]).value, rules[|rules| - 1])
  {
  }

  /** Rules that are not icon rules change neither the table nor the prefix:
      loading the stylesheet is loading its icon rules alone. */
  lemma {:induction false} FoldIgnoresNonIconRules(rules: seq<Rule>)
    ensures Fold(rules) == Fold(IconRules(rules))
    decreases |rules|
  {
    if |rules| > 0 {
      var init, last := rules[..|rules| - 1], rules[|rules| - 1];
      FoldIgnoresNonIconRules(init);
      var icons := IconRules(init);
      assert Fold(rules) == FoldStep(Fold(init), last);
      if IsIcon(last.selector) {
        assert IconRules(rules) == icons + [last];
        assert (icons + [last])[..|icons + [last]| - 1] == icons;
        assert Fold(icons + [last]) == FoldStep(Fold(icons), last);
      } else {
        assert IconRules(rules) == icons;
      }
    }
  }

  /** One more rule after a partial fold. */
  function FoldStep(acc: Result<State, LoadError>, rule: Rule): Result<State, LoadError> {
    match acc
    case Failure(e) => Failure(e)
    case Success(st) => Step(st, rule)
  }

  lemma LoadIgnoresNonIconRules(rules: seq<Rule>, keepPrefix: bool)
    ensures Load(rules, keepPrefix) == Load(IconRules(rules), keepPrefix)
  {
    FoldIgnoresNonIconRules(rules);
  }

  /** The prefix stays `None` exactly as long as no icon rule has been seen. */
  lemma {:induction false} PrefixAbsentIffNoIconRule(rules: seq<Rule>)
    requires Fold(rules).Success?
    ensures Fold(rules).value.prefix.None? <==> forall i :: 0 <= i < |rules| ==> !IsIcon(rules[i].selector)
    decreases |rules|
  {
    if |rules| > 0 {
      var init := rules[..|rules| - 1];
      FoldSplits(rules);
      PrefixAbsentIffNoIconRule(init);
      assert forall i :: 0 <= i < |init| ==> init[i] == rules[i];
    }
  }

  /** The prefix is a prefix of `selector[1:]` for every icon rule. */
  lemma {:induction false} PrefixIsCommon(rules: seq<Rule>)
    requires Fold(rules).Success? && Fold(rules).value.prefix.Some?
    ensures forall i :: 0 <= i < |rules| && IsIcon(rules[i].selector) ==>
      Fold(rules).value.prefix.value <= Tail(rules[i].selector)
    decreases |rules|
  {
    var init, last := rules[..|rules| - 1], rules[|rules| - 1];
    FoldSplits(rules);
    var st := Fold(init).value;
    var p := Fold(rules).value.prefix.value;
    assert forall i :: 0 <= i < |init| ==> init[i] == rules[i];
    if st.prefix.Some? {
      PrefixIsCommon(init);
      if IsIcon(last.selector) {
        forall i | 0 <= i < |init| && IsIcon(init[i].selector)
          ensures p <= Tail(init[i].selector)
        {
          PrefixTransitive(p, st.prefix.value, Tail(init[i].selector));
        }
      }
    } else {
      PrefixAbsentIffNoIconRule(init);
    }
  }

  /** Every string that is a prefix of `selector[1:]` for all icon rules is a
      prefix of the computed one: it is the LONGEST common prefix. */
  lemma {:induction false} PrefixIsLongest(rules: seq<Rule>, q: string)
    requires Fold(rules).Success? && Fold(rules).value.prefix.Some?
    requires forall i :: 0 <= i < |rules| && IsIcon(rules[i].selector) ==> q <= Tail(rules[i].selector)
    ensures q <= Fold(rules).value.prefix.value
    decreases |rules|
  {
    var init, last := rules[..|rules| - 1], rules[|rules| - 1];
    FoldSplits(rules);
    var st := Fold(init).value;
    assert forall i :: 0 <= i < |init| ==> init[i] == rules[i];
    if IsIcon(last.selector) {
      if st.prefix.Some? {
        PrefixIsLongest(init, q);
        CommonPrefixIsLongest(st.prefix.value, Tail(last.selector), q);
      }
    } else {
      PrefixIsLongest(init, q);
    }
  }

  /** After the rule loop the dict holds exactly the names some rule assigns
      to, each with the value its last assigning rule decodes. */
  lemma FoldLookups(rules: seq<Rule>, k: string)
    requires Fold(rules).Success?
    ensures Get(Fold(rules).value.icons, k).Some? <==> exists i :: 0 <= i < |rules| && Writes(rules[i], k)
    ensures forall i :: LastWriter(rules, i, k) ==> Get(Fold(rules).value.icons, k) == WrittenValue(rules[i])
  {
    FoldKeys(rules, k);
    forall i | LastWriter(rules, i, k)
      ensures Get(Fold(rules).value.icons, k) == WrittenValue(rules[i])
    {
      FoldValues(rules, i, k);
    }
  }

  lemma {:induction false} FoldKeys(rules: seq<Rule>, k: string)
    requires Fold(rules).Success?
    ensures Get(Fold(rules).value.icons, k).Some? <==> exists i :: 0 <= i < |rules| && Writes(rules[i], k)
    decreases |rules|
  {
    if |rules| > 0 {
      var init, last := rules[..|rules| - 1], rules[|rules| - 1];
      FoldSplits(rules);
      FoldKeys(init, k);
      StepLookups(Fold(init).value, last, k);
      WritersSplit(rules, k);
    }
  }

  predicate SomeWriter(rules: seq<Rule>, k: string) {
    exists i :: 0 <= i < |rules| && Writes(rules[i], k)
  }

  /** Some rule writes `k` exactly when an earlier one or the last one does. */
  lemma WritersSplit(rules: seq<Rule>, k: string)
    requires |rules| > 0
    ensures SomeWriter(rules, k) <==> SomeWriter(rules[..|rules| - 1], k) || Writes(rules[|rules| - 1], k)
  {
    var init := rules[..|rules| - 1];
    assert forall i :: 0 <= i < |init| ==> init[i] == rules[i];
  }

  lemma {:induction false} FoldValues(rules: seq<Rule>, i: int, k: string)
    requires Fold(rules).Success? && LastWriter(rules, i, k)
    ensures Get(Fold(rules).value.icons, k) == WrittenValue(rules[i])
    decreases |rules|
  {
    var init, last := rules[..|rules| - 1], rules[|rules| - 1];
    FoldSplits(rules);
    StepLookups(Fold(init).value, last, k);
    if i < |rules| - 1 {
      LastWriterOfInit(rules, i, k);
      FoldValues(init, i, k);
      assert init[i] == rules[i];
    }
  }

  lemma LastWriterOfInit(rules: seq<Rule>, i: int, k: string)
    requires |rules| > 0 && LastWriter(rules, i, k) && !Writes(rules[|rules| - 1], k)
    ensures LastWriter(rules[..|rules| - 1], i, k)
  {
    var init := rules[..|rules| - 1];
    assert i != |rules| - 1;
    forall j | i < j < |init|
      ensures !Writes(init[j], k)
    {
      assert init[j] == rules[j];
    }
  }

  /** One turn of the rule loop assigns to exactly the names the rule writes. */
  lemma StepLookups(st: State, rule: Rule, k: string)
    requires Step(st, rule).Success?
    ensures Writes(rule, k) ==> WrittenValue(rule).Some?
    ensures Get(Step(st, rule).value.icons, k) == if Writes(rule, k) then WrittenValue(rule) else Get(st.icons, k)
  {
    if IsIcon(rule.selector) {
      StepSucceedsIff(st, rule);
      if LastContent(rule.declarations).Some? {
        LastContentDecodes(rule.declarations);
      }
    }
  }

  /** When every `content` value decodes, so does the last one. */
  lemma LastContentDecodes(decls: seq<Declaration>)
    requires ContentDecodes(decls) && LastContent(decls).Some?
    ensures DecodeContent(LastContent(decls).value).Success?
  {
  }

  // ---------------------------------------------------------------------
  // Prefix stripping
  // ---------------------------------------------------------------------

  /** `e` is some entry of `t` with its name stripped of `n` characters. */
  predicate StrippedFrom(t: seq<Entry>, n: nat, e: Entry) {
    exists i :: 0 <= i < |t| && Drop(t[i].name, n) == e.name && t[i].glyph == e.glyph
  }

  /** Every entry's stripped name is a key afterwards, and every key
      afterwards is some entry's stripped name carrying that entry's value. */
  lemma StripKeys(t: Dict, n: nat)
    ensures forall i :: 0 <= i < |t| ==> Get(StripPrefix(t, n), Drop(t[i].name, n)).Some?
    ensures forall j :: 0 <= j < |StripPrefix(t, n)| ==> StrippedFrom(t, n, StripPrefix(t, n)[j])
  {
    forall i | 0 <= i < |t|
      ensures Get(StripPrefix(t, n), Drop(t[i].name, n)).Some?
    {
      StripKeepsKey(t, n, i);
    }
    forall j | 0 <= j < |StripPrefix(t, n)|
      ensures StrippedFrom(t, n, StripPrefix(t, n)[j])
    {
      var e := StripPrefix(t, n)[j];
      assert Get(StripPrefix(t, n), e.name) == Some(e.glyph);
      StripOrigin(t, n, e.name);
    }
  }

  /** The reference reading of prefix stripping: the last entry, in
      insertion order, whose name strips to `key`. */
  function LastStrippedTo(t: seq<Entry>, n: nat, key: string): (r: Option<nat>)
    ensures r.Some? ==> r.value < |t|
    decreases |t|
  {
    if |t| == 0 then None
    else if Drop(t[|t| - 1].name, n) == key then Some(|t| - 1)
    else LastStrippedTo(t[..|t| - 1], n, key)
  }

  /** What `LastStrippedTo` finds: an entry stripping to `key` with none
      after it, or nothing when no entry strips to `key`. */
  lemma {:induction false} LastStrippedToMeans(t: seq<Entry>, n: nat, key: string)
    ensures LastStrippedTo(t, n, key).Some? ==>
      var i := LastStrippedTo(t, n, key).value;
      Drop(t[i].name, n) == key && forall j :: i < j < |t| ==> Drop(t[j].name, n) != key
    ensures LastStrippedTo(t, n, key).None? ==> forall j :: 0 <= j < |t| ==> Drop(t[j].name, n) != key
    decreases |t|
  {
    if |t| > 0 && Drop(t[|t| - 1].name, n) != key {
      var init := t[..|t| - 1];
      LastStrippedToMeans(init, n, key);
      assert forall j :: 0 <= j < |init| ==> init[j] == t[j];
    }
  }

  /** Stripping agrees with the reference reading: a key is present exactly
      when some entry strips to it, and holds the value of the last such. */
  lemma {:induction false} StripPrefixLookup(t: Dict, n: nat, key: string)
    ensures LastStrippedTo(t, n, key).None? ==> Get(StripPrefix(t, n), key).None?
    ensures LastStrippedTo(t, n, key).Some? ==>
      Get(StripPrefix(t, n), key) == Some(t[LastStrippedTo(t, n, key).value].glyph)
    decreases |t|
  {
    if |t| > 0 {
      StripLookup(t, n, key);
      if Drop(t[|t| - 1].name, n) != key {
        DictInit(t);
        StripPrefixLookup(t[..|t| - 1], n, key);
        LastStrippedToInit(t, n, key);
      }
    }
  }

  lemma LastStrippedToInit(t: seq<Entry>, n: nat, key: string)
    requires |t| > 0 && Drop(t[|t| - 1].name, n) != key
    ensures LastStrippedTo(t, n, key) == LastStrippedTo(t[..|t| - 1], n, key)
    ensures LastStrippedTo(t, n, key).Some? ==>
      t[LastStrippedTo(t, n, key).value] == t[..|t| - 1][LastStrippedTo(t, n, key).value]
  {
  }

  /** A lookup after stripping one more entry: the last entry answers for its
      own stripped key, the earlier ones for every other key. */
  lemma StripLookup(t: Dict, n: nat, key: string)
    requires |t| > 0
    ensures Get(StripPrefix(t, n), key) ==
      if Drop(t[|t| - 1].name, n) == key then Some(t[|t| - 1].glyph) else Get(StripPrefix(t[..|t| - 1], n), key)
  {
  }

  lemma StripKeepsKey(t: Dict, n: nat, i: nat)
    requires i < |t|
    ensures Get(StripPrefix(t, n), Drop(t[i].name, n)).Some?
  {
    StripPrefixLookup(t, n, Drop(t[i].name, n));
    LastStrippedToMeans(t, n, Drop(t[i].name, n));
  }

  lemma StripOrigin(t: Dict, n: nat, key: string)
    requires Get(StripPrefix(t, n), key).Some?
    ensures exists i :: 0 <= i < |t| && Drop(t[i].name, n) == key && Some(t[i].glyph) == Get(StripPrefix(t, n), key)
  {
    StripPrefixLookup(t, n, key);
    LastStrippedToMeans(t, n, key);
    var i := LastStrippedTo(t, n, key).value;
    assert 0 <= i < |t| && Drop(t[i].name, n) == key && Some(t[i].glyph) == Get(StripPrefix(t, n), key);
  }

  /** Last write wins: a stripped key holds the value of the LAST entry, in
      insertion order, that strips to it. */
  lemma StripLastWins(t: Dict, n: nat, i: nat)
    requires i < |t|
    requires forall j :: i < j < |t| ==> Drop(t[j].name, n) != Drop(t[i].name, n)
    ensures Get(StripPrefix(t, n), Drop(t[i].name, n)) == Some(t[i].glyph)
  {
    var key := Drop(t[i].name, n);
    StripPrefixLookup(t, n, key);
    LastStrippedToMeans(t, n, key);
    var r := LastStrippedTo(t, n, key);
    assert r.Some?;
    assert r.value == i;
  }

  /** When every name really starts with the prefix, stripping loses nothing:
      the entries keep their order and values and lose exactly the prefix. */
  lemma {:induction false} StripSharedPrefix(t: Dict, p: string)
    requires forall i :: 0 <= i < |t| ==> p <= t[i].name
    ensures |StripPrefix(t, |p|)| == |t|
    ensures forall i :: 0 <= i < |t| ==> StripPrefix(t, |p|)[i] == Entry(t[i].name[|p|..], t[i].glyph)
    decreases |t|
  {
    if |t| > 0 {
      DictInit(t);
      var init := t[..|t| - 1];
      assert forall i :: 0 <= i < |init| ==> init[i] == t[i];
      StripSharedPrefix(init, p);
      StripSharedStep(t, p);
      StrippedShape(t, p, StripPrefix(init, |p|), StripPrefix(t, |p|));
    }
  }

  /** Entries stripped one by one, the last appended after the others. */
  lemma StrippedShape(t: seq<Entry>, p: string, prev: seq<Entry>, r: seq<Entry>)
    requires |t| > 0 && |prev| == |t| - 1
    requires forall i :: 0 <= i < |t| ==> p <= t[i].name
    requires forall i :: 0 <= i < |t| - 1 ==> prev[i] == Entry(t[i].name[|p|..], t[i].glyph)
    requires r == prev + [Entry(t[|t| - 1].name[|p|..], t[|t| - 1].glyph)]
    ensures |r| == |t|
    ensures forall i :: 0 <= i < |t| ==> r[i] == Entry(t[i].name[|p|..], t[i].glyph)
  {
  }

  /** One more entry under the shared prefix lands, stripped, at the end. */
  lemma StripSharedStep(t: Dict, p: string)
    requires |t| > 0 && forall i :: 0 <= i < |t| ==> p <= t[i].name
    requires DistinctKeys(t[..|t| - 1])
    requires |StripPrefix(t[..|t| - 1], |p|)| == |t| - 1
    requires forall i :: 0 <= i < |t| - 1 ==> StripPrefix(t[..|t| - 1], |p|)[i] == Entry(t[i].name[|p|..], t[i].glyph)
    ensures StripPrefix(t, |p|) == StripPrefix(t[..|t| - 1], |p|) + [Entry(t[|t| - 1].name[|p|..], t[|t| - 1].glyph)]
  {
    var prev := StripPrefix(t[..|t| - 1], |p|);
    var last := t[|t| - 1];
    var key := Drop(last.name, |p|);
    assert key == last.name[|p|..];
    forall i | 0 <= i < |prev|
      ensures prev[i].name != key
    {
      DistinctAfterPrefix(t[i].name, last.name, p);
    }
    assert Get(prev, key).None?;
  }

  lemma DistinctAfterPrefix(a: string, b: string, p: string)
    requires p <= a && p <= b && a != b
    ensures a[|p|..] != b[|p|..]
  {
    assert a == p + a[|p|..] && b == p + b[|p|..];
  }

  /** When no name is longer than the prefix, every key strips to `""` and a
      single entry remains, carrying the last entry's value. */
  lemma {:induction false} StripCollapses(t: Dict, n: nat)
    requires |t| > 0
    requires forall i :: 0 <= i < |t| ==> |t[i].name| <= n
    ensures StripPrefix(t, n) == [Entry("", t[|t| - 1].glyph)]
    decreases |t|
  {
    DictInit(t);
    var init := t[..|t| - 1];
    assert forall i :: 0 <= i < |init| ==> init[i] == t[i];
    if |init| > 0 {
      StripCollapses(init, n);
    }
  }

  // ---------------------------------------------------------------------
  // The results of `load_css`
  // ---------------------------------------------------------------------

  /** With no icon rule the prefix is `''`; otherwise it is a prefix of
      `selector[1:]` for every icon rule, and the longest such. */
  lemma LoadCommonPrefix(rules: seq<Rule>, keepPrefix: bool, q: string)
    requires Load(rules, keepPrefix).Success?
    ensures (forall i :: 0 <= i < |rules| ==> !IsIcon(rules[i].selector)) ==>
      Load(rules, keepPrefix).value.commonPrefix == ""
    ensures forall i :: 0 <= i < |rules| && IsIcon(rules[i].selector) ==>
      Load(rules, keepPrefix).value.commonPrefix <= Tail(rules[i].selector)
    ensures
      ((exists i :: 0 <= i < |rules| && IsIcon(rules[i].selector)) &&
       (forall i :: 0 <= i < |rules| && IsIcon(rules[i].selector) ==> q <= Tail(rules[i].selector)))
      ==> q <= Load(rules, keepPrefix).value.commonPrefix
  {
    PrefixAbsentIffNoIconRule(rules);
    if Fold(rules).value.prefix.Some? {
      PrefixIsCommon(rules);
      if forall i :: 0 <= i < |rules| && IsIcon(rules[i].selector) ==> q <= Tail(rules[i].selector) {
        PrefixIsLongest(rules, q);
      }
    }
  }

  /** With exactly one icon rule the prefix is that rule's whole
      `selector[1:]`, `:before` included. */
  lemma SingleIconPrefix(rules: seq<Rule>, keepPrefix: bool, i: nat)
    requires Load(rules, keepPrefix).Success?
    requires i < |rules| && IsIcon(rules[i].selector)
    requires forall j :: 0 <= j < |rules| && j != i ==> !IsIcon(rules[j].selector)
    ensures Load(rules, keepPrefix).value.commonPrefix == Tail(rules[i].selector)
  {
    var tail := Tail(rules[i].selector);
    LoadCommonPrefix(rules, keepPrefix, tail);
  }

  /** The prefix does not depend on the order of the rules: two stylesheets
      with the same icon selectors get the same prefix. */
  lemma PrefixOrderIndependent(rules1: seq<Rule>, rules2: seq<Rule>, keep1: bool, keep2: bool)
    requires Load(rules1, keep1).Success? && Load(rules2, keep2).Success?
    requires IconSelectorsIn(rules1, rules2) && IconSelectorsIn(rules2, rules1)
    ensures Load(rules1, keep1).value.commonPrefix == Load(rules2, keep2).value.commonPrefix
  {
    IconTransfer(rules1, rules2);
    IconTransfer(rules2, rules1);
    if HasIcon(rules1) {
      CommonPrefixBelow(rules1, keep1, rules2, keep2);
      CommonPrefixBelow(rules2, keep2, rules1, keep1);
    } else {
      LoadCommonPrefix(rules1, keep1, "");
      LoadCommonPrefix(rules2, keep2, "");
    }
  }

  predicate HasIcon(rules: seq<Rule>) {
    exists i :: 0 <= i < |rules| && IsIcon(rules[i].selector)
  }

  /** Every icon selector of `rules1` also occurs in `rules2`. */
  predicate IconSelectorsIn(rules1: seq<Rule>, rules2: seq<Rule>) {
    forall i :: 0 <= i < |rules1| && IsIcon(rules1[i].selector) ==>
      exists j :: 0 <= j < |rules2| && rules2[j].selector == rules1[i].selector
  }

  lemma IconTransfer(rules1: seq<Rule>, rules2: seq<Rule>)
    requires IconSelectorsIn(rules1, rules2)
    ensures HasIcon(rules1) ==> HasIcon(rules2)
  {
    if HasIcon(rules1) {
      var i :| 0 <= i < |rules1| && IsIcon(rules1[i].selector);
      var j :| 0 <= j < |rules2| && rules2[j].selector == rules1[i].selector;
      assert IsIcon(rules2[j].selector);
    }
  }

  /** Half of the order-independence argument: the second stylesheet's prefix
      is a prefix of every icon selector of the first, so it is below the
      first's prefix. */
  lemma CommonPrefixBelow(rules1: seq<Rule>, keep1: bool, rules2: seq<Rule>, keep2: bool)
    requires Load(rules1, keep1).Success? && Load(rules2, keep2).Success?
    requires HasIcon(rules1) && IconSelectorsIn(rules1, rules2)
    ensures Load(rules2, keep2).value.commonPrefix <= Load(rules1, keep1).value.commonPrefix
  {
    var p2 := Load(rules2, keep2).value.commonPrefix;
    LoadCommonPrefix(rules2, keep2, p2);
    forall i | 0 <= i < |rules1| && IsIcon(rules1[i].selector)
      ensures p2 <= Tail(rules1[i].selector)
    {
      var j :| 0 <= j < |rules2| && rules2[j].selector == rules1[i].selector;
    }
    LoadCommonPrefix(rules1, keep1, p2);
  }

  /** Without stripping (prefix kept, or none found) the keys are exactly the
      extracted names that some rule assigns to, and each holds the value of
      its last assignment: a later rule overwrites an earlier one. */
  lemma LoadKeepsNames(rules: seq<Rule>, keepPrefix: bool, k: string)
    requires Load(rules, keepPrefix).Success?
    requires keepPrefix || Load(rules, keepPrefix).value.commonPrefix == ""
    ensures Get(Load(rules, keepPrefix).value.icons, k).Some? <==>
      exists i :: 0 <= i < |rules| && Writes(rules[i], k)
    ensures forall i :: LastWriter(rules, i, k) ==>
      Get(Load(rules, keepPrefix).value.icons, k) == WrittenValue(rules[i])
  {
    FoldLookups(rules, k);
    SortKeepsLookups(Fold(rules).value.icons, k);
  }

  /** A name's entry comes from the last rule that assigns to it. */
  lemma EntryHasLastWriter(rules: seq<Rule>, e: Entry)
    requires Fold(rules).Success? && e in Fold(rules).value.icons
    ensures exists i :: LastWriter(rules, i, e.name) && WrittenValue(rules[i]) == Some(e.glyph)
  {
    var t := Fold(rules).value.icons;
    FoldLookups(rules, e.name);
    assert Get(t, e.name) == Some(e.glyph);
    var i :| 0 <= i < |rules| && Writes(rules[i], e.name);
    LastWriterExists(rules, i, e.name);
  }

  lemma {:induction false} LastWriterExists(rules: seq<Rule>, i: nat, k: string)
    requires i < |rules| && Writes(rules[i], k)
    ensures exists j :: LastWriter(rules, j, k)
    decreases |rules| - i
  {
    if !LastWriter(rules, i, k) {
      var j :| i < j < |rules| && Writes(rules[j], k);
      LastWriterExists(rules, j, k);
    }
  }

  /** With stripping, the keys are exactly the stripped names of the assigned
      names, each holding the value the last assignment of some such name
      decoded, and there are never more entries than without stripping. */
  lemma LoadStripsPrefix(rules: seq<Rule>, k: string)
    requires Load(rules, false).Success? && Load(rules, false).value.commonPrefix != ""
    ensures Get(Load(rules, false).value.icons, k).Some? <==>
      exists i, name :: 0 <= i < |rules| && Writes(rules[i], name)
        && Drop(name, |Load(rules, false).value.commonPrefix|) == k
    ensures forall e :: e in Load(rules, false).value.icons ==>
      exists i, name :: LastWriter(rules, i, name)
        && Drop(name, |Load(rules, false).value.commonPrefix|) == e.name
        && WrittenValue(rules[i]) == Some(e.glyph)
    ensures |Load(rules, false).value.icons| <= |Load(rules, true).value.icons|
  {
    StrippedKeys(rules, k);
    forall e | e in Load(rules, false).value.icons
      ensures exists i, name :: (LastWriter(rules, i, name)
        && Drop(name, |Load(rules, false).value.commonPrefix|) == e.name
        && WrittenValue(rules[i]) == Some(e.glyph))
    {
      StrippedValue(rules, e);
    }
    StrippedCount(rules);
  }

  /** How `Load` is assembled from the rule loop, stripping and sorting. */
  lemma LoadShape(rules: seq<Rule>, keepPrefix: bool)
    requires Load(rules, keepPrefix).Success?
    ensures Fold(rules).Success?
    ensures Load(rules, keepPrefix).value.commonPrefix == Fold(rules).value.prefix.GetOr("")
    ensures !keepPrefix && Fold(rules).value.prefix.GetOr("") != "" ==>
      Load(rules, keepPrefix).value.icons ==
        SortByKey(StripPrefix(Fold(rules).value.icons, |Fold(rules).value.prefix.GetOr("")|))
    ensures keepPrefix || Fold(rules).value.prefix.GetOr("") == "" ==>
      Load(rules, keepPrefix).value.icons == SortByKey(Fold(rules).value.icons)
  {
  }

  lemma StrippedKeys(rules: seq<Rule>, k: string)
    requires Load(rules, false).Success? && Load(rules, false).value.commonPrefix != ""
    ensures Get(Load(rules, false).value.icons, k).Some? <==>
      exists i, name :: 0 <= i < |rules| && Writes(rules[i], name)
        && Drop(name, |Load(rules, false).value.commonPrefix|) == k
  {
    LoadShape(rules, false);
    var n := |Load(rules, false).value.commonPrefix|;
    SortKeepsLookups(StripPrefix(Fold(rules).value.icons, n), k);
    StrippedKeyHasWriter(rules, n, k);
    if exists i, name :: 0 <= i < |rules| && Writes(rules[i], name) && Drop(name, n) == k {
      var i, name :| 0 <= i < |rules| && Writes(rules[i], name) && Drop(name, n) == k;
      WriterHasStrippedKey(rules, n, i, name);
    }
  }

  lemma StrippedKeyHasWriter(rules: seq<Rule>, n: nat, k: string)
    requires Fold(rules).Success?
    ensures Get(StripPrefix(Fold(rules).value.icons, n), k).Some? ==>
      exists i, name :: 0 <= i < |rules| && Writes(rules[i], name) && Drop(name, n) == k
  {
    var t := Fold(rules).value.icons;
    if Get(StripPrefix(t, n), k).Some? {
      StripOrigin(t, n, k);
      var j :| 0 <= j < |t| && Drop(t[j].name, n) == k && Some(t[j].glyph) == Get(StripPrefix(t, n), k);
      EntryHasLastWriter(rules, t[j]);
    }
  }

  lemma WriterHasStrippedKey(rules: seq<Rule>, n: nat, i: nat, name: string)
    requires Fold(rules).Success? && i < |rules| && Writes(rules[i], name)
    ensures Get(StripPrefix(Fold(rules).value.icons, n), Drop(name, n)).Some?
  {
    var t := Fold(rules).value.icons;
    FoldLookups(rules, name);
    var j :| 0 <= j < |t| && t[j].name == name;
    StripKeepsKey(t, n, j);
  }

  lemma StrippedValue(rules: seq<Rule>, e: Entry)
    requires Load(rules, false).Success? && Load(rules, false).value.commonPrefix != ""
    requires e in Load(rules, false).value.icons
    ensures exists i, name :: (LastWriter(rules, i, name)
      && Drop(name, |Load(rules, false).value.commonPrefix|) == e.name
      && WrittenValue(rules[i]) == Some(e.glyph))
  {
    LoadShape(rules, false);
    var t := Fold(rules).value.icons;
    var n := |Load(rules, false).value.commonPrefix|;
    var stripped := StripPrefix(t, n);
    assert e in multiset(SortByKey(stripped));
    var j :| 0 <= j < |stripped| && stripped[j] == e;
    StripKeys(t, n);
    assert StrippedFrom(t, n, stripped[j]);
    var i0 :| 0 <= i0 < |t| && Drop(t[i0].name, n) == e.name && t[i0].glyph == e.glyph;
    EntryHasLastWriter(rules, t[i0]);
  }

  lemma StrippedCount(rules: seq<Rule>)
    requires Load(rules, false).Success?
    ensures Load(rules, true).Success?
    ensures |Load(rules, false).value.icons| <= |Load(rules, true).value.icons|
  {
    LoadShape(rules, false);
    LoadShape(rules, true);
    var t := Fold(rules).value.icons;
    SortedCount(t);
    var n := |Fold(rules).value.prefix.GetOr("")|;
    SortedCount(StripPrefix(t, n));
  }

  /** A stylesheet with a single icon rule: the prefix is the rule's whole
      `selector[1:]`, longer than any name it yields, so with stripping the
      table holds one entry, under the empty key. */
  lemma SingleIconEmptyKey(rules: seq<Rule>, i: nat)
    requires Load(rules, false).Success?
    requires i < |rules| && IsIcon(rules[i].selector) && LastContent(rules[i].declarations).Some?
    requires forall j :: 0 <= j < |rules| && j != i ==> !IsIcon(rules[j].selector)
    ensures Load(rules, false).value.commonPrefix == Tail(rules[i].selector)
    ensures |Load(rules, false).value.icons| == 1
    ensures Load(rules, false).value.icons[0].name == ""
    ensures Some(Load(rules, false).value.icons[0].glyph) == WrittenValue(rules[i])
  {
    var sel := rules[i].selector;
    SingleIconPrefix(rules, false, i);
    IconNames(sel);
    var st := Fold(rules).value;
    var t := st.icons;
    var n := |Tail(sel)|;
    FoldLookups(rules, Names(sel)[0]);
    assert Writes(rules[i], Names(sel)[0]);
    assert |t| > 0;
    forall j | 0 <= j < |t|
      ensures |t[j].name| <= n && Some(t[j].glyph) == WrittenValue(rules[i])
    {
      EntryHasLastWriter(rules, t[j]);
      var w :| LastWriter(rules, w, t[j].name) && WrittenValue(rules[w]) == Some(t[j].glyph);
      assert w == i;
    }
    StripCollapses(t, n);
    assert SortByKey([Entry("", t[|t| - 1].glyph)]) == [Entry("", t[|t| - 1].glyph)];
  }
}
