/** `IconFont.load_css` (icon_font.py:26-75) on an already parsed stylesheet:
    pick the icon rules, fold the common prefix over them, decode their
    `content` values into a dict, optionally strip the prefix from every
    key, and sort the result by key. */
module LoadCss {
  import opened Results
  import opened Strings
  import opened Selectors
  import opened Content
  import opened Table
  import opened Sorting

  /** A declaration as the stylesheet parser yields it: a property name,
      already in lower case, and its value serialised back to text. */
  datatype Declaration = Declaration(name: string, value: string)

  /** A ruleset: its selector serialised back to text and its declarations. */
  datatype Rule = Rule(selector: string, declarations: seq<Declaration>)

  /** The loop state of `load_css`: the icon dict so far and `common_prefix`,
      which is `None` until the first icon rule. */
  datatype State = State(icons: Dict, prefix: Option<string>)

  /** What `load_css` returns: the sorted icon entries and the common prefix. */
  datatype IconTable = IconTable(icons: seq<Entry>, commonPrefix: string)

  const ContentProperty: string := "content"

  /** `selector[1:]`: the selector without its leading dot. */
  function Tail(selector: string): string {
    Drop(selector, 1)
  }

  /** The value of the last `content` declaration, the one whose assignment
      survives the declaration loop. */
  function LastContent(decls: seq<Declaration>): (r: Option<string>)
    ensures r.Some? <==> exists i :: 0 <= i < |decls| && decls[i].name == ContentProperty
    ensures r.Some? ==>
      exists i :: 0 <= i < |decls| && decls[i].name == ContentProperty && decls[i].value == r.value
        && forall j :: i < j < |decls| ==> decls[j].name != ContentProperty
  {
    if |decls| == 0 then None
    else
      var rest := LastContent(decls[1..]);
      assert forall i :: 1 <= i < |decls| ==> decls[i] == decls[1..][i - 1];
      match rest
      case Some(v) => Some(v)
      case None => if decls[0].name == ContentProperty then Some(decls[0].value) else None
  }

  /** Every `content` declaration of the list decodes. */
  predicate ContentDecodes(decls: seq<Declaration>) {
    forall i :: 0 <= i < |decls| && decls[i].name == ContentProperty ==> DecodeContent(decls[i].value).Success?
  }

  /** What the declaration loop leaves under a name it assigns to: the
      decoded last `content` value, or the old entry if there is none. */
  function Assigned(icons: Dict, name: string, decls: seq<Declaration>): Option<CodePoint> {
    match LastContent(decls)
    case Some(v) => DecodeContent(v).ToOption()
    case None => Get(icons, name)
  }

  /** The inner loop (icon_font.py:56-62): every `content` declaration, in
      order, stores its decoded value under `name`; the first value that does
      not decode aborts the load. */
  function AssignDecls(icons: Dict, name: string, decls: seq<Declaration>): (r: Result<Dict, LoadError>)
    ensures r.Success? <==> ContentDecodes(decls)
    ensures r.Success? ==> forall k :: k != name ==> Get(r.value, k) == Get(icons, k)
    ensures r.Success? ==> Get(r.value, name) == Assigned(icons, name, decls)
    decreases |decls|
  {
    if |decls| == 0 then Success(icons)
    else
      ContentDecodesCons(decls);
      if decls[0].name == ContentProperty then
        match DecodeContent(decls[0].value)
        case Failure(e) => Failure(e)
        case Success(v) =>
          AssignedAfterContent(icons, name, decls, v);
          AssignDecls(Put(icons, name, v), name, decls[1..])
      else
        AssignedAfterOther(icons, name, decls);
        AssignDecls(icons, name, decls[1..])
  }

  lemma ContentDecodesCons(decls: seq<Declaration>)
    requires |decls| > 0
    ensures ContentDecodes(decls) <==>
      (decls[0].name == ContentProperty ==> DecodeContent(decls[0].value).Success?) && ContentDecodes(decls[1..])
  {
    assert forall i :: 1 <= i < |decls| ==> decls[i] == decls[1..][i - 1];
  }

  /** Storing the first declaration's value and then running the rest assigns
      what running all of them assigns. */
  lemma AssignedAfterContent(icons: Dict, name: string, decls: seq<Declaration>, v: CodePoint)
    requires |decls| > 0 && decls[0].name == ContentProperty && DecodeContent(decls[0].value) == Success(v)
    ensures Assigned(Put(icons, name, v), name, decls[1..]) == Assigned(icons, name, decls)
  {
  }

  lemma AssignedAfterOther(icons: Dict, name: string, decls: seq<Declaration>)
    requires |decls| > 0 && decls[0].name != ContentProperty
    ensures Assigned(icons, name, decls[1..]) == Assigned(icons, name, decls)
  {
  }

  /** The loop over the selector's matches (icon_font.py:54-62): the
      declaration loop once per extracted name. */
  function AssignNames(icons: Dict, names: seq<string>, decls: seq<Declaration>): (r: Result<Dict, LoadError>)
    ensures r.Success? <==> |names| == 0 || ContentDecodes(decls)
    ensures r.Success? ==>
      forall k :: Get(r.value, k) ==
        (if k in names && LastContent(decls).Some? then DecodeContent(LastContent(decls).value).ToOption()
         else Get(icons, k))
    decreases |names|
  {
    if |names| == 0 then Success(icons)
    else match AssignDecls(icons, names[0], decls)
      case Failure(e) => Failure(e)
      case Success(d) =>
        var r := AssignNames(d, names[1..], decls);
        assert forall k :: k in names <==> k == names[0] || k in names[1..];
        r
  }

  /** One turn of the rule loop (icon_font.py:40-62). A rule whose selector is
      not an icon selector is skipped; otherwise the common prefix absorbs
      `selector[1:]` and each extracted name is assigned its content. */
  function Step(st: State, rule: Rule): Result<State, LoadError> {
    if !IsIcon(rule.selector) then Success(st)
    else
      var tail := Tail(rule.selector);
      var prefix := match st.prefix
        case None => tail
        case Some(p) => CommonPrefix(p, tail);
      match AssignNames(st.icons, Names(rule.selector), rule.declarations)
      case Failure(e) => Failure(e)
      case Success(icons) => Success(State(icons, Some(prefix)))
  }

  /** The rule loop over the whole stylesheet, in order. */
  function Fold(rules: seq<Rule>): Result<State, LoadError>
    decreases |rules|
  {
    if |rules| == 0 then Success(State([], None))
    else match Fold(rules[..|rules| - 1])
      case Failure(e) => Failure(e)
      case Success(st) => Step(st, rules[|rules| - 1])
  }

  /** Prefix removal (icon_font.py:67-71): every entry, in insertion order,
      is stored again under `name[n:]`, so a later entry overwrites an
      earlier one whose stripped key collides with it. */
  function StripPrefix(t: Dict, n: nat): (r: Dict)
    ensures |r| <= |t|
    decreases |t|
  {
    if |t| == 0 then []
    else
      var last := t[|t| - 1];
      DictInit(t);
      Put(StripPrefix(t[..|t| - 1], n), Drop(last.name, n), last.glyph)
  }

  /** `load_css` on a parsed stylesheet: the table sorted by key and the
      common prefix (`''` when there was no icon rule). */
  function Load(rules: seq<Rule>, keepPrefix: bool): (r: Result<IconTable, LoadError>)
    ensures r.Success? <==>
      forall i :: 0 <= i < |rules| && IsIcon(rules[i].selector) ==> ContentDecodes(rules[i].declarations)
    ensures r.Success? ==> StrictlySorted(r.value.icons)
  {
    FoldSucceedsIff(rules);
    match Fold(rules)
    case Failure(e) => Failure(e)
    case Success(st) =>
      var prefix := st.prefix.GetOr("");
      var icons := if !keepPrefix && |prefix| > 0 then StripPrefix(st.icons, |prefix|) else st.icons;
      Success(IconTable(SortByKey(icons), prefix))
  }

  /** The load fails exactly when some icon rule carries a `content` value
      that does not decode; other rules' declarations are never read. */
  lemma {:induction false} FoldSucceedsIff(rules: seq<Rule>)
    ensures Fold(rules).Success? <==>
      forall i :: 0 <= i < |rules| && IsIcon(rules[i].selector) ==> ContentDecodes(rules[i].declarations)
    decreases |rules|
  {
    if |rules| > 0 {
      var init, last := rules[..|rules| - 1], rules[|rules| - 1];
      FoldSucceedsIff(init);
      assert forall i :: 0 <= i < |init| ==> init[i] == rules[i];
      if Fold(init).Success? {
        StepSucceedsIff(Fold(init).value, last);
      }
    }
  }

  lemma StepSucceedsIff(st: State, rule: Rule)
    ensures Step(st, rule).Success? <==> (IsIcon(rule.selector) ==> ContentDecodes(rule.declarations))
  {
    if IsIcon(rule.selector) {
      IconNames(rule.selector);
    }
  }
}
