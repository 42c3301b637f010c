/** A small stylesheet in the usual icon-font form worked through `load_css`:
    two icon rules sharing the prefix `icon-`, and a plain rule that is
    skipped even though its `content` would not decode. */
module Scenario {
  import opened Results
  import opened Strings
  import opened Hex
  import opened Selectors
  import opened Content
  import opened Table
  import opened Sorting
  import opened LoadCss
  import opened LoadCssProperties

  const Home := Rule(".icon-home:before", [Declaration("content", "\"\\f101\"")])
  const User := Rule(".icon-user:before", [Declaration("content", "\"\\f102\"")])
  const Plain := Rule("a", [Declaration("content", "\"oops\"")])

  lemma HomeFacts()
    ensures IsIcon(Home.selector) && Names(Home.selector) == ["icon-home"]
    ensures DecodeContent("\"\\f101\"") == Success(0xF101)
  {
    SelectorExample("icon-home");
    SelectorSpelling();
    DecodeTypicalContent();
  }

  lemma UserFacts()
    ensures IsIcon(User.selector) && Names(User.selector) == ["icon-user"]
    ensures DecodeContent("\"\\f102\"") == Success(0xF102)
  {
    SelectorExample("icon-user");
    SelectorSpelling();
    DecodeF102();
  }

  lemma SelectorSpelling()
    ensures Home.selector == "." + "icon-home" + Before
    ensures User.selector == "." + "icon-user" + Before
  {
  }

  lemma SelectorExample(name: string)
    requires name == "icon-home" || name == "icon-user"
    ensures IsIcon("." + name + Before) && Names("." + name + Before) == [name]
  {
    assert InLine(name, 0, |name|) by {
      assert forall k :: 0 <= k < |name| ==> name[k] != '\n';
    }
    SimpleSelectorName(name);
  }

  lemma DecodeF102()
    ensures DecodeContent("\"\\f102\"") == Success(0xF102)
  {
    HexF102();
    DecodeEncodedContent(0xF102, '"', '"');
    SpellingF102();
  }

  lemma SpellingF102()
    ensures [('"' as char), '\\'] + "f102" + ['"'] == "\"\\f102\""
  {
  }

  lemma HexF102()
    ensures ToHex(0xF102) == "f102"
  {
    assert ToHex(0xF10) == "f10";
  }

  /** One turn of the rule loop on a rule naming one icon with one
      decodable `content` declaration. */
  lemma SimpleStep(st: State, rule: Rule, name: string, v: string, n: CodePoint)
    requires IsIcon(rule.selector) && Names(rule.selector) == [name]
    requires rule.declarations == [Declaration(ContentProperty, v)] && DecodeContent(v) == Success(n)
    ensures Step(st, rule) == Success(State(Put(st.icons, name, n),
      Some(if st.prefix.Some? then CommonPrefix(st.prefix.value, Tail(rule.selector)) else Tail(rule.selector))))
  {
    var decls := rule.declarations;
    assert decls[1..] == [];
    assert [name][1..] == [];
    var t := Put(st.icons, name, n);
    assert AssignDecls(t, name, []) == Success(t);
    assert AssignDecls(st.icons, name, decls) == Success(t);
    assert AssignNames(t, [], decls) == Success(t);
    assert AssignNames(st.icons, [name], decls) == Success(t);
  }

  /** The first icon rule starts the table and sets the prefix to its whole
      `selector[1:]`. */
  lemma FirstStep()
    ensures Step(State([], None), Home)
      == Success(State([Entry("icon-home", 0xF101)], Some("icon-home:before")))
  {
    HomeFacts();
    SimpleStep(State([], None), Home, "icon-home", "\"\\f101\"", 0xF101);
    assert Put([], "icon-home", 0xF101) == [Entry("icon-home", 0xF101)];
    assert Tail(Home.selector) == "icon-home:before";
  }

  /** The second icon rule adds its entry and cuts the prefix down to `icon-`. */
  lemma SecondStep()
    ensures Step(State([Entry("icon-home", 0xF101)], Some("icon-home:before")), User)
      == Success(State([Entry("icon-home", 0xF101), Entry("icon-user", 0xF102)], Some("icon-")))
  {
    var t1: Dict := [Entry("icon-home", 0xF101)];
    UserFacts();
    SimpleStep(State(t1, Some("icon-home:before")), User, "icon-user", "\"\\f102\"", 0xF102);
    PutUser();
    assert Tail(User.selector) == "icon-user:before";
    PrefixExample();
  }

  lemma PrefixExample()
    ensures CommonPrefix("icon-home:before", "icon-user:before") == "icon-"
  {
    assert "icon-home:before" == "icon-" + "home:before";
    assert "icon-user:before" == "icon-" + "user:before";
    CommonPrefixOfExtensions("icon-", "home:before", "user:before");
    assert CommonPrefix("home:before", "user:before") == [];
  }

  lemma PutUser()
    ensures Put([Entry("icon-home", 0xF101)], "icon-user", 0xF102)
      == [Entry("icon-home", 0xF101), Entry("icon-user", 0xF102)]
  {
    var t1: Dict := [Entry("icon-home", 0xF101)];
    assert Get(t1, "icon-user").None?;
  }

  /** The rule loop collects both names under their full selector names and
      folds the prefix down to `icon-`; the plain rule changes nothing. */
  lemma FoldExample()
    ensures Fold([Home, User, Plain])
      == Success(State([Entry("icon-home", 0xF101), Entry("icon-user", 0xF102)], Some("icon-")))
  {
    Prefixes();
    var s1 := State([Entry("icon-home", 0xF101)], Some("icon-home:before"));
    var s2 := State([Entry("icon-home", 0xF101), Entry("icon-user", 0xF102)], Some("icon-"));
    assert Fold([]) == Success(State([], None));
    assert Fold([Home]) == Success(s1) by {
      FirstStep();
    }
    assert Fold([Home, User]) == Success(s2) by {
      SecondStep();
    }
    assert Step(s2, Plain) == Success(s2) by {
      assert !IsIcon(Plain.selector);
    }
  }

  lemma Prefixes()
    ensures [Home, User, Plain][..2] == [Home, User]
    ensures [Home, User][..1] == [Home]
    ensures [Home][..0] == []
  {
  }

  /** With the prefix stripped, the table is `home` and `user` in order. */
  lemma LoadExample()
    ensures Load([Home, User, Plain], false)
      == Success(IconTable([Entry("home", 0xF101), Entry("user", 0xF102)], "icon-"))
  {
    FoldExample();
    StripExample();
    SortExample();
  }

  lemma StripExample()
    ensures StripPrefix([Entry("icon-home", 0xF101), Entry("icon-user", 0xF102)], 5)
      == [Entry("home", 0xF101), Entry("user", 0xF102)]
  {
    var t: Dict := [Entry("icon-home", 0xF101), Entry("icon-user", 0xF102)];
    NameFacts();
    StripSharedPrefix(t, "icon-");
    var r := StripPrefix(t, 5);
    assert r[0] == Entry("home", 0xF101) && r[1] == Entry("user", 0xF102);
  }

  lemma NameFacts()
    ensures "icon-" <= "icon-home" && "icon-home"[5..] == "home"
    ensures "icon-" <= "icon-user" && "icon-user"[5..] == "user"
  {
  }

  lemma SortExample()
    ensures SortByKey([Entry("home", 0xF101), Entry("user", 0xF102)])
      == [Entry("home", 0xF101), Entry("user", 0xF102)]
  {
    var stripped: Dict := [Entry("home", 0xF101), Entry("user", 0xF102)];
    assert Less("home", "user");
    SortKeepsSorted(stripped);
  }
}
