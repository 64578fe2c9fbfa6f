/**
  `ReflectedARIAAttributes.defineRoleListProperty` and the two properties it
  installs: `roleList`, whose getter re-parses the live `role` attribute when
  it differs from the cached string, and `role`, which reads the list's string
  and writes through `update`. The code is the same in both revisions.
*/
module RoleProperty {
  import opened Wrappers
  import opened Tokens
  import opened Host

  /** The list the `roleList` getter hands back, given the cached string, the
      live attribute and the list's current tokens. */
  function AfterGet(cached: Option<string>, live: Option<string>, tokens: seq<string>): seq<string> {
    if cached == live then tokens else Parse(live)
  }

  /** What the first read of `element.roleList` in `attachRole` leaves in the
      list: a fresh list parsed from the attribute when the property is not
      defined yet, and otherwise whatever the getter yields. */
  ghost function TokensAfterProbe(e: Element): seq<string>
    reads e, e.roleList
  {
    var live := Lookup(e.attrs, "role");
    if e.roleList == null then Parse(live) else AfterGet(e.cachedRole, live, e.roleList.tokens)
  }

  /** The `role` attribute after that first read: unchanged when the getter
      found it equal to the cached value, and otherwise the serialisation of
      the tokens the definition or the re-parse produced. */
  ghost function LiveAfterProbe(e: Element): Option<string>
    reads e, e.roleList
  {
    var live := Lookup(e.attrs, "role");
    if e.roleList != null && e.cachedRole == live then live else Some(Joined(TokensAfterProbe(e)))
  }

  /** The tokens after `element.roleList.add(role)` and then
      `element.setAttribute("role", element.roleList)`, each read of
      `roleList` going through the getter, from the cached value, the live
      attribute and the tokens before. */
  function TokensAfterAdd(cached: Option<string>, live: Option<string>, tokens: seq<string>, role: string): seq<string> {
    var added := AddToken(AfterGet(cached, live, tokens), role);
    AfterGet(cached, Some(Joined(added)), added)
  }

  /** `defineRoleListProperty(element)`: reads `role`, builds the list from it
      (which writes the canonical string back) and keeps the raw value read. */
  method DefineRoleListProperty(e: Element) returns (l: RoleList)
    requires e.roleList == null
    modifies e
    ensures fresh(l) && e.roleList == l && l.element == e && e.Valid()
    ensures e.cachedRole == Lookup(old(e.attrs), "role")
    ensures l.tokens == Parse(Lookup(old(e.attrs), "role"))
    ensures e.attrs == old(e.attrs)["role" := l.str]
    ensures e.props == old(e.props)
  {
    var attr := Lookup(e.attrs, "role");
    l := new RoleList(attr, e);
    e.cachedRole := attr;
    e.roleList := l;
  }

  /** The `roleList` getter. The cached string is the one read when the
      property was defined and is never refreshed. */
  method RoleListGet(e: Element) returns (l: RoleList)
    requires e.roleList != null && e.Valid()
    modifies e.roleList, e`attrs
    ensures l == e.roleList && e.Valid()
    ensures old(e.cachedRole) == old(Lookup(e.attrs, "role")) ==>
      l.tokens == old(e.roleList.tokens) && l.str == old(e.roleList.str) && e.attrs == old(e.attrs)
    ensures old(e.cachedRole) != old(Lookup(e.attrs, "role")) ==>
      l.tokens == Parse(old(Lookup(e.attrs, "role"))) && l.str == Canon(old(Lookup(e.attrs, "role"))) &&
      e.attrs == old(e.attrs)["role" := l.str]
  {
    var attr := Lookup(e.attrs, "role");
    l := e.roleList;
    if e.cachedRole == attr {
      return;
    }
    l.Update(attr);
  }

  /** The getter leaves a list alone when the live attribute is the cached
      value or the list's own string, as long as its tokens are the kind the
      parser produces: whichever branch it takes, the tokens it yields are the
      ones it had. */
  lemma SyncedGetKeeps(cached: Option<string>, live: Option<string>, before: seq<string>, after: seq<string>)
    requires AllWellFormed(before) && Distinct(before)
    requires cached == live || live == Some(Joined(before))
    requires cached == live ==> after == before
    requires cached != live ==> after == Parse(live)
    ensures after == before
  {
    if cached != live {
      ParseJoined(before);
    }
  }

  /** The `role` getter: the list's string, without consulting the attribute. */
  method RoleGet(e: Element) returns (s: string)
    requires e.roleList != null && e.Valid()
    ensures s == Joined(e.roleList.tokens)
  {
    s := e.roleList.ToString();
  }

  /** The `role` setter: re-parses through `update`. */
  method RoleSet(e: Element, value: Option<string>)
    requires e.roleList != null && e.Valid()
    modifies e.roleList, e`attrs
    ensures e.Valid()
    ensures e.roleList.tokens == Parse(value)
    ensures e.attrs == old(e.attrs)["role" := Canon(value)]
  {
    e.roleList.Update(value);
  }

  /** The first two steps of `attachRole`: evaluating `typeof
      element.roleList` runs the getter when the property exists, and the
      properties are defined when it does not. */
  method EnsureRoleList(e: Element)
    requires e.Valid()
    modifies e, e.roleList
    ensures e.Valid() && e.roleList != null
    ensures old(e.roleList) != null ==> e.roleList == old(e.roleList)
    ensures old(e.roleList) == null ==> fresh(e.roleList)
    ensures e.roleList.tokens == old(TokensAfterProbe(e))
    ensures e.props == old(e.props)
    ensures e.cachedRole == Lookup(e.attrs, "role") || Lookup(e.attrs, "role") == Some(e.roleList.str)
    ensures e.cachedRole == if old(e.roleList) == null then Lookup(old(e.attrs), "role") else old(e.cachedRole)
    ensures e.attrs == if old(e.roleList) != null && old(e.cachedRole) == old(Lookup(e.attrs, "role"))
      then old(e.attrs) else old(e.attrs)["role" := e.roleList.str]
    ensures Lookup(e.attrs, "role") == old(LiveAfterProbe(e))
  {
    if e.roleList == null {
      var _ := DefineRoleListProperty(e);
    } else {
      var _ := RoleListGet(e);
    }
  }

  /** The role-list half of `attachRole` for a role the table knows, the same
      in both revisions: the properties are defined or the getter runs, then
      the role is added and `role` is written back. (For an unknown role only
      the first step runs, which is `EnsureRoleList`.) */
  method AttachRoleList(e: Element, role: string)
    requires e.Valid()
    modifies e, e.roleList
    ensures e.Valid() && e.roleList != null
    ensures old(e.roleList) != null ==> e.roleList == old(e.roleList)
    ensures e.props == old(e.props)
    ensures old(e.roleList) == null ==> fresh(e.roleList)
    ensures e.cachedRole == if old(e.roleList) == null then Lookup(old(e.attrs), "role") else old(e.cachedRole)
    ensures e.attrs == old(e.attrs)["role" := e.roleList.str]
    ensures e.roleList.tokens == TokensAfterAdd(e.cachedRole, old(LiveAfterProbe(e)), old(TokensAfterProbe(e)), role)
    ensures WellFormed(role) ==> role in e.roleList.tokens
    ensures WellFormed(role) && AllWellFormed(old(TokensAfterProbe(e))) ==>
      e.roleList.tokens == AddToken(old(TokensAfterProbe(e)), role)
  {
    ghost var a0 := e.attrs;
    ghost var probe := TokensAfterProbe(e);
    ghost var live1 := LiveAfterProbe(e);
    ghost var wrote := !(e.roleList != null && e.cachedRole == Lookup(e.attrs, "role"));
    EnsureRoleList(e);
    ghost var x1 := e.roleList.str;
    ghost var c1 := e.cachedRole;
    assert c1 == live1 || live1 == Some(Joined(probe));
    AddRoleToken(e, role);
    if wrote {
      Overwrite(a0, "role", x1, e.roleList.str);
    }
    if WellFormed(role) {
      RoleInTokensAfterAdd(c1, live1, probe, role);
      if AllWellFormed(probe) {
        TokensAfterAddSynced(c1, live1, probe, role);
      }
    }
  }

  /** Whatever the list held and whatever the getter re-reads, a well-formed
      role is among the tokens after `add` and the write-back. */
  lemma RoleInTokensAfterAdd(cached: Option<string>, live: Option<string>, ts: seq<string>, role: string)
    requires WellFormed(role)
    ensures role in TokensAfterAdd(cached, live, ts, role)
  {
    var added := AddToken(AfterGet(cached, live, ts), role);
    if cached != Some(Joined(added)) {
      JoinedKeepsToken(added, role);
    }
  }

  /** When the list agrees with the attribute (or the getter will not look)
      and holds parser-shaped tokens, both reads of the getter keep the list,
      so adding a well-formed role is exactly `Set.add`. */
  lemma TokensAfterAddSynced(cached: Option<string>, live: Option<string>, ts: seq<string>, role: string)
    requires AllWellFormed(ts) && Distinct(ts) && WellFormed(role)
    requires cached == live || live == Some(Joined(ts))
    ensures TokensAfterAdd(cached, live, ts, role) == AddToken(ts, role)
  {
    SyncedGetKeeps(cached, live, ts, AfterGet(cached, live, ts));
    var added := AddToken(ts, role);
    AddTokenKeeps(ts, role);
    AddTokenWellFormed(ts, role);
    SyncedGetKeeps(cached, Some(Joined(added)), added, AfterGet(cached, Some(Joined(added)), added));
  }

  /** `element.roleList.add(role)` followed by
      `element.setAttribute("role", element.roleList)`, each read of
      `roleList` going through the getter. When the list agrees with the
      attribute (or the getter would not look) and holds parser-shaped
      tokens, the result is the list with `role` added. */
  method AddRoleToken(e: Element, role: string)
    requires e.Valid() && e.roleList != null
    modifies e.roleList, e`attrs
    ensures e.Valid() && e.roleList == old(e.roleList)
    ensures Lookup(e.attrs, "role") == Some(e.roleList.str)
    ensures e.attrs == old(e.attrs)["role" := e.roleList.str]
    ensures e.cachedRole == old(e.cachedRole)
    ensures e.roleList.tokens == old(TokensAfterAdd(e.cachedRole, Lookup(e.attrs, "role"), e.roleList.tokens, role))
    ensures old(e.cachedRole == Lookup(e.attrs, "role") || Lookup(e.attrs, "role") == Some(e.roleList.str))
      && old(AllWellFormed(e.roleList.tokens)) && WellFormed(role)
      ==> e.roleList.tokens == AddToken(old(e.roleList.tokens), role)
  {
    ghost var before := e.roleList.tokens;
    ghost var a0 := e.attrs;
    ghost var keep := (e.cachedRole == Lookup(e.attrs, "role") || Lookup(e.attrs, "role") == Some(e.roleList.str))
      && AllWellFormed(before) && WellFormed(role);
    AddThroughGetter(e, role);
    ghost var x := e.roleList.str;
    if keep {
      AddTokenWellFormed(before, role);
    }
    WriteRoleAttribute(e);
    Overwrite(a0, "role", x, e.roleList.str);
  }

  /** `element.roleList.add(role)`: the getter runs, then `add` writes the
      new string to `role`. */
  method AddThroughGetter(e: Element, role: string)
    requires e.Valid() && e.roleList != null
    modifies e.roleList, e`attrs
    ensures e.Valid() && e.roleList == old(e.roleList)
    ensures e.attrs == old(e.attrs)["role" := e.roleList.str]
    ensures e.cachedRole == old(e.cachedRole)
    ensures e.roleList.tokens == AddToken(old(AfterGet(e.cachedRole, Lookup(e.attrs, "role"), e.roleList.tokens)), role)
    ensures role in e.roleList.tokens
    ensures old(e.cachedRole == Lookup(e.attrs, "role") || Lookup(e.attrs, "role") == Some(e.roleList.str))
      && old(AllWellFormed(e.roleList.tokens))
      ==> e.roleList.tokens == AddToken(old(e.roleList.tokens), role)
  {
    ghost var before := e.roleList.tokens;
    ghost var cached := e.cachedRole;
    ghost var live := Lookup(e.attrs, "role");
    ghost var a0 := e.attrs;
    var l := RoleListGet(e);
    ghost var x := l.str;
    ghost var got := l.tokens;
    assert got == AfterGet(cached, live, before);
    if (cached == live || live == Some(Joined(before))) && AllWellFormed(before) {
      SyncedGetKeeps(cached, live, before, got);
    }
    l.Add(role);
    assert l.tokens == AddToken(got, role);
    if cached != live {
      Overwrite(a0, "role", x, l.str);
    }
  }

  /** `element.setAttribute("role", element.roleList)`: the getter runs, then
      the list's string is written. A list that matches the attribute is
      left as it is. */
  method WriteRoleAttribute(e: Element)
    requires e.Valid() && e.roleList != null
    modifies e.roleList, e`attrs
    ensures e.Valid() && e.roleList == old(e.roleList)
    ensures e.attrs == old(e.attrs)["role" := e.roleList.str]
    ensures e.cachedRole == old(e.cachedRole)
    ensures e.roleList.tokens == old(AfterGet(e.cachedRole, Lookup(e.attrs, "role"), e.roleList.tokens))
    ensures old(e.cachedRole == Lookup(e.attrs, "role") || Lookup(e.attrs, "role") == Some(e.roleList.str))
      && old(AllWellFormed(e.roleList.tokens))
      ==> e.roleList.tokens == old(e.roleList.tokens)
  {
    ghost var before := e.roleList.tokens;
    ghost var cached := e.cachedRole;
    ghost var live := Lookup(e.attrs, "role");
    ghost var a0 := e.attrs;
    var l := RoleListGet(e);
    ghost var x := l.str;
    if (cached == live || live == Some(Joined(before))) && AllWellFormed(before) {
      SyncedGetKeeps(cached, live, before, l.tokens);
    }
    var s := l.ToString();
    if cached != live {
      Overwrite(a0, "role", x, s);
    }
    e.attrs := e.attrs["role" := s];
  }

  /** The `roleList` getter as evidently intended: the list is re-parsed
      whenever the live attribute is not the list's own string, so the list
      and the attribute agree after every read. */
  method RoleListGetSynced(e: Element) returns (l: RoleList)
    requires e.roleList != null && e.Valid()
    modifies e.roleList, e`attrs
    ensures l == e.roleList && e.Valid()
    ensures Lookup(e.attrs, "role") == Some(l.str)
    ensures old(Lookup(e.attrs, "role")) == Some(old(e.roleList.str)) ==>
      l.tokens == old(e.roleList.tokens) && e.attrs == old(e.attrs)
    ensures old(Lookup(e.attrs, "role")) != Some(old(e.roleList.str)) ==>
      l.tokens == Parse(old(Lookup(e.attrs, "role"))) && e.attrs == old(e.attrs)["role" := l.str]
  {
    var attr := Lookup(e.attrs, "role");
    l := e.roleList;
    if attr == Some(l.str) {
      return;
    }
    l.Update(attr);
  }

  /** An element with no `role` attribute: the list gains `x`, then the
      attribute is removed from outside. The getter as written finds the live
      value (absent) equal to the one it cached (absent) and returns the stale
      list, so `role` still reads `x`. */
  method StaleRoleListScenario(x: string) returns (live: Option<string>, listed: string)
    ensures live == None && listed == x
  {
    var e := ListWithOneRole(x);
    e.attrs := e.attrs - {"role"};
    assert Lookup(e.attrs, "role") == None;
    var l := RoleListGet(e);
    live := Lookup(e.attrs, "role");
    listed := RoleGet(e);
  }

  /** The first steps of the scenario: a fresh element without `role`, its
      list read once through the getter as written, then `add(x)`. */
  method ListWithOneRole(x: string) returns (e: Element)
    ensures fresh(e) && e.Valid() && e.roleList != null
    ensures e.cachedRole == None && e.roleList.tokens == [x] && e.roleList.str == x
  {
    e := ElementWithEmptyList();
    EmptyListFacts(x);
    var l := RoleListGet(e);
    assert l.tokens == [];
    l.Add(x);
    assert l.tokens == AddToken([], x);
  }

  /** A fresh element without `role` after `defineRoleListProperty`: the
      empty list, the absent value cached, and "" written to `role`. */
  method ElementWithEmptyList() returns (e: Element)
    ensures fresh(e) && e.Valid() && e.roleList != null && fresh(e.roleList)
    ensures e.cachedRole == None && e.roleList.tokens == [] && e.attrs == map["role" := ""]
  {
    e := new Element(map[], Present);
    var l := DefineRoleListProperty(e);
    EmptyListFacts("");
  }

  /** An absent or empty attribute parses to no tokens, and a list of one
      token serialises to that token. */
  lemma EmptyListFacts(x: string)
    ensures Parse(None) == [] && Parse(Some("")) == [] && Joined([]) == ""
    ensures AddToken([], x) == [x] && Joined([x]) == x
  {
    assert [x][..0] == [];
  }

  /** The same sequence read through the corrected getter: the list follows
      the attribute and becomes empty. */
  method SyncedRoleListScenario(x: string) returns (live: Option<string>, listed: string)
    ensures live == Some("") && listed == ""
  {
    var e := new Element(map[], Present);
    var l := DefineRoleListProperty(e);
    l := RoleListGetSynced(e);
    l.Add(x);
    e.attrs := e.attrs - {"role"};
    l := RoleListGetSynced(e);
    live := Lookup(e.attrs, "role");
    listed := RoleGet(e);
  }
}
