/**
  The earlier revision of `ReflectedARIAAttributes` (src/): the same role
  list, role properties and `attachRole` walk, but a two-entry attribute table
  whose entries carry their own property name, `"false"` default, getter and
  setter, an `attachAttributes` that writes the default to every instance,
  and `defineAll`.
*/
module SrcFacade {
  import opened Wrappers
  import opened Js
  import opened Tokens
  import opened Host
  import opened Tables
  import opened RoleProperty

  // ---------------------------------------------------------------------
  // Configuration tables

  const CommonAttributes: seq<string> := [
    "aria-atomic", "aria-busy", "aria-controls", "aria-describedby",
    "aria-disabled", "aria-dropeffect", "aria-flowto", "aria-grabbed",
    "aria-haspopup", "aria-hidden", "aria-invalid", "aria-label",
    "aria-labelledby", "aria-live", "aria-owns", "aria-relevant"
  ]

  /** The roles of this revision; `input` names a `widget` superclass that the
      table does not define, so its walk stops at `input`. */
  const Roles: RoleMap := map[
    "command" := RoleDesc(None, CommonAttributes),
    "input" := RoleDesc(Some("widget"), CommonAttributes),
    "button" := RoleDesc(Some("command"), ["aria-expanded", "aria-pressed"]),
    "checkbox" := RoleDesc(Some("input"), ["aria-checked"])
  ]

  const Rank: map<string, nat> := map["command" := 0, "input" := 0, "button" := 1, "checkbox" := 1]

  /** An attribute entry: the property it is reflected as and the value
      written to instances; its getter and setter are `Read` and `Written`. */
  datatype AttrDesc = AttrDesc(propName: string, default: string)

  const Attributes: map<string, AttrDesc> := map[
    "aria-pressed" := AttrDesc("ariaPressed", "false"),
    "aria-disabled" := AttrDesc("ariaDisabled", "false")
  ]

  /** `Object.keys(this.attributes)`, in definition order. */
  const AttributeOrder: seq<string> := ["aria-pressed", "aria-disabled"]

  lemma RolesRanked()
    ensures Ranked(Roles, Rank)
  {
  }

  lemma RoleNamesWellFormed()
    ensures forall r :: r in Roles ==> WellFormed(r)
  {
    LowerWordWellFormed("command");
    LowerWordWellFormed("input");
    LowerWordWellFormed("button");
    LowerWordWellFormed("checkbox");
    forall r | r in Roles ensures WellFormed(r) {
      assert r in {"command", "input", "button", "checkbox"};
    }
  }

  lemma RoleNameWellFormed(role: string)
    requires role in Roles
    ensures WellFormed(role)
  {
    RoleNamesWellFormed();
  }

  /** `Object.keys` lists exactly the table's names, once each. */
  lemma AttributeOrderIsKeys()
    ensures forall n :: n in AttributeOrder <==> n in Attributes
    ensures Distinct(AttributeOrder)
  {
  }

  // ---------------------------------------------------------------------
  // The accessors of the attribute table

  /** The table's getter: `getAttribute(name) === "true"`, which is `false`
      for an absent attribute (`null`). */
  function Read(attrs: map<string, string>, name: string): (r: JsValue)
    ensures r.Bool? && (r.b <==> name in attrs && attrs[name] == "true")
  {
    Bool(Lookup(attrs, name) == Some("true"))
  }

  /** The attribute map after the table's setter:
      `setAttribute(name, !!value)`. */
  function Written(attrs: map<string, string>, name: string, value: JsValue): (r: map<string, string>)
    ensures r.Keys == attrs.Keys + {name} && (r[name] == "true" <==> Truthy(value)) && (r[name] == "true" || r[name] == "false")
    ensures forall k :: k in attrs && k != name ==> r[k] == attrs[k]
  {
    attrs[name := ToString(Bool(Truthy(value)))]
  }

  /** Assigning to a reflected property runs the table's setter. */
  method SetProperty(e: Element, prop: string, value: JsValue)
    requires prop in e.props && e.props[prop].SrcAccessor?
    modifies e`attrs
    ensures e.attrs == Written(old(e.attrs), e.props[prop].attr, value)
  {
    var name := e.props[prop].attr;
    e.attrs := e.attrs[name := if Truthy(value) then "true" else "false"];
  }

  /** Writing any value stores `"true"` or `"false"` and reading it back gives
      the value's truthiness; no other attribute changes. */
  lemma ReadAfterWrite(attrs: map<string, string>, name: string, value: JsValue)
    ensures var w := Written(attrs, name, value);
      w[name] == (if Truthy(value) then "true" else "false")
      && Read(w, name) == Bool(Truthy(value))
      && forall other :: other != name ==> Lookup(w, other) == Lookup(attrs, other)
  {
  }

  /** An attribute reads `true` exactly when its value is the string `"true"`. */
  lemma ReadIsTrueString(attrs: map<string, string>, name: string)
    ensures Read(attrs, name) == Bool(true) <==> name in attrs && attrs[name] == "true"
    ensures name !in attrs ==> Read(attrs, name) == Bool(false)
  {
  }

  // ---------------------------------------------------------------------
  // attachAttributes

  /** `!element.attributes`, with a throwing probe counted as a prototype. */
  predicate IsPrototype(probe: Probe) {
    probe != Present
  }

  datatype Installed = Installed(props: map<string, Accessor>, attrs: map<string, string>, error: Option<string>)

  /** The effect of `attachAttributes(element, names)`: each known name, in
      order, (re)defines its property and, on an instance, writes its default;
      the first unknown name throws. Redefining a property with the same
      getter and setter is allowed, so repeats do not throw. */
  function Install(props: map<string, Accessor>, attrs: map<string, string>, prototype: bool, names: seq<string>): (r: Installed)
    ensures props.Keys <= r.props.Keys && attrs.Keys <= r.attrs.Keys
    ensures prototype ==> r.attrs == attrs
    ensures r.error.Some? ==> exists i :: 0 <= i < |names| && names[i] !in Attributes && r.error == Some(UnknownAttribute(names[i]))
    decreases |names|
  {
    if names == [] then Installed(props, attrs, None)
    else if names[0] !in Attributes then Installed(props, attrs, Some(UnknownAttribute(names[0])))
    else
      var d := Attributes[names[0]];
      Install(props[d.propName := SrcAccessor(names[0])],
              if prototype then attrs else attrs[names[0] := d.default],
              prototype, names[1..])
  }

  /** It throws exactly when a name is missing from the table, naming the
      first such name. */
  lemma {:induction false} InstallError(props: map<string, Accessor>, attrs: map<string, string>, prototype: bool, names: seq<string>)
    ensures var k := KnownPrefix(Attributes.Keys, names);
      Install(props, attrs, prototype, names).error == if k == |names| then None else Some(UnknownAttribute(names[k]))
    decreases |names|
  {
    if names != [] && names[0] in Attributes {
      var d := Attributes[names[0]];
      InstallError(props[d.propName := SrcAccessor(names[0])],
                   if prototype then attrs else attrs[names[0] := d.default], prototype, names[1..]);
    }
  }

  /** A prototype's attributes are never written. */
  lemma {:induction false} InstallPrototypeAttrs(props: map<string, Accessor>, attrs: map<string, string>, names: seq<string>)
    ensures Install(props, attrs, true, names).attrs == attrs
    decreases |names|
  {
    if names != [] && names[0] in Attributes {
      InstallPrototypeAttrs(props[Attributes[names[0]].propName := SrcAccessor(names[0])], attrs, names[1..]);
    }
  }

  /** On an instance, every name processed before the first unknown one ends
      up set to `"false"`, whatever it held before, and no other attribute
      changes. */
  lemma {:induction false} InstallInstanceAttrs(props: map<string, Accessor>, attrs: map<string, string>, names: seq<string>)
    ensures var k := KnownPrefix(Attributes.Keys, names);
      var r := Install(props, attrs, false, names).attrs;
      (forall i :: 0 <= i < k ==> names[i] in r && r[names[i]] == "false")
      && (forall a :: a !in names[..k] ==> Lookup(r, a) == Lookup(attrs, a))
    decreases |names|
  {
    if names != [] && names[0] in Attributes {
      var n := names[0];
      var next := attrs[n := Attributes[n].default];
      var tailProps := props[Attributes[n].propName := SrcAccessor(n)];
      InstallInstanceAttrs(tailProps, next, names[1..]);
      var k := KnownPrefix(Attributes.Keys, names);
      var r := Install(props, attrs, false, names).attrs;
      assert r == Install(tailProps, next, false, names[1..]).attrs;
      assert names[..k] == [n] + names[1..][..k - 1];
      forall i | 0 <= i < k ensures names[i] in r && r[names[i]] == "false" {
        if i > 0 {
          assert names[i] == names[1..][i - 1];
        } else if n in names[1..][..k - 1] {
          var j :| 0 <= j < k - 1 && names[1..][..k - 1][j] == n;
          assert names[1..][j] == n;
        } else {
          assert Lookup(r, n) == Lookup(next, n);
        }
      }
    }
  }

  /** The property names `attachAttributes` defines before it stops. */
  function DefinedProps(names: seq<string>): set<string>
    decreases |names|
  {
    if names == [] || names[0] !in Attributes then {}
    else {Attributes[names[0]].propName} + DefinedProps(names[1..])
  }

  /** No two entries of the table share a property name. */
  lemma PropNamesInjective(a: string, b: string)
    requires a in Attributes && b in Attributes && Attributes[a].propName == Attributes[b].propName
    ensures a == b
  {
  }

  /** The properties afterwards are the old ones plus those the processed
      names define; the others keep their accessors. */
  lemma {:induction false} InstallPropsKeys(props: map<string, Accessor>, attrs: map<string, string>, prototype: bool, names: seq<string>)
    ensures var r := Install(props, attrs, prototype, names).props;
      r.Keys == props.Keys + DefinedProps(names)
      && forall q :: q in props && q !in DefinedProps(names) ==> r[q] == props[q]
    decreases |names|
  {
    if names != [] && names[0] in Attributes {
      var n := names[0];
      InstallPropsKeys(props[Attributes[n].propName := SrcAccessor(n)],
                       if prototype then attrs else attrs[n := Attributes[n].default], prototype, names[1..]);
    }
  }

  /** Every processed name has its property, bound to the table's accessors
      for that name. */
  lemma {:induction false} InstallPropsDefined(props: map<string, Accessor>, attrs: map<string, string>, prototype: bool, names: seq<string>)
    ensures var r := Install(props, attrs, prototype, names).props;
      forall i :: 0 <= i < KnownPrefix(Attributes.Keys, names) ==>
        Attributes[names[i]].propName in r && r[Attributes[names[i]].propName] == SrcAccessor(names[i])
    decreases |names|
  {
    if names != [] && names[0] in Attributes {
      var n := names[0];
      var p := Attributes[n].propName;
      var next := props[p := SrcAccessor(n)];
      var nextAttrs := if prototype then attrs else attrs[n := Attributes[n].default];
      InstallPropsDefined(next, nextAttrs, prototype, names[1..]);
      InstallPropsKeys(next, nextAttrs, prototype, names[1..]);
      var r := Install(props, attrs, prototype, names).props;
      assert r == Install(next, nextAttrs, prototype, names[1..]).props;
      forall i | 0 <= i < KnownPrefix(Attributes.Keys, names)
        ensures Attributes[names[i]].propName in r && r[Attributes[names[i]].propName] == SrcAccessor(names[i])
      {
        if i > 0 {
          assert names[i] == names[1..][i - 1];
        } else if p in DefinedProps(names[1..]) {
          DefinedPropsAt(names[1..], p);
          var j :| 0 <= j < KnownPrefix(Attributes.Keys, names[1..]) && Attributes[names[1..][j]].propName == p;
          PropNamesInjective(names[1..][j], n);
        }
      }
    }
  }

  /** A defined property comes from one of the processed names. */
  lemma {:induction false} DefinedPropsAt(names: seq<string>, q: string)
    requires q in DefinedProps(names)
    ensures exists j :: 0 <= j < KnownPrefix(Attributes.Keys, names) && Attributes[names[j]].propName == q
    decreases |names|
  {
    if Attributes[names[0]].propName != q {
      DefinedPropsAt(names[1..], q);
      var j :| 0 <= j < KnownPrefix(Attributes.Keys, names[1..]) && Attributes[names[1..][j]].propName == q;
      assert names[1..][j] == names[j + 1];
    }
  }

  /** `attachAttributes(element, names)`. Properties and defaults written
      before an unknown name stay when it throws. */
  method AttachAttributes(e: Element, names: seq<string>) returns (err: Option<string>)
    modifies e`props, e`attrs
    ensures Installed(e.props, e.attrs, err) == Install(old(e.props), old(e.attrs), IsPrototype(e.probe), names)
  {
    var i := 0;
    while i < |names|
      invariant 0 <= i <= |names|
      invariant Install(old(e.props), old(e.attrs), IsPrototype(e.probe), names)
        == Install(e.props, e.attrs, IsPrototype(e.probe), names[i..])
    {
      assert names[i..][0] == names[i] && names[i..][1..] == names[i + 1..];
      var name := names[i];
      if name !in Attributes {
        return Some(UnknownAttribute(name));
      }
      var desc := Attributes[name];
      e.props := e.props[desc.propName := SrcAccessor(name)];
      var isPrototype := e.probe != Present;
      if !isPrototype {
        e.attrs := e.attrs[name := desc.default];
      }
      i := i + 1;
    }
    return None;
  }

  /** `defineAll(element)`: every table entry, in key order. */
  method DefineAll(e: Element) returns (err: Option<string>)
    modifies e`props, e`attrs
    ensures Installed(e.props, e.attrs, err) == Install(old(e.props), old(e.attrs), IsPrototype(e.probe), AttributeOrder)
  {
    err := AttachAttributes(e, AttributeOrder);
  }

  /** `defineAll` never throws; it defines `ariaPressed` and `ariaDisabled`
      and nothing else, and on an instance sets both attributes to `"false"`
      while a prototype keeps its attributes. */
  lemma DefineAllEffect(props: map<string, Accessor>, attrs: map<string, string>, prototype: bool)
    ensures var r := Install(props, attrs, prototype, AttributeOrder);
      r.error == None
      && r.props == props["ariaPressed" := SrcAccessor("aria-pressed")]["ariaDisabled" := SrcAccessor("aria-disabled")]
      && r.attrs == if prototype then attrs else attrs["aria-pressed" := "false"]["aria-disabled" := "false"]
  {
    var p1 := props["ariaPressed" := SrcAccessor("aria-pressed")];
    var a1 := if prototype then attrs else attrs["aria-pressed" := "false"];
    assert AttributeOrder[1..] == ["aria-disabled"];
    assert Install(props, attrs, prototype, AttributeOrder) == Install(p1, a1, prototype, ["aria-disabled"]);
    assert ["aria-disabled"][1..] == [];
  }

  /** Once an instance's properties are attached, both read `false`. */
  lemma DefaultsReadFalse(props: map<string, Accessor>, attrs: map<string, string>)
    ensures var r := Install(props, attrs, false, AttributeOrder).attrs;
      Read(r, "aria-pressed") == Bool(false) && Read(r, "aria-disabled") == Bool(false)
  {
    DefineAllEffect(props, attrs, false);
  }

  // ---------------------------------------------------------------------
  // attachRole

  /** Every role this revision defines lists, first, an attribute its table
      lacks, so the merged list always starts with an unknown name. */
  lemma RoleAttributesUnknown(role: string)
    requires role in Roles
    ensures Ranked(Roles, Rank)
    ensures Lineage(Roles, Rank, role) != [] && Lineage(Roles, Rank, role)[0] == Roles[role].attributes[0]
    ensures KnownPrefix(Attributes.Keys, Lineage(Roles, Rank, role)) == 0
  {
    RolesRanked();
    assert role in {"command", "input", "button", "checkbox"};
  }

  /** `attachRole(element, role)`. An unknown role returns quietly once the
      `roleList` property exists. A known role is added to the list, and the
      attachment then throws `Unknown attribute` for the first attribute the
      role lists, before any property is defined or attribute is written. */
  method AttachRole(e: Element, role: string) returns (err: Option<string>)
    requires e.Valid()
    modifies e, e.roleList
    ensures e.Valid() && e.roleList != null
    ensures old(e.roleList) != null ==> e.roleList == old(e.roleList)
    ensures old(e.roleList) == null ==> fresh(e.roleList)
    ensures e.props == old(e.props)
    ensures role !in Roles ==> err == None && e.roleList.tokens == old(TokensAfterProbe(e))
    ensures role in Roles ==> err == Some(UnknownAttribute(Roles[role].attributes[0]))
    ensures role in Roles ==> Lookup(e.attrs, "role") == Some(e.roleList.str)
    ensures role in Roles ==> role in e.roleList.tokens
    ensures role in Roles && AllWellFormed(old(TokensAfterProbe(e))) ==>
      e.roleList.tokens == AddToken(old(TokensAfterProbe(e)), role)
    ensures e.cachedRole == if old(e.roleList) == null then Lookup(old(e.attrs), "role") else old(e.cachedRole)
    ensures role !in Roles ==>
      e.attrs == if old(e.roleList) != null && old(e.cachedRole) == old(Lookup(e.attrs, "role"))
        then old(e.attrs) else old(e.attrs)["role" := e.roleList.str]
    ensures role in Roles ==> e.attrs == old(e.attrs)["role" := e.roleList.str]
    ensures role in Roles ==>
      e.roleList.tokens == TokensAfterAdd(e.cachedRole, old(LiveAfterProbe(e)), old(TokensAfterProbe(e)), role)
  {
    if role !in Roles {
      EnsureRoleList(e);
      return None;
    }
    AttachRoleList(e, role);
    RoleNameWellFormed(role);
    err := AttachRoleAttributes(e, role);
  }

  /** The tail of `attachRole` for a known role: the merged list starts with
      a name the table lacks, so `attachAttributes` throws before it defines a
      property or writes an attribute. */
  method AttachRoleAttributes(e: Element, role: string) returns (err: Option<string>)
    requires role in Roles
    modifies e`props, e`attrs
    ensures unchanged(e)
    ensures err == Some(UnknownAttribute(Roles[role].attributes[0]))
  {
    RolesRanked();
    var merged := MergeAttributes(Roles, Rank, role);
    RoleAttributesUnknown(role);
    ghost var props := e.props;
    ghost var attrs := e.attrs;
    err := AttachAttributes(e, merged);
    assert merged[0] !in Attributes;
    assert Install(props, attrs, IsPrototype(e.probe), merged) == Installed(props, attrs, Some(UnknownAttribute(merged[0])));
  }
}
