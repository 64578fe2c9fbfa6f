/**
  The later revision of `ReflectedARIAAttributes` (lib/): its role and
  attribute tables, `attachRole`, `attachAttributes` (camel-cased property
  names, existing properties skipped, getter chosen by whether the value type
  has a `default`), and the `"true/false"` and `"tristate"` value types.
*/
module LibFacade {
  import opened Wrappers
  import opened Js
  import opened Tokens
  import opened Host
  import opened Tables
  import opened RoleProperty

  // ---------------------------------------------------------------------
  // Configuration tables

  /** The attribute list shared by `command`, `input` and `widget`. */
  const CommonAttributes: seq<string> := [
    "aria-atomic", "aria-busy", "aria-controls", "aria-describedby",
    "aria-disabled", "aria-dropeffect", "aria-flowto", "aria-grabbed",
    "aria-haspopup", "aria-hidden", "aria-invalid", "aria-label",
    "aria-labelledby", "aria-live", "aria-owns", "aria-relevant"
  ]

  const Roles: RoleMap := map[
    "command" := RoleDesc(None, CommonAttributes),
    "input" := RoleDesc(Some("widget"), CommonAttributes),
    "widget" := RoleDesc(Some("roletype"), CommonAttributes),
    "button" := RoleDesc(Some("command"), ["aria-expanded", "aria-pressed"]),
    "checkbox" := RoleDesc(Some("input"), ["aria-checked"])
  ]

  /** A rank for `Roles` that falls along every `superclass` link. */
  const Rank: map<string, nat> := map["command" := 0, "widget" := 0, "input" := 1, "button" := 1, "checkbox" := 2]

  /** The `value` tag of each attribute; the `set` and `default` entries of
      the table are not read by this revision's `attachAttributes`. */
  const Attributes: map<string, ValueType> := map[
    "aria-atomic" := TrueFalse, "aria-busy" := TrueFalse,
    "aria-controls" := IdReferenceList, "aria-describedby" := IdReferenceList,
    "aria-disabled" := TrueFalse, "aria-dropeffect" := TokenList,
    "aria-flowto" := IdReferenceList, "aria-grabbed" := TrueFalseUndefined,
    "aria-haspopup" := TrueFalse, "aria-hidden" := TrueFalse,
    "aria-invalid" := Token, "aria-label" := Text,
    "aria-labelledby" := IdReferenceList, "aria-live" := Token,
    "aria-owns" := IdReferenceList, "aria-relevant" := TokenList,
    "aria-autocomplete" := Token, "aria-checked" := Tristate,
    "aria-expanded" := TrueFalseUndefined, "aria-level" := Integer,
    "aria-multiline" := TrueFalse, "aria-multiselectable" := TrueFalse,
    "aria-orientation" := Token, "aria-pressed" := Tristate,
    "aria-readonly" := TrueFalse, "aria-required" := TrueFalse,
    "aria-selected" := TrueFalseUndefined, "aria-sort" := Token,
    "aria-valuemax" := Number, "aria-valuemin" := Number,
    "aria-valuenow" := Number, "aria-valuetext" := Text,
    "aria-activedescendant" := IdReference, "aria-posinset" := Integer,
    "aria-setsize" := Integer
  ]

  lemma RolesRanked()
    ensures Ranked(Roles, Rank)
  {
  }

  /** Every role the table names is a single parser-shaped token. */
  lemma RoleNamesWellFormed()
    ensures forall r :: r in Roles ==> WellFormed(r)
  {
    LowerWordWellFormed("command");
    LowerWordWellFormed("input");
    LowerWordWellFormed("widget");
    LowerWordWellFormed("button");
    LowerWordWellFormed("checkbox");
    forall r | r in Roles ensures WellFormed(r) {
      assert r in {"command", "input", "widget", "button", "checkbox"};
    }
  }

  lemma RoleNameWellFormed(role: string)
    requires role in Roles
    ensures WellFormed(role)
  {
    RoleNamesWellFormed();
  }

  /** Every attribute any role lists is in the attribute table, so no walk in
      this revision ends in `Unknown attribute`. */
  lemma LineageKnown(name: string)
    ensures Ranked(Roles, Rank)
    ensures forall i :: 0 <= i < |Lineage(Roles, Rank, name)| ==> Lineage(Roles, Rank, name)[i] in Attributes
  {
    RolesRanked();
    var listed := (set i | 0 <= i < |CommonAttributes| :: CommonAttributes[i]) + {"aria-expanded", "aria-pressed", "aria-checked"};
    forall r, i | r in Roles && 0 <= i < |Roles[r].attributes| ensures Roles[r].attributes[i] in listed {
      assert r in {"command", "input", "widget", "button", "checkbox"};
    }
    LineageWithin(Roles, Rank, name, listed);
    CommonKnown();
    assert "aria-expanded" in Attributes && "aria-pressed" in Attributes && "aria-checked" in Attributes;
  }

  lemma CommonKnown()
    ensures forall i :: 0 <= i < |CommonAttributes| ==> CommonAttributes[i] in Attributes
  {
  }

  /** The merged lists: `button` inherits from `command`; `checkbox` from
      `input` and, through it, `widget`, whose `roletype` superclass is not in
      the table, so the shared list appears twice. */
  lemma MergedLists()
    ensures Ranked(Roles, Rank)
    ensures Lineage(Roles, Rank, "button") == ["aria-expanded", "aria-pressed"] + CommonAttributes
    ensures Lineage(Roles, Rank, "checkbox") == ["aria-checked"] + CommonAttributes + CommonAttributes
  {
    RolesRanked();
    assert "roletype" !in Roles;
    assert SuperOf(Roles, "widget") == None && SuperOf(Roles, "command") == None;
    assert SuperOf(Roles, "input") == Some("widget");
    assert Lineage(Roles, Rank, "widget") == CommonAttributes + [];
    assert Lineage(Roles, Rank, "command") == CommonAttributes + [];
    assert Lineage(Roles, Rank, "input") == CommonAttributes + CommonAttributes;
  }

  // ---------------------------------------------------------------------
  // Property names

  /** A character `\w` matches. */
  predicate IsWordChar(c: char) {
    ('a' <= c <= 'z') || ('A' <= c <= 'Z') || ('0' <= c <= '9') || c == '_'
  }

  predicate IsLower(c: char) {
    'a' <= c <= 'z'
  }

  /** `toUpperCase` on a `\w` character. */
  function Upper(c: char): char {
    if IsLower(c) then (c as int - 32) as char else c
  }

  /** `name.replace(/-(\w)/g, (str, c) => c.toUpperCase())`: scanning left to
      right, each `-` followed by a word character becomes that character in
      upper case. */
  function CamelCase(s: string): (r: string)
    ensures |r| <= |s|
    ensures r == [] <==> s == []
    decreases |s|
  {
    if s == [] then []
    else if |s| >= 2 && s[0] == '-' && IsWordChar(s[1]) then [Upper(s[1])] + CamelCase(s[2..])
    else [s[0]] + CamelCase(s[1..])
  }

  /** A name without `-` is left as it is. */
  lemma {:induction false} CamelCaseWithoutDash(s: string)
    requires '-' !in s
    ensures CamelCase(s) == s
  {
    if s != [] {
      assert s[0] != '-';
      CamelCaseWithoutDash(s[1..]);
    }
  }

  /** A prefix without `-` passes through unchanged and does not affect the
      rest. */
  lemma {:induction false} CamelCaseAppend(a: string, b: string)
    requires '-' !in a
    ensures CamelCase(a + b) == a + CamelCase(b)
    decreases |a|
  {
    if a != [] {
      assert (a + b)[0] == a[0] && a[0] != '-';
      assert (a + b)[1..] == a[1..] + b;
      CamelCaseAppend(a[1..], b);
      assert CamelCase(a + b) == [a[0]] + CamelCase(a[1..] + b);
      assert a == [a[0]] + a[1..];
      assert [a[0]] + (a[1..] + CamelCase(b)) == ([a[0]] + a[1..]) + CamelCase(b);
    } else {
      assert a + b == b;
    }
  }

  /** A name with a single dash followed by a word character, such as
      `aria-pressed`, loses the dash and capitalises that character
      (`ariaPressed`). */
  lemma CamelCaseSingleDash(p: string, s: string)
    requires '-' !in p && '-' !in s && s != [] && IsWordChar(s[0])
    ensures CamelCase(p + "-" + s) == p + [Upper(s[0])] + s[1..]
  {
    CamelCaseWithoutDash(s[1..]);
    var tail := ['-'] + s;
    assert tail[0] == '-' && tail[1] == s[0] && tail[2..] == s[1..];
    assert CamelCase(tail) == [Upper(s[0])] + s[1..];
    CamelCaseAppend(p, tail);
    assert p + "-" + s == p + tail;
  }

  lemma UpperNotLower(c: char)
    ensures c != '-' ==> !IsLower(Upper(c)) && Upper(c) != '-'
  {
  }

  /** The first character of a camel-cased name. */
  lemma CamelCaseHead(s: string)
    requires s != []
    ensures CamelCase(s) != []
    ensures |s| >= 2 && s[0] == '-' && IsWordChar(s[1]) ==> CamelCase(s)[0] == Upper(s[1])
    ensures !(|s| >= 2 && s[0] == '-' && IsWordChar(s[1])) ==> CamelCase(s)[0] == s[0]
  {
  }

  /** In a camel-cased name no `-` is followed by a lower-case letter: every
      `-x` pair has been replaced. */
  lemma {:induction false} CamelCaseNoDashLower(s: string)
    ensures forall i :: 0 <= i < |CamelCase(s)| - 1 && CamelCase(s)[i] == '-' ==> !IsLower(CamelCase(s)[i + 1])
    decreases |s|
  {
    if s == [] {
    } else if |s| >= 2 && s[0] == '-' && IsWordChar(s[1]) {
      CamelCaseNoDashLower(s[2..]);
      var r := CamelCase(s);
      var t := CamelCase(s[2..]);
      assert r == [Upper(s[1])] + t;
      UpperNotLower(s[1]);
      forall i | 0 <= i < |r| - 1 && r[i] == '-' ensures !IsLower(r[i + 1]) {
        assert i > 0;
        assert r[i] == t[i - 1] && r[i + 1] == t[i];
      }
    } else {
      CamelCaseNoDashLower(s[1..]);
      var r := CamelCase(s);
      var t := CamelCase(s[1..]);
      assert r == [s[0]] + t;
      forall i | 0 <= i < |r| - 1 && r[i] == '-' ensures !IsLower(r[i + 1]) {
        if i > 0 {
          assert r[i] == t[i - 1] && r[i + 1] == t[i];
        } else {
          assert |s| >= 2 && !IsWordChar(s[1]);
          CamelCaseHead(s[1..]);
          if |s| >= 3 && s[1] == '-' && IsWordChar(s[2]) {
            UpperNotLower(s[2]);
          }
          assert r[1] == t[0];
        }
      }
    }
  }

  // ---------------------------------------------------------------------
  // attachAttributes

  /** The value types that carry an own `default` entry. */
  predicate HasDefault(t: ValueType) {
    t == TrueFalse || t == Tristate
  }

  /** The accessor `attachAttributes` installs for a known name: the type's
      `createGetter` when it has a `default`, and otherwise its
      `createSetter` in the getter's place; the setter is always `createSetter`. */
  function AccessorFor(name: string): Accessor
    requires name in Attributes
  {
    var t := Attributes[name];
    LibAccessor(name, if HasDefault(t) then CreatedGetter(t) else SetterAsGetter(t), t)
  }

  datatype Installed = Installed(props: map<string, Accessor>, error: Option<string>)

  /** The effect of `attachAttributes(element, names)` on the element's own
      properties, and the error it throws, if any. */
  function Install(props: map<string, Accessor>, names: seq<string>): (r: Installed)
    ensures props.Keys <= r.props.Keys
    ensures r.error.Some? ==> exists i :: 0 <= i < |names| && names[i] !in Attributes && r.error == Some(UnknownAttribute(names[i]))
    decreases |names|
  {
    if names == [] then Installed(props, None)
    else if names[0] !in Attributes then Installed(props, Some(UnknownAttribute(names[0])))
    else
      var p := CamelCase(names[0]);
      Install(if p in props then props else props[p := AccessorFor(names[0])], names[1..])
  }

  /** `attachAttributes` throws exactly when a name is missing from the table,
      and the message names the first such name. */
  lemma {:induction false} InstallError(props: map<string, Accessor>, names: seq<string>)
    ensures var k := KnownPrefix(Attributes.Keys, names);
      Install(props, names).error == if k == |names| then None else Some(UnknownAttribute(names[k]))
    decreases |names|
  {
    if names != [] && names[0] in Attributes {
      var p := CamelCase(names[0]);
      InstallError(if p in props then props else props[p := AccessorFor(names[0])], names[1..]);
    }
  }

  /** A property the element already has is never replaced. */
  lemma {:induction false} InstallKeeps(props: map<string, Accessor>, names: seq<string>)
    ensures forall q :: q in props ==> q in Install(props, names).props && Install(props, names).props[q] == props[q]
    decreases |names|
  {
    if names != [] && names[0] in Attributes {
      var p := CamelCase(names[0]);
      InstallKeeps(if p in props then props else props[p := AccessorFor(names[0])], names[1..]);
    }
  }

  /** Every name processed before the first unknown one has its camel-cased
      property afterwards. */
  lemma {:induction false} InstallCovers(props: map<string, Accessor>, names: seq<string>)
    ensures forall i :: 0 <= i < KnownPrefix(Attributes.Keys, names) ==> CamelCase(names[i]) in Install(props, names).props
    decreases |names|
  {
    if names != [] && names[0] in Attributes {
      var p := CamelCase(names[0]);
      var next := if p in props then props else props[p := AccessorFor(names[0])];
      InstallCovers(next, names[1..]);
      InstallKeeps(next, names[1..]);
      var r := Install(props, names).props;
      assert r == Install(next, names[1..]).props;
      assert p in next;
      CoversStep(names, KnownPrefix(Attributes.Keys, names), r);
    }
  }

  /** One step of the induction above, kept apart from the table. */
  lemma CoversStep(names: seq<string>, k: nat, r: map<string, Accessor>)
    requires 0 < k <= |names|
    requires CamelCase(names[0]) in r
    requires forall i :: 0 <= i < k - 1 ==> CamelCase(names[1..][i]) in r
    ensures forall i :: 0 <= i < k ==> CamelCase(names[i]) in r
  {
    forall i | 0 < i < k ensures CamelCase(names[i]) in r {
      assert names[i] == names[1..][i - 1];
    }
  }

  /** Nothing else is installed: a new property is the camel-cased name of a
      name processed before the first unknown one, with that name's accessor. */
  lemma {:induction false} InstallOnly(props: map<string, Accessor>, names: seq<string>)
    ensures var r := Install(props, names).props;
      forall q :: q in r && q !in props ==>
        exists i :: 0 <= i < KnownPrefix(Attributes.Keys, names) && CamelCase(names[i]) == q && r[q] == AccessorFor(names[i])
    decreases |names|
  {
    if names != [] && names[0] in Attributes {
      var p := CamelCase(names[0]);
      var next := if p in props then props else props[p := AccessorFor(names[0])];
      InstallOnly(next, names[1..]);
      InstallKeeps(next, names[1..]);
      var r := Install(props, names).props;
      forall q | q in r && q !in props
        ensures exists i :: 0 <= i < KnownPrefix(Attributes.Keys, names) && CamelCase(names[i]) == q && r[q] == AccessorFor(names[i])
      {
        if q == p {
          assert CamelCase(names[0]) == q && r[q] == AccessorFor(names[0]);
        } else {
          var j :| 0 <= j < KnownPrefix(Attributes.Keys, names[1..]) && CamelCase(names[1..][j]) == q && r[q] == AccessorFor(names[1..][j]);
          assert names[1..][j] == names[j + 1];
        }
      }
    }
  }

  /** When every property the names would create already exists, nothing is
      installed. */
  lemma {:induction false} InstallSkipsPresent(props: map<string, Accessor>, names: seq<string>)
    requires forall i :: 0 <= i < KnownPrefix(Attributes.Keys, names) ==> CamelCase(names[i]) in props
    ensures Install(props, names).props == props
    decreases |names|
  {
    if names != [] && names[0] in Attributes {
      assert forall i :: 0 <= i < KnownPrefix(Attributes.Keys, names[1..]) ==> names[1..][i] == names[i + 1];
      InstallSkipsPresent(props, names[1..]);
    }
  }

  /** Attaching the same list twice (or a list whose names repeat) installs
      nothing the second time and throws the same way. */
  lemma InstallIdempotent(props: map<string, Accessor>, names: seq<string>)
    ensures Install(Install(props, names).props, names) == Install(props, names)
  {
    var first := Install(props, names);
    InstallCovers(props, names);
    InstallSkipsPresent(first.props, names);
    InstallError(props, names);
    InstallError(first.props, names);
  }

  /** `attachAttributes(element, names)`. Properties installed before an
      unknown name stay installed when it throws. */
  method AttachAttributes(e: Element, names: seq<string>) returns (err: Option<string>)
    modifies e`props
    ensures Installed(e.props, err) == Install(old(e.props), names)
  {
    var i := 0;
    while i < |names|
      invariant 0 <= i <= |names|
      invariant Install(old(e.props), names) == Install(e.props, names[i..])
    {
      assert names[i..][0] == names[i] && names[i..][1..] == names[i + 1..];
      var name := names[i];
      if name !in Attributes {
        return Some(UnknownAttribute(name));
      }
      var prop := CamelCase(name);
      if prop !in e.props {
        e.props := e.props[prop := AccessorFor(name)];
      }
      i := i + 1;
    }
    return None;
  }

  // ---------------------------------------------------------------------
  // attachRole

  /** `attachRole(element, role)`. An unknown role returns quietly once the
      `roleList` property exists; a known one is added to the list and the
      merged attribute list of its `superclass` chain is attached. */
  method AttachRole(e: Element, role: string) returns (err: Option<string>)
    requires e.Valid()
    modifies e, e.roleList
    ensures e.Valid() && e.roleList != null
    ensures old(e.roleList) != null ==> e.roleList == old(e.roleList)
    ensures old(e.roleList) == null ==> fresh(e.roleList)
    ensures role !in Roles ==>
      err == None && e.props == old(e.props) && e.roleList.tokens == old(TokensAfterProbe(e))
    ensures Ranked(Roles, Rank)
    ensures role in Roles ==>
      Installed(e.props, err) == Install(old(e.props), Lineage(Roles, Rank, role))
    ensures role in Roles ==> err == None && Lookup(e.attrs, "role") == Some(e.roleList.str)
    ensures role in Roles ==> role in e.roleList.tokens
    ensures role in Roles && AllWellFormed(old(TokensAfterProbe(e))) ==>
      e.roleList.tokens == AddToken(old(TokensAfterProbe(e)), role)
    ensures e.cachedRole == if old(e.roleList) == null then Lookup(old(e.attrs), "role") else old(e.cachedRole)
    ensures role !in Roles ==>
      e.attrs == if old(e.roleList) != null && old(e.cachedRole) == old(Lookup(e.attrs, "role"))
        then old(e.attrs) else old(e.attrs)["role" := e.roleList.str]
    ensures role in Roles ==> e.attrs == old(e.attrs)["role" := e.roleList.str]
    ensures role in Roles ==>
      e.roleList.tokens == TokensAfterAdd(e.cachedRole, old(LiveAfterProbe(e)), old(TokensAfterProbe(e)), role)
  {
    RolesRanked();
    if role !in Roles {
      EnsureRoleList(e);
      return None;
    }
    err := AttachKnownRole(e, role);
  }

  /** `attachRole` past the table lookup: the role is added, `role` is
      written back, and the merged attribute list is attached. */
  method AttachKnownRole(e: Element, role: string) returns (err: Option<string>)
    requires e.Valid() && role in Roles
    modifies e, e.roleList
    ensures e.Valid() && e.roleList != null
    ensures old(e.roleList) != null ==> e.roleList == old(e.roleList)
    ensures old(e.roleList) == null ==> fresh(e.roleList)
    ensures Ranked(Roles, Rank)
    ensures Installed(e.props, err) == Install(old(e.props), Lineage(Roles, Rank, role))
    ensures err == None && Lookup(e.attrs, "role") == Some(e.roleList.str)
    ensures role in e.roleList.tokens
    ensures AllWellFormed(old(TokensAfterProbe(e))) ==> e.roleList.tokens == AddToken(old(TokensAfterProbe(e)), role)
    ensures e.cachedRole == if old(e.roleList) == null then Lookup(old(e.attrs), "role") else old(e.cachedRole)
    ensures e.attrs == old(e.attrs)["role" := e.roleList.str]
    ensures e.roleList.tokens == TokensAfterAdd(e.cachedRole, old(LiveAfterProbe(e)), old(TokensAfterProbe(e)), role)
  {
    AttachRoleList(e, role);
    RoleNameWellFormed(role);
    err := AttachRoleAttributes(e, role);
  }

  /** The tail of `attachRole` for a known role: the `superclass` walk merges
      the attribute lists, and `attachAttributes` installs them. Every merged
      name is in the table, so nothing is thrown. */
  method AttachRoleAttributes(e: Element, role: string) returns (err: Option<string>)
    requires role in Roles
    modifies e`props
    ensures unchanged(e`roleList, e`attrs, e`cachedRole)
    ensures Ranked(Roles, Rank)
    ensures Installed(e.props, err) == Install(old(e.props), Lineage(Roles, Rank, role))
    ensures err == None
  {
    RolesRanked();
    var merged := MergeAttributes(Roles, Rank, role);
    err := AttachAttributes(e, merged);
    LineageKnown(role);
    InstallError(old(e.props), merged);
  }

  // ---------------------------------------------------------------------
  // Value types

  /** The `"true/false"` getter made by `createGetter(attrName, defaultValue)`:
      the attribute compared with `"true"` when present, and otherwise
      `defaultValue || false`. */
  function TrueFalseRead(attrs: map<string, string>, name: string, defaultValue: JsValue): (r: JsValue)
    ensures Truthy(r) <==> if name in attrs then attrs[name] == "true" else Truthy(defaultValue)
    ensures name in attrs || !Truthy(defaultValue) ==> r.Bool?
    ensures name !in attrs && Truthy(defaultValue) ==> r == defaultValue
  {
    if name in attrs then Bool(attrs[name] == "true")
    else if Truthy(defaultValue) then defaultValue
    else Bool(false)
  }

  /** The `"true/false"` setter: `setAttribute(attrName, value)`. */
  function TrueFalseWritten(attrs: map<string, string>, name: string, value: JsValue): (r: map<string, string>)
    ensures r.Keys == attrs.Keys + {name} && r[name] == ToString(value)
    ensures forall k :: k in attrs && k != name ==> r[k] == attrs[k]
  {
    attrs[name := ToString(value)]
  }

  /** The `"tristate"` getter, whose fallback `defaultValue` is a parameter
      here. */
  function TristateRead(attrs: map<string, string>, name: string, defaultValue: JsValue): (r: JsValue)
    ensures name in attrs ==> r.Bool? && (r.b <==> attrs[name] == "true")
    ensures name !in attrs ==> r == defaultValue
  {
    if name in attrs then Bool(attrs[name] == "true") else defaultValue
  }

  /** The attribute map after the `"tristate"` setter. */
  function TristateWritten(attrs: map<string, string>, name: string, value: JsValue): (r: map<string, string>)
    ensures name in r <==> value != Undefined
    ensures name in r ==> r[name] == ToString(value)
    ensures forall k :: k != name ==> (k in r <==> k in attrs) && (k in r ==> r[k] == attrs[k])
  {
    if value == Undefined then attrs - {name}
    else if value == Str("mixed") then attrs[name := "mixed"]
    else attrs[name := ToString(value)]
  }

  /** Reading an installed property. The getters made from a `createSetter`
      (types without a `default`) and the empty stub getters give `undefined`. */
  function Read(acc: Accessor, attrs: map<string, string>, tristateDefault: JsValue): JsValue
    requires acc.LibAccessor?
  {
    match acc.getter
    case CreatedGetter(TrueFalse) => TrueFalseRead(attrs, acc.attr, Undefined)
    case CreatedGetter(Tristate) => TristateRead(attrs, acc.attr, tristateDefault)
    case _ => Undefined
  }

  /** The attribute map after writing an installed property; the stub setters
      do nothing. */
  function Written(acc: Accessor, attrs: map<string, string>, value: JsValue): map<string, string>
    requires acc.LibAccessor?
  {
    match acc.setter
    case TrueFalse => TrueFalseWritten(attrs, acc.attr, value)
    case Tristate => TristateWritten(attrs, acc.attr, value)
    case _ => attrs
  }

  /** The `"true/false"` setter, run on an element. */
  method SetTrueFalse(e: Element, name: string, value: JsValue)
    modifies e`attrs
    ensures e.attrs == TrueFalseWritten(old(e.attrs), name, value)
  {
    e.attrs := e.attrs[name := ToString(value)];
  }

  /** The `"tristate"` setter, run on an element: `undefined` removes the
      attribute, `"mixed"` is stored verbatim, anything else is stringified. */
  method SetTristate(e: Element, name: string, value: JsValue)
    modifies e`attrs
    ensures e.attrs == TristateWritten(old(e.attrs), name, value)
  {
    if value == Undefined {
      e.attrs := e.attrs - {name};
    } else if value == Str("mixed") {
      e.attrs := e.attrs[name := "mixed"];
    } else {
      e.attrs := e.attrs[name := ToString(value)];
    }
  }

  /** Assigning to an installed property runs its setter. */
  method SetProperty(e: Element, prop: string, value: JsValue)
    requires prop in e.props && e.props[prop].LibAccessor?
    modifies e`attrs
    ensures e.attrs == Written(e.props[prop], old(e.attrs), value)
  {
    var acc := e.props[prop];
    match acc.setter
    case TrueFalse => SetTrueFalse(e, acc.attr, value);
    case Tristate => SetTristate(e, acc.attr, value);
    case _ =>
  }

  /** A `"true/false"` property reads `getAttribute(name) === "true"` when the
      attribute is present and `false` when it is absent. */
  lemma TrueFalsePropertyReads(name: string, attrs: map<string, string>, tristateDefault: JsValue)
    requires name in Attributes && Attributes[name] == TrueFalse
    ensures Read(AccessorFor(name), attrs, tristateDefault) == Bool(name in attrs && attrs[name] == "true")
  {
  }

  /** Writing a boolean to a `"true/false"` property and reading it back gives
      the same boolean; no other attribute changes. */
  lemma TrueFalseRoundTrip(name: string, attrs: map<string, string>, b: bool, tristateDefault: JsValue)
    requires name in Attributes && Attributes[name] == TrueFalse
    ensures var w := Written(AccessorFor(name), attrs, Bool(b));
      Read(AccessorFor(name), w, tristateDefault) == Bool(b)
      && forall other :: other != name ==> Lookup(w, other) == Lookup(attrs, other)
  {
  }

  /** The `"tristate"` setter removes the attribute for `undefined` and stores
      `"mixed"` for `"mixed"` and the stringified value otherwise; no other
      attribute changes. */
  lemma TristateSetterStores(name: string, attrs: map<string, string>, value: JsValue)
    requires name in Attributes && Attributes[name] == Tristate
    ensures var w := Written(AccessorFor(name), attrs, value);
      (name in w <==> value != Undefined)
      && (value == Str("mixed") ==> w[name] == "mixed")
      && (value != Undefined ==> w[name] == ToString(value))
      && forall other :: other != name ==> Lookup(w, other) == Lookup(attrs, other)
  {
  }

  /** Reading a `"tristate"` property after writing it: the default after
      `undefined`, the boolean back after a boolean, and `false` after
      `"mixed"`, since the getter only compares with `"true"`. */
  lemma TristateRoundTrip(name: string, attrs: map<string, string>, value: JsValue, tristateDefault: JsValue)
    requires name in Attributes && Attributes[name] == Tristate
    ensures var r := Read(AccessorFor(name), Written(AccessorFor(name), attrs, value), tristateDefault);
      (value == Undefined ==> r == tristateDefault)
      && (value.Bool? ==> r == value)
      && (value == Str("mixed") ==> r == Bool(false))
  {
  }

  /** A property of a type without a `default` reads `undefined` and ignores
      writes: its getter and setter are the empty stubs. */
  lemma StubPropertiesInert(name: string, attrs: map<string, string>, value: JsValue, tristateDefault: JsValue)
    requires name in Attributes && !HasDefault(Attributes[name])
    ensures Read(AccessorFor(name), attrs, tristateDefault) == Undefined
    ensures Written(AccessorFor(name), attrs, value) == attrs
  {
  }
}
