# Reflected ARIA attributes, modelled in Dafny

The library reflects WAI-ARIA attributes of a DOM element as JavaScript
properties. It has three parts.

- `RoleList` is an insertion-ordered set of role tokens. It is parsed from the
  element's `role` attribute, and its space-joined form is written back to that
  attribute after every change.
- `defineRoleListProperty` installs two properties on the element. `roleList`
  hands out a cached list, re-parsing it when the attribute differs from the
  cached string. `role` reads the list's string and writes through `update`.
- `attachRole` adds a role to the list. It then walks the role's `superclass`
  chain in a configuration table, merges the attribute lists it finds, and
  passes them to `attachAttributes`, which defines one accessor property per
  attribute.

The two revisions of the library are modelled side by side:

- `lib/` is the later one. Property names are camel-cased, existing properties
  are skipped, and accessors come from typed value factories (`true/false`,
  `tristate` and inert stubs).
- `src/` is the earlier one. Its attribute table has two entries, each with a
  fixed property name and a `"false"` default. That default is written to every
  instance. It also has `defineAll`.

`RoleList` and the `roleList`/`role` properties are the same code in both revisions (lines 3-101).

Modules:

| file | module | contents |
|---|---|---|
| `wrappers.dfy` | `Wrappers` | `Option` |
| `js.dfy` | `Js` | the JavaScript values the setters see, `String(v)` and `!!v` |
| `tokens.dfy` | `Tokens` | `trim`, `split(/\s+/)`, `Set` order, `_buildString`'s join, and their laws |
| `host.dfy` | `Host` | the element (`attrs`, installed `props`, role-list cache) and the `RoleList` class |
| `role_property.dfy` | `RoleProperty` | `defineRoleListProperty`, the `roleList`/`role` accessors, the first steps of `attachRole` |
| `role_table.dfy` | `Tables` | role descriptors, the `superclass` walk, the unknown-attribute error |
| `lib_facade.dfy` | `LibFacade` | the later revision's tables, `attachAttributes`, `attachRole` and value types |
| `src_facade.dfy` | `SrcFacade` | the earlier revision's tables, `attachAttributes`, `attachRole` and `defineAll` |

How JavaScript values are represented:

- An attribute read with `getAttribute` is an `Option<string>`; `None` is `null`.
- `_splitRoles` treats `null` and `""` as falsy. Any other string is trimmed and split.
- A non-empty all-whitespace string therefore yields the single empty token `[""]`, as JavaScript does.
- `_buildString` puts a space before a token only when the string built so far is
  non-empty (`Tokens.Joined`). This differs from `join(" ")` (`Tokens.JoinSpace`)
  only when an empty token comes first.

## Model

| member | source | states |
|---|---|---|
| Tokens.TrimStart | lib/reflected-aria-attributes.js:68 | the leading part `trim` removes is exactly the maximal run of JavaScript whitespace |
| Tokens.TrimEnd | lib/reflected-aria-attributes.js:68 | the trailing part `trim` removes is exactly the maximal run of JavaScript whitespace |
| Tokens.Trim | lib/reflected-aria-attributes.js:68 | a trimmed string is empty or begins and ends with a non-whitespace character |
| Tokens.Split | lib/reflected-aria-attributes.js:68 | `split(/\s+/g)` always yields at least one field; where each field starts and ends is fixed by `SplitCollapse` with `SplitNoSpace` |
| Tokens.SplitKeepsText | lib/reflected-aria-attributes.js:68 | the fields written back to back are the input with its whitespace removed: no other character is lost, repeated or moved |
| Tokens.SplitCollapse | lib/reflected-aria-attributes.js:68 | the fields joined by single spaces are the string with each maximal whitespace run (spaces, tabs, line terminators) collapsed to one space |
| Tokens.SplitAtTabAndRun | lib/reflected-aria-attributes.js:68 | a tab and a run of two spaces each separate two fields: "a\tb" and "a  b" both split into ["a", "b"] |
| Tokens.SplitRoles | lib/reflected-aria-attributes.js:67-69 | `_splitRoles` yields no token exactly for a falsy value (`null` or "") |
| Tokens.Parse | lib/reflected-aria-attributes.js:5 | the tokens of a list built from a value; `ParsedShape`, `ParseJoined` and `CanonIdempotent` state their shape, round trip and idempotence |
| Tokens.Dedup | lib/reflected-aria-attributes.js:5 | the iteration order of `new Set(tokens)` has no repeats and the same members as the tokens; its order is stated by `DedupFirstOccurrence` |
| Tokens.DedupFirstOccurrence | lib/reflected-aria-attributes.js:5 | the tokens of `new Set(tokens)` come in the order of their first occurrences, so later duplicates are the ones dropped |
| Tokens.Without | lib/reflected-aria-attributes.js:24 | `Set.delete` leaves exactly the other members |
| Tokens.AddToken | lib/reflected-aria-attributes.js:15 | `Set.add` gives exactly the old members plus the token, with the old members first in their old order |
| Tokens.AddTokenKeeps | lib/reflected-aria-attributes.js:15 | `Set.add` keeps the set distinct, includes the token, keeps every old member in its position, and changes nothing when the token is present |
| Tokens.WithoutAbsent | lib/reflected-aria-attributes.js:23-26 | deleting an absent token leaves the list unchanged |
| Tokens.WithoutAt | lib/reflected-aria-attributes.js:24 | deleting the token at position k closes the gap and keeps the order of the others |
| Tokens.WithoutDistinct | lib/reflected-aria-attributes.js:24 | deletion keeps the set distinct |
| Tokens.Joined | lib/reflected-aria-attributes.js:55-62 | the string `_buildString` accumulates is empty exactly when every token is empty |
| Tokens.JoinedIsJoinSpace | lib/reflected-aria-attributes.js:55-62 | with no empty token, `_buildString` produces the single-space join |
| Tokens.LeadingEmptyTokenLosesSeparator | lib/reflected-aria-attributes.js:58-61 | ["", "b"] serialises to "b", not " b": the `if (string)` guard drops the separator after an empty first token |
| Tokens.SplitJoinSpace | lib/reflected-aria-attributes.js:68 | splitting the single-space join of non-empty space-free tokens gives the tokens back |
| Tokens.SplitNoSpace | lib/reflected-aria-attributes.js:68 | no field of a split contains whitespace |
| Tokens.SplitNonEmpty | lib/reflected-aria-attributes.js:68 | a string trimmed at both ends splits into non-empty fields only |
| Tokens.DedupOfDistinct | lib/reflected-aria-attributes.js:5 | a `Set` built from distinct tokens keeps their order |
| Tokens.ParsedShape | lib/reflected-aria-attributes.js:67-69 | `_splitRoles` yields non-empty space-free tokens if and only if the value is not a non-empty all-whitespace string; for such a string the list is the one empty token |
| Tokens.ParseJoined | lib/reflected-aria-attributes.js:4-8 | round trip: building a list from the serialisation of distinct well-formed tokens gives those tokens back |
| Tokens.JoinedKeepsToken | lib/reflected-aria-attributes.js:55-68 | whatever the other tokens are (empty, or holding whitespace), a well-formed token of a list is among the tokens parsed back from its serialisation |
| Tokens.JoinedAround | lib/reflected-aria-attributes.js:55-62 | each non-empty token stands in the `_buildString` result between the string's ends or whitespace |
| Tokens.TrimAround | lib/reflected-aria-attributes.js:68 | `trim()` cannot cut into a well-formed token that stands between whitespace |
| Tokens.SplitAround | lib/reflected-aria-attributes.js:68 | a well-formed token standing between whitespace or the string's ends is one of the fields of `split(/\s+/g)` |
| Tokens.CanonCollapses | lib/reflected-aria-attributes.js:28-32 | after `update(s)`, `toString()` is the single-space join of the distinct fields of the trimmed string |
| Tokens.Canon | lib/reflected-aria-attributes.js:28-32 | the string of a list updated from a value; `CanonCollapses` states it as the single-space join of the distinct fields of the trimmed value |
| Tokens.CanonIdempotent | lib/reflected-aria-attributes.js:28-32 | updating a list from its own serialisation changes neither the string nor the tokens; the tokens exception is a value that parses to the single empty token |
| Tokens.EmptyFieldCanon | lib/reflected-aria-attributes.js:55-68 | the single empty token serialises to "", and "" parses to no tokens |
| Tokens.ParseSingle | lib/reflected-aria-attributes.js:67-69 | a single well-formed token serialises and parses to itself |
| Tokens.CanonOfNormalised | lib/reflected-aria-attributes.js:28-32 | distinct well-formed tokens joined by single spaces are a fixed point of update-then-toString (a tab or other whitespace between tokens is rewritten to one space) |
| Host.Lookup | lib/reflected-aria-attributes.js:74 | `getAttribute` gives the value exactly when the attribute is present, and `null` otherwise |
| Host.RoleList.constructor | lib/reflected-aria-attributes.js:4-8 | the list holds the parsed tokens, and its string is written to `role` |
| Host.RoleList.ToString | lib/reflected-aria-attributes.js:10-12 | the result is the serialisation of the current tokens |
| Host.RoleList.Add | lib/reflected-aria-attributes.js:14-17 | the token is appended when absent; a present token stays in place and nothing changes; the new string is written to `role` |
| Host.RoleList.Contains | lib/reflected-aria-attributes.js:19-21 | true exactly when the token is in the list |
| Host.RoleList.Remove | lib/reflected-aria-attributes.js:23-26 | the token is gone and the other tokens keep their order; an absent token changes nothing; the new string is written to `role` |
| Host.RoleList.Update | lib/reflected-aria-attributes.js:28-32 | the tokens are re-parsed from the value, and the string is that value's canonical form |
| Host.RoleList.Item | lib/reflected-aria-attributes.js:42-53 | gives the token at position nth when 0 <= nth < size; otherwise undefined, including for negative nth |
| Host.RoleList.BuildString | lib/reflected-aria-attributes.js:55-65 | the loop builds the `Joined` serialisation, stores it, and writes it to `role` |
| RoleProperty.DefineRoleListProperty | lib/reflected-aria-attributes.js:73-101 | caches the raw attribute read; the new list's tokens are parsed from it; its canonical string is written back; no other properties change |
| RoleProperty.AfterGet | lib/reflected-aria-attributes.js:82-89 | the getter's decision: the cached list when the live value equals the cached one, otherwise the re-parse; `RoleListGet` and `SyncedGetKeeps` state it |
| RoleProperty.RoleListGet | lib/reflected-aria-attributes.js:82-89 | if the live attribute equals the cached raw value, list and attribute are unchanged; otherwise the list is re-parsed from the live value and the canonical string is written back |
| RoleProperty.SyncedGetKeeps | lib/reflected-aria-attributes.js:82-89 | when the live attribute is the cached value or the list's own string, the getter yields the same well-formed tokens |
| RoleProperty.RoleGet | lib/reflected-aria-attributes.js:93-95 | `role` reads the list's serialisation |
| RoleProperty.RoleSet | lib/reflected-aria-attributes.js:96-98 | writing `role` re-parses the list from the value and writes the canonical string back |
| RoleProperty.EnsureRoleList | lib/reflected-aria-attributes.js:105-107 | afterwards a list exists and an existing one is kept; the tokens are what the probe's getter or definition produced; `role` is the only attribute that may change, and it changes exactly when the list is defined or re-parsed; the cached value is the attribute read at definition |
| RoleProperty.AttachRoleList | lib/reflected-aria-attributes.js:105-113 | the role-list steps of `attachRole` for a known role: a list created here is new, an existing one is kept, `role` is the only attribute written and ends as the list's string, the tokens are exactly what the two getter reads and `Set.add` give (`TokensAfterAdd`), a well-formed role is always among the final tokens, and well-formed tokens gain the role by `Set.add` alone |
| RoleProperty.AddRoleToken | lib/reflected-aria-attributes.js:112-113 | only `role` is written, and it ends equal to the list's string; the tokens are exactly `TokensAfterAdd` of the state before; if the list agreed with the attribute and held well-formed tokens, the list gains the role exactly by `Set.add` |
| RoleProperty.TokensAfterAdd | lib/reflected-aria-attributes.js:112-113 | the tokens after `add` and the write-back, each read of `roleList` going through the getter; `TokensAfterAddSynced` reduces it to `Set.add` for a synced list |
| RoleProperty.RoleInTokensAfterAdd | lib/reflected-aria-attributes.js:112-113 | whatever the list held and whatever the getter re-reads, a well-formed role is among the tokens after `add` and the write-back |
| RoleProperty.TokensAfterAddSynced | lib/reflected-aria-attributes.js:112-113 | for a list of well-formed distinct tokens that agrees with the attribute or the cached value, both getter reads keep it, so the result is exactly `Set.add` of the role |
| RoleProperty.AddThroughGetter | lib/reflected-aria-attributes.js:112 | `element.roleList.add(role)`: the tokens are `Set.add` of what the getter returned, so the role is present; only `role` is written |
| RoleProperty.WriteRoleAttribute | lib/reflected-aria-attributes.js:113 | `element.setAttribute("role", element.roleList)`: the tokens are what the getter returned; only `role` is written, with the list's string; a list that agrees with the attribute keeps its tokens |
| RoleProperty.RoleListGetSynced | lib/reflected-aria-attributes.js:82-89 | corrected getter: after every read the live attribute equals the list's string |
| RoleProperty.StaleRoleListScenario | lib/reflected-aria-attributes.js:82-89 | as written: for any token x, after `add(x)` and an outside removal of `role`, `role` still reads x while the attribute is absent |
| RoleProperty.SyncedRoleListScenario | lib/reflected-aria-attributes.js:82-89 | corrected: for any token x, the same steps leave the list empty and the attribute "" |
| Tables.SuperOf | lib/reflected-aria-attributes.js:117 | the walk only moves to a role that is in the table |
| Tables.Ancestors | lib/reflected-aria-attributes.js:114-118 | the roles the `superclass` walk visits; `AncestorsChain` states it |
| Tables.Lineage | lib/reflected-aria-attributes.js:114-118 | the merged attribute list of a role, the reference for the loop; `LineageIsAncestorAttributes` and `MergeAttributes` state it |
| Tables.AncestorsChain | lib/reflected-aria-attributes.js:115-118 | the walk visits the role first, follows `superclass` link by link, and stops at the first role whose superclass is missing |
| Tables.LineageIsAncestorAttributes | lib/reflected-aria-attributes.js:114-118 | the merged list is the concatenation of the `attributes` of the visited roles, in walk order |
| Tables.MergeAttributes | lib/reflected-aria-attributes.js:114-118 | the loop computes exactly that merged list |
| Tables.KnownPrefix | lib/reflected-aria-attributes.js:123-127 | how far `attachAttributes` gets: every earlier name is known, and the name at that position is not |
| LibFacade.RolesRanked | lib/reflected-aria-attributes.js:146-223 | the later role table has no `superclass` cycle |
| LibFacade.RoleNamesWellFormed | lib/reflected-aria-attributes.js:146-223 | every role name is a single non-empty token without whitespace |
| LibFacade.LineageKnown | lib/reflected-aria-attributes.js:146-344 | every attribute a role inherits is in the attribute table |
| LibFacade.MergedLists | lib/reflected-aria-attributes.js:146-223 | the merged lists of `button` and `checkbox`; checkbox gets the common list twice, from `input` and from `widget` |
| LibFacade.CamelCase | lib/reflected-aria-attributes.js:128 | the camel-cased name is never longer than the name, and is empty only for the empty name |
| LibFacade.CamelCaseWithoutDash | lib/reflected-aria-attributes.js:128 | a name without '-' is its own property name |
| LibFacade.CamelCaseSingleDash | lib/reflected-aria-attributes.js:128 | a name with one dash before a word character, such as "aria-pressed", loses the dash and capitalises that character ("ariaPressed") |
| LibFacade.CamelCaseNoDashLower | lib/reflected-aria-attributes.js:128 | no '-' followed by a lower-case letter survives |
| LibFacade.AccessorFor | lib/reflected-aria-attributes.js:132-138 | the getter/setter pair chosen per value type, including `createSetter` as the getter for a type without `default`; `InstallOnly` and `StubPropertiesInert` state it |
| LibFacade.Install | lib/reflected-aria-attributes.js:122-144 | attaching never removes a property, and an error names a name of the list that the table lacks |
| LibFacade.InstallError | lib/reflected-aria-attributes.js:123-127 | `attachAttributes` throws exactly when some name is unknown, and the message names the first unknown name |
| LibFacade.InstallKeeps | lib/reflected-aria-attributes.js:129-131 | an existing property is never replaced |
| LibFacade.InstallCovers | lib/reflected-aria-attributes.js:123-143 | every name before the first unknown one has its camel-cased property afterwards |
| LibFacade.InstallOnly | lib/reflected-aria-attributes.js:128-142 | each new property is the camel-cased name of a processed name, with the accessor that name's value type selects |
| LibFacade.InstallSkipsPresent | lib/reflected-aria-attributes.js:129-131 | if all the properties exist already, nothing is installed |
| LibFacade.InstallIdempotent | lib/reflected-aria-attributes.js:122-144 | attaching the same list twice installs nothing more and throws the same way |
| LibFacade.AttachAttributes | lib/reflected-aria-attributes.js:122-144 | the loop's effect on the element's properties and its error are those of `Install` |
| LibFacade.AttachRole | lib/reflected-aria-attributes.js:104-120 | an unknown role only makes the list exist and changes no property; a known role goes through `AttachKnownRole` and always ends among the list's tokens; a list created here is new |
| LibFacade.AttachKnownRole | lib/reflected-aria-attributes.js:112-120 | a known role is added (tokens exactly `TokensAfterAdd`, which always contain the role), `role` is the only attribute written and ends as the list's string, the merged attributes are installed, and nothing throws |
| LibFacade.AttachRoleAttributes | lib/reflected-aria-attributes.js:115-120 | the merged `superclass` list of a known role is installed without an error; the role list, the attributes and the cached `role` value are untouched |
| LibFacade.SetTrueFalse | lib/reflected-aria-attributes.js:358-362 | the setter stores the stringified value |
| LibFacade.SetTristate | lib/reflected-aria-attributes.js:380-390 | the setter removes the attribute for undefined, stores "mixed" for "mixed", and otherwise stores the stringified value |
| LibFacade.SetProperty | lib/reflected-aria-attributes.js:139-142 | assigning a property runs the setter that was installed for it |
| LibFacade.TrueFalsePropertyReads | lib/reflected-aria-attributes.js:349-357 | a true/false property reads `getAttribute(name) === "true"` when present, and the default `false` when absent |
| LibFacade.TrueFalseRoundTrip | lib/reflected-aria-attributes.js:348-364 | writing a boolean then reading gives that boolean; no other attribute changes |
| LibFacade.TristateSetterStores | lib/reflected-aria-attributes.js:380-390 | the attribute is present exactly when the value was not undefined, and then holds "mixed" or the stringified value; no other attribute changes |
| LibFacade.TristateRoundTrip | lib/reflected-aria-attributes.js:365-392 | reading a tristate after writing: the default after undefined, the boolean after a boolean, false after "mixed" |
| LibFacade.StubPropertiesInert | lib/reflected-aria-attributes.js:132-138 | a type without `default` gets its setter factory in the getter's place, so the property reads undefined and ignores writes |
| LibFacade.TrueFalseRead | lib/reflected-aria-attributes.js:349-357 | the `true/false` getter is the boolean `=== "true"` for a present attribute; for an absent one it is the default itself when that is truthy, and otherwise false |
| LibFacade.TrueFalseWritten | lib/reflected-aria-attributes.js:358-362 | the `true/false` setter stores `String(value)` under the name and leaves every other attribute as it was |
| LibFacade.TristateRead | lib/reflected-aria-attributes.js:373-378 | the `tristate` getter is the boolean `=== "true"` for a present attribute and the default for an absent one |
| LibFacade.TristateWritten | lib/reflected-aria-attributes.js:380-390 | the `tristate` setter leaves the attribute present exactly when the value is not undefined, holding `String(value)`; other attributes are untouched |
| SrcFacade.RolesRanked | src/reflected-aria-attributes.js:153-204 | the earlier role table has no `superclass` cycle |
| SrcFacade.RoleNamesWellFormed | src/reflected-aria-attributes.js:153-204 | every role name is a single non-empty token without whitespace |
| SrcFacade.AttributeOrderIsKeys | src/reflected-aria-attributes.js:145 | the key list names each table entry exactly once |
| SrcFacade.SetProperty | src/reflected-aria-attributes.js:213-215 | the setter stores "true" or "false" according to the value's truthiness |
| SrcFacade.ReadAfterWrite | src/reflected-aria-attributes.js:210-215 | reading after writing gives the written value's truthiness; no other attribute changes |
| SrcFacade.ReadIsTrueString | src/reflected-aria-attributes.js:210-212 | a property reads true exactly when the attribute is the string "true", and false when it is absent |
| SrcFacade.Read | src/reflected-aria-attributes.js:210-212 | the getter is a boolean, true exactly when the attribute is present and equal to "true" |
| SrcFacade.Written | src/reflected-aria-attributes.js:213-215 | the setter stores "true" exactly for a truthy value and "false" otherwise, and leaves every other attribute as it was |
| SrcFacade.Install | src/reflected-aria-attributes.js:122-142 | attaching never removes a property or attribute, writes no attribute on a prototype, and an error names a name the table lacks |
| SrcFacade.IsPrototype | src/reflected-aria-attributes.js:132-137 | a falsy or throwing `attributes` probe marks a prototype; `InstallPrototypeAttrs` and `InstallInstanceAttrs` state what follows from it |
| SrcFacade.InstallError | src/reflected-aria-attributes.js:123-127 | throws exactly when some name is unknown, naming the first one |
| SrcFacade.InstallPrototypeAttrs | src/reflected-aria-attributes.js:132-140 | on a prototype (falsy or throwing `attributes`) no attribute is written |
| SrcFacade.InstallInstanceAttrs | src/reflected-aria-attributes.js:138-140 | on an instance every processed attribute becomes "false", overwriting any earlier value; the other attributes are untouched |
| SrcFacade.InstallPropsKeys | src/reflected-aria-attributes.js:128-131 | the properties afterwards are the old ones plus those the processed names define; the rest keep their accessors |
| SrcFacade.InstallPropsDefined | src/reflected-aria-attributes.js:128-131 | each processed name's property holds that name's table accessors |
| SrcFacade.AttachAttributes | src/reflected-aria-attributes.js:122-142 | the loop's effect on properties and attributes, and its error, are those of `Install` |
| SrcFacade.DefineAll | src/reflected-aria-attributes.js:144-147 | `defineAll` attaches every table key in key order |
| SrcFacade.DefineAllEffect | src/reflected-aria-attributes.js:144-147 | `defineAll` never throws and defines exactly `ariaPressed` and `ariaDisabled`; an instance gets both attributes set to "false" |
| SrcFacade.DefaultsReadFalse | src/reflected-aria-attributes.js:206-227 | after `defineAll` on an instance both properties read false |
| SrcFacade.RoleAttributesUnknown | src/reflected-aria-attributes.js:153-227 | every defined role's merged list starts with a name the attribute table lacks |
| SrcFacade.AttachRole | src/reflected-aria-attributes.js:104-120 | an unknown role only makes the list exist; a known role is added (tokens exactly `TokensAfterAdd`, which always contain the role), a list created here is new, and `role` is the only attribute written; then it throws `Unknown attribute` for the role's first attribute before defining any property |
| SrcFacade.AttachRoleAttributes | src/reflected-aria-attributes.js:115-120 | for a known role, `attachAttributes` throws `Unknown attribute` for the role's first attribute and leaves the element unchanged |

## Left out

- Host.RoleList.Item: the index is an integer. A fractional or string index never equals a loop counter under `===`, so the code returns `undefined` for it.
- `forEach(callback, thisArg)` (lines 34-40) is not modelled: it only hands the callback to `Set.prototype.forEach`.
- `init()` (src lines 149-151) is not modelled; it calls `defineAll` on `HTMLElement.prototype`, which needs a host environment. `SrcFacade.DefineAll` covers the call with a prototype probe.
- `Object.defineProperty`/`defineProperties` are modelled through their effect on the element's own-property map.
  - Redefining a non-configurable property with equal accessors succeeds, so `src` repeats do not throw.
  - Enumerability and configurability are not modelled.
  - Distinct accessors would make `defineProperty` throw. `lib` never reaches that case, because it checks `hasOwnProperty` first.
- The element's own `role` and `roleList` properties are kept in separate fields, not in `props`. `hasOwnProperty` in `lib` only sees the properties `attachAttributes` installs.
- The stub value types (`true/false/undefined`, ID reference, ID reference list, integer, number, string, token, token list) are modelled only as inert accessors, without their table `set`/`default` entries, which the code never reads.
- LibFacade.TristateRead: the getter's fallback value is a parameter. `createGetter` decides it with `arguments.length` inside an arrow function (line 367), which reads the arguments of the function that wraps the module. Under a CommonJS or bundler wrapper the fallback is `undefined` or `false`, depending on that function's arguments. Loaded natively as an ES module (line 492), there is no wrapper, and the getter fallback is never reached; see the next line.
- LibFacade.AttachRole, LibFacade.AttachKnownRole, LibFacade.AttachRoleAttributes: the no-error result for every known role assumes a loader whose wrapping function supplies `arguments`. Loaded natively as an ES module, `arguments` is unbound. `attachAttributes` calls `createGetter` at line 134, and that call throws a `ReferenceError` while installing a tristate attribute (`aria-pressed`, `aria-checked`). So `attachRole("button")` and `attachRole("checkbox")` throw there, after the properties before it are installed. The loader is not modelled.
- Setter values are `undefined`, `null`, booleans or strings. Numbers and objects, with their own `String()` conversions, are not modelled.
- The `role` setter accepts only a string or `null`.
- A role or attribute name inherited from `Object.prototype` (such as `"constructor"`) is not modelled. The JavaScript lookups `this.roles[role]` and `this.attributes[name]` would find it.
- The `superclass` walk is proved to end on tables ranked along their links. Both shipped tables are ranked. On a cyclic table the JavaScript loop would run forever.
- RoleProperty.DefineRoleListProperty requires that the element has no role list yet. The code only calls it when `element.roleList` is undefined.
- Exceptions are error values. Changes made before the throw stay, as they do in JavaScript.
- Both `attachRole` models keep the getter as written; they do not use the corrected one.

## Findings

| source | as written | input that shows it | evidently intended | confidence | as-written member | corrected member |
|---|---|---|---|---|---|---|
| lib/reflected-aria-attributes.js:82-89 | the `roleList` getter compares the live `role` attribute with `cache.attr`; that value is set once, when the property is defined, and never refreshed | an element without `role`: read `roleList`, then `add("x")`, which writes `role="x"`; then remove the attribute. The live value, `null`, equals the cached `null`, so the stale list is returned and `element.role` is still "x" | re-parse whenever the live attribute differs from the list's own string, so list and attribute agree after every read | not executed | RoleProperty.StaleRoleListScenario | RoleProperty.RoleListGetSynced |
