/**
  What the two revisions share about their configuration tables: a role
  descriptor with an optional `superclass` and a list of attribute names, the
  walk up the `superclass` chain that `attachRole` performs to merge those
  lists, and the `Unknown attribute` error of `attachAttributes`.
*/
module Tables {
  import opened Wrappers

  datatype RoleDesc = RoleDesc(superclass: Option<string>, attributes: seq<string>)

  type RoleMap = map<string, RoleDesc>

  /** The role the walk moves to from `name`: its `superclass`, when that
      names an entry of the table (`this.roles[desc.superclass]` is truthy). */
  function SuperOf(roles: RoleMap, name: string): (r: Option<string>)
    requires name in roles
    ensures r.Some? ==> r.value in roles
  {
    match roles[name].superclass
    case Some(p) => if p in roles then Some(p) else None
    case None => None
  }

  /** `rank` strictly decreases along every `superclass` link, so the walk
      ends. The JavaScript loop would run forever on a cyclic table. */
  predicate Ranked(roles: RoleMap, rank: map<string, nat>) {
    (forall n :: n in roles ==> n in rank)
    && (forall n :: n in roles && SuperOf(roles, n).Some? ==> rank[SuperOf(roles, n).value] < rank[n])
  }

  /** The names the walk visits, starting at `name`. */
  function Ancestors(roles: RoleMap, rank: map<string, nat>, name: string): seq<string>
    requires Ranked(roles, rank)
    decreases if name in rank then rank[name] else 0
  {
    if name !in roles then []
    else [name] + match SuperOf(roles, name) {
      case Some(p) => Ancestors(roles, rank, p)
      case None => []
    }
  }

  /** The concatenation of the `attributes` lists of `names`, in order. */
  function AttributesOf(roles: RoleMap, names: seq<string>): seq<string>
    requires forall i :: 0 <= i < |names| ==> names[i] in roles
  {
    if names == [] then [] else roles[names[0]].attributes + AttributesOf(roles, names[1..])
  }

  /** The merged attribute list the walk builds for `name`. */
  function Lineage(roles: RoleMap, rank: map<string, nat>, name: string): seq<string>
    requires Ranked(roles, rank)
    decreases if name in rank then rank[name] else 0
  {
    if name !in roles then []
    else roles[name].attributes + match SuperOf(roles, name) {
      case Some(p) => Lineage(roles, rank, p)
      case None => []
    }
  }

  /** The walk visits `name` first, then follows `superclass` link by link, and
      stops at the first role whose `superclass` is not in the table. */
  lemma {:induction false} AncestorsChain(roles: RoleMap, rank: map<string, nat>, name: string)
    requires Ranked(roles, rank)
    ensures var a := Ancestors(roles, rank, name);
      (name in roles <==> a != [])
      && (forall i :: 0 <= i < |a| ==> a[i] in roles)
      && (a != [] ==> a[0] == name && SuperOf(roles, a[|a| - 1]) == None)
      && (forall i :: 0 <= i < |a| - 1 ==> SuperOf(roles, a[i]) == Some(a[i + 1]))
    decreases if name in rank then rank[name] else 0
  {
    if name in roles {
      var a := Ancestors(roles, rank, name);
      match SuperOf(roles, name) {
        case Some(p) =>
          AncestorsChain(roles, rank, p);
          var b := Ancestors(roles, rank, p);
          assert a == [name] + b;
          forall i | 0 <= i < |a| - 1 ensures SuperOf(roles, a[i]) == Some(a[i + 1]) {
            if i > 0 { assert a[i] == b[i - 1] && a[i + 1] == b[i]; }
          }
        case None =>
      }
    }
  }

  /** The merged list is the concatenation of the `attributes` of the role and
      of every ancestor, in walk order. */
  lemma {:induction false} LineageIsAncestorAttributes(roles: RoleMap, rank: map<string, nat>, name: string)
    requires Ranked(roles, rank)
    ensures forall i :: 0 <= i < |Ancestors(roles, rank, name)| ==> Ancestors(roles, rank, name)[i] in roles
    ensures Lineage(roles, rank, name) == AttributesOf(roles, Ancestors(roles, rank, name))
    decreases if name in rank then rank[name] else 0
  {
    AncestorsChain(roles, rank, name);
    if name in roles {
      var a := Ancestors(roles, rank, name);
      match SuperOf(roles, name) {
        case Some(p) =>
          LineageIsAncestorAttributes(roles, rank, p);
          assert a[1..] == Ancestors(roles, rank, p);
        case None =>
          assert a[1..] == [];
      }
    }
  }

  /** When every role lists only names from `known`, so does every merged
      list. */
  lemma {:induction false} LineageWithin(roles: RoleMap, rank: map<string, nat>, name: string, known: set<string>)
    requires Ranked(roles, rank)
    requires forall r, i :: r in roles && 0 <= i < |roles[r].attributes| ==> roles[r].attributes[i] in known
    ensures forall i :: 0 <= i < |Lineage(roles, rank, name)| ==> Lineage(roles, rank, name)[i] in known
    decreases if name in rank then rank[name] else 0
  {
    if name in roles {
      var own := roles[name].attributes;
      match SuperOf(roles, name) {
        case Some(p) =>
          LineageWithin(roles, rank, p, known);
          var up := Lineage(roles, rank, p);
          assert Lineage(roles, rank, name) == own + up;
          forall i | 0 <= i < |own + up| ensures (own + up)[i] in known {
            if i >= |own| { assert (own + up)[i] == up[i - |own|]; }
          }
        case None =>
          assert Lineage(roles, rank, name) == own + [];
          assert own + [] == own;
      }
    }
  }

  /** The walk of `attachRole`: starting from `roles[role]`, concatenate the
      descriptor's `attributes`, then move to `roles[desc.superclass]`, while
      the descriptor is defined. */
  method MergeAttributes(roles: RoleMap, ghost rank: map<string, nat>, role: string) returns (merged: seq<string>)
    requires Ranked(roles, rank)
    ensures merged == Lineage(roles, rank, role)
  {
    merged := [];
    var current: Option<string> := if role in roles then Some(role) else None;
    while current.Some?
      invariant current.Some? ==> current.value in roles
      invariant merged + (if current.Some? then Lineage(roles, rank, current.value) else [])
        == Lineage(roles, rank, role)
      decreases if current.Some? then rank[current.value] + 1 else 0
    {
      var desc := roles[current.value];
      merged := merged + desc.attributes;
      current := SuperOf(roles, current.value);
    }
  }

  /** The message `attachAttributes` throws for a name missing from its table. */
  function UnknownAttribute(name: string): string {
    "Unknown attribute: " + name
  }

  /** The number of leading names that are in `known`: how far
      `attachAttributes` gets before it throws. */
  function KnownPrefix(known: set<string>, names: seq<string>): (n: nat)
    ensures n <= |names|
    ensures forall i :: 0 <= i < n ==> names[i] in known
    ensures n < |names| ==> names[n] !in known
  {
    if names == [] || names[0] !in known then 0 else 1 + KnownPrefix(known, names[1..])
  }
}
