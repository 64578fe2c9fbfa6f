/**
  The host element and the `RoleList` class bound to it.

  The element is modelled by what the reflection code touches: its string
  attributes (`getAttribute`/`setAttribute`/`hasAttribute`/`removeAttribute`),
  the accessor properties installed on it (by property name, with a tag that
  says which getter and setter were installed), the `roleList`/`role`
  property pair with its cache record, and whether probing its `attributes`
  capability succeeds.
*/
module Host {
  import opened Wrappers
  import opened Tokens

  /** The `value` tags of the attribute table. */
  datatype ValueType =
    | TrueFalse | Tristate | TrueFalseUndefined | IdReference | IdReferenceList
    | Integer | Number | Text | Token | TokenList

  /** Which factory produced an installed getter: the type's `createGetter`,
      or its `createSetter` used in the getter's place. */
  datatype Getter = CreatedGetter(kind: ValueType) | SetterAsGetter(kind: ValueType)

  /** An installed accessor pair: in the later revision the getter tag and the
      value type whose `createSetter` made the setter; in the earlier revision
      the table entry's own getter/setter for attribute `attr`. */
  datatype Accessor =
    | LibAccessor(attr: string, getter: Getter, setter: ValueType)
    | SrcAccessor(attr: string)

  /** The outcome of evaluating `element.attributes`: a value, a falsy value
      (a prototype), or an exception (also treated as a prototype). */
  datatype Probe = Present | Absent | Throws

  /** `getAttribute`: the value, or `null` for an absent attribute. */
  function Lookup(attrs: map<string, string>, name: string): (r: Option<string>)
    ensures r.Some? <==> name in attrs
    ensures r.Some? ==> r.value == attrs[name]
  {
    if name in attrs then Some(attrs[name]) else None
  }

  /** A second write of `name` replaces the first. */
  lemma Overwrite(attrs: map<string, string>, name: string, first: string, second: string)
    ensures attrs[name := first][name := second] == attrs[name := second]
  {
  }

  class Element {
    var attrs: map<string, string>
    var props: map<string, Accessor>
    /** The cached role list once `roleList`/`role` are defined; `null` while
        `element.roleList` is still `undefined`. */
    var roleList: RoleList?
    /** The `attr` field of the cache record: the `role` attribute as it was
        read when the cache was made. */
    var cachedRole: Option<string>
    const probe: Probe

    ghost predicate Valid()
      reads this, roleList
    {
      roleList != null ==> roleList.element == this && roleList.Valid()
    }

    constructor (attrs: map<string, string>, probe: Probe)
      ensures this.attrs == attrs && this.probe == probe
      ensures props == map[] && roleList == null && cachedRole == None
      ensures Valid()
    {
      this.attrs := attrs;
      this.probe := probe;
      props := map[];
      roleList := null;
      cachedRole := None;
    }
  }

  /** An insertion-ordered set of role tokens whose serialisation is cached in
      `str` and written to the element's `role` attribute on every change. */
  class RoleList {
    var tokens: seq<string>
    var str: string
    const element: Element

    ghost predicate Valid()
      reads this
    {
      Distinct(tokens) && str == Joined(tokens)
    }

    /** `new RoleList(value, element)`. */
    constructor (value: Option<string>, element: Element)
      modifies element`attrs
      ensures this.element == element && Valid()
      ensures tokens == Parse(value)
      ensures element.attrs == old(element.attrs)["role" := str]
    {
      this.element := element;
      tokens := Parse(value);
      str := "";
      new;
      BuildString();
    }

    /** `toString()`. */
    method ToString() returns (s: string)
      requires Valid()
      ensures s == Joined(tokens)
    {
      s := str;
    }

    /** `add(role)`: appended when absent; a present token keeps its place. */
    method Add(role: string)
      requires Valid()
      modifies this, element`attrs
      ensures Valid()
      ensures tokens == AddToken(old(tokens), role)
      ensures role in tokens
      ensures role in old(tokens) ==> tokens == old(tokens) && str == old(str)
      ensures element.attrs == old(element.attrs)["role" := str]
    {
      if role !in tokens {
        tokens := tokens + [role];
      }
      BuildString();
    }

    /** `contains(role)`. */
    method Contains(role: string) returns (b: bool)
      ensures b <==> role in tokens
    {
      b := role in tokens;
    }

    /** `remove(role)`: never fails; the other tokens keep their order. */
    method Remove(role: string)
      requires Valid()
      modifies this, element`attrs
      ensures Valid()
      ensures tokens == Without(old(tokens), role)
      ensures role !in tokens
      ensures role !in old(tokens) ==> tokens == old(tokens)
      ensures element.attrs == old(element.attrs)["role" := str]
    {
      WithoutDistinct(tokens, role);
      if role !in tokens {
        WithoutAbsent(tokens, role);
      }
      tokens := Without(tokens, role);
      BuildString();
    }

    /** `update(value)`: the tokens are rebuilt from `value` as by the constructor. */
    method Update(value: Option<string>)
      modifies this, element`attrs
      ensures Valid()
      ensures tokens == Parse(value) && str == Canon(value)
      ensures element.attrs == old(element.attrs)["role" := str]
    {
      tokens := Parse(value);
      BuildString();
    }

    /** `item(nth)`: the token at zero-based position `nth`, or `undefined`
        when `nth` is past the end or negative (the loop never meets it). */
    method Item(nth: int) returns (r: Option<string>)
      ensures r.Some? <==> 0 <= nth < |tokens|
      ensures r.Some? ==> r.value == tokens[nth]
    {
      if nth > |tokens| - 1 {
        return None;
      }
      var i := 0;
      while i < |tokens|
        invariant 0 <= i <= |tokens|
        invariant nth < 0 || i <= nth
      {
        if i == nth {
          return Some(tokens[i]);
        }
        i := i + 1;
      }
      return None;
    }

    /** `_buildString`: joins the tokens into `str` and writes it to `role`. */
    method BuildString()
      modifies this`str, element`attrs
      ensures str == Joined(tokens)
      ensures element.attrs == old(element.attrs)["role" := str]
    {
      var s := "";
      var i := 0;
      while i < |tokens|
        invariant 0 <= i <= |tokens|
        invariant s == Joined(tokens[..i])
      {
        if s != "" {
          s := s + " ";
        }
        s := s + tokens[i];
        assert tokens[..i + 1][..i] == tokens[..i];
        i := i + 1;
      }
      assert tokens[..|tokens|] == tokens;
      str := s;
      element.attrs := element.attrs["role" := str];
    }
  }
}
