/**
  The pure string work behind `RoleList`: `RoleList._splitRoles` (trim, then
  split on runs of whitespace), the de-duplication a `Set` performs when it is
  built from an array, the string `_buildString` accumulates, and the set
  operations `add`/`delete` on an insertion-ordered set.
*/
module Tokens {
  import opened Wrappers

  /** A JavaScript WhiteSpace or LineTerminator code point: exactly what
      `String.prototype.trim` strips and what the regular-expression class `\s` matches. */
  predicate IsSpace(c: char) {
    c == ' ' || c == '\t' || c == '\n' || c == '\r' || c == '\U{000B}' || c == '\U{000C}'
    || c == '\U{00A0}' || c == '\U{1680}' || ('\U{2000}' <= c <= '\U{200A}')
    || c == '\U{2028}' || c == '\U{2029}' || c == '\U{202F}' || c == '\U{205F}'
    || c == '\U{3000}' || c == '\U{FEFF}'
  }

  predicate NoSpace(s: string) {
    forall i :: 0 <= i < |s| ==> !IsSpace(s[i])
  }

  /** A token as the parser produces it from a string that is not all whitespace. */
  predicate WellFormed(t: string) {
    t != "" && NoSpace(t)
  }

  /** A non-empty lower-case word is a well-formed token. */
  lemma LowerWordWellFormed(w: string)
    requires w != [] && forall i :: 0 <= i < |w| ==> 'a' <= w[i] <= 'z'
    ensures WellFormed(w)
  {
  }

  predicate AllWellFormed(ts: seq<string>) {
    forall i :: 0 <= i < |ts| ==> WellFormed(ts[i])
  }

  predicate Distinct(ts: seq<string>) {
    forall i, j :: 0 <= i < j < |ts| ==> ts[i] != ts[j]
  }

  /** Drops the maximal run of leading whitespace. */
  function TrimStart(s: string): (r: string)
    ensures |r| <= |s| && r == s[|s| - |r|..]
    ensures forall i :: 0 <= i < |s| - |r| ==> IsSpace(s[i])
    ensures r == [] || !IsSpace(r[0])
  {
    if s != [] && IsSpace(s[0]) then TrimStart(s[1..]) else s
  }

  /** Drops the maximal run of trailing whitespace. */
  function TrimEnd(s: string): (r: string)
    ensures |r| <= |s| && r == s[..|r|]
    ensures forall i :: |r| <= i < |s| ==> IsSpace(s[i])
    ensures r == [] || !IsSpace(r[|r| - 1])
  {
    if s != [] && IsSpace(s[|s| - 1]) then TrimEnd(s[..|s| - 1]) else s
  }

  /** `s.trim()`. */
  function Trim(s: string): (r: string)
    ensures r == [] || (!IsSpace(r[0]) && !IsSpace(r[|r| - 1]))
  {
    var t := TrimStart(s);
    var r := TrimEnd(t);
    assert r != [] ==> r[0] == t[0];
    r
  }

  /** `s.split(/\s+/g)`: the fields between maximal runs of whitespace. A
      leading or trailing run yields an empty first or last field, and the
      empty string yields one empty field. Read from the front: a non-space
      character joins the first field of the rest, a space that starts a run
      opens a new (empty) first field, and a space followed by another space
      belongs to the same run. */
  function Split(s: string): (r: seq<string>)
    ensures |r| >= 1
    decreases |s|
  {
    if s == [] then [""]
    else
      var rest := Split(s[1..]);
      if !IsSpace(s[0]) then [[s[0]] + rest[0]] + rest[1..]
      else if |s| > 1 && IsSpace(s[1]) then rest
      else [""] + rest
  }

  /** `RoleList._splitRoles`: no tokens for a falsy value (`null`, `undefined`
      or the empty string), otherwise the fields of the trimmed string. */
  function SplitRoles(v: Option<string>): (r: seq<string>)
    ensures r == [] <==> v == None || v == Some("")
  {
    if v == None || v == Some("") then [] else Split(Trim(v.value))
  }

  /** The order a `Set` built from `ts` iterates in: first occurrences, in order. */
  function Dedup(ts: seq<string>): (r: seq<string>)
    ensures Distinct(r)
    ensures forall t :: t in r <==> t in ts
  {
    if ts == [] then []
    else
      var d := Dedup(ts[..|ts| - 1]);
      if ts[|ts| - 1] in d then d else d + [ts[|ts| - 1]]
  }

  /** The tokens of a `RoleList` built or updated from value `v`. */
  function Parse(v: Option<string>): seq<string> {
    Dedup(SplitRoles(v))
  }

  /** The string `_buildString` accumulates: each token is appended, preceded
      by one space whenever the accumulated string is non-empty. */
  function Joined(ts: seq<string>): (r: string)
    ensures r == "" <==> forall i :: 0 <= i < |ts| ==> ts[i] == ""
  {
    if ts == [] then ""
    else
      var acc := Joined(ts[..|ts| - 1]);
      (if acc != "" then acc + " " else acc) + ts[|ts| - 1]
  }

  /** The ordinary join with single spaces, `ts.join(" ")`. */
  function JoinSpace(ts: seq<string>): string {
    if ts == [] then ""
    else if |ts| == 1 then ts[0]
    else ts[0] + " " + JoinSpace(ts[1..])
  }

  /** The string a `RoleList` updated from `v` serialises to. */
  function Canon(v: Option<string>): string {
    Joined(Parse(v))
  }

  /** `Set.prototype.add` on an insertion-ordered set. */
  function AddToken(ts: seq<string>, t: string): (r: seq<string>)
    ensures forall x :: x in r <==> x in ts || x == t
    ensures |ts| <= |r| && r[..|ts|] == ts
  {
    if t in ts then ts else ts + [t]
  }

  /** `Set.prototype.delete` on an insertion-ordered set. */
  function Without(ts: seq<string>, t: string): (r: seq<string>)
    ensures forall x :: x in r <==> x in ts && x != t
  {
    if ts == [] then []
    else (if ts[0] == t then [] else [ts[0]]) + Without(ts[1..], t)
  }

  // ---------------------------------------------------------------------
  // Set operations

  lemma AddTokenKeeps(ts: seq<string>, t: string)
    requires Distinct(ts)
    ensures Distinct(AddToken(ts, t)) && t in AddToken(ts, t)
    ensures t in ts ==> AddToken(ts, t) == ts
    ensures forall k :: 0 <= k < |ts| ==> AddToken(ts, t)[k] == ts[k]
  {
  }

  /** Adding a well-formed token keeps every token well-formed. */
  lemma AddTokenWellFormed(ts: seq<string>, t: string)
    requires AllWellFormed(ts) && WellFormed(t)
    ensures AllWellFormed(AddToken(ts, t))
  {
  }

  /** Deleting an absent token changes nothing. */
  lemma {:induction false} WithoutAbsent(ts: seq<string>, t: string)
    requires t !in ts
    ensures Without(ts, t) == ts
  {
    if ts != [] {
      WithoutAbsent(ts[1..], t);
    }
  }

  /** Deleting a present token closes the gap it leaves and moves no other token. */
  lemma {:induction false} WithoutAt(ts: seq<string>, k: nat)
    requires Distinct(ts) && k < |ts|
    ensures Without(ts, ts[k]) == ts[..k] + ts[k + 1..]
  {
    if k == 0 {
      assert ts[0] !in ts[1..];
      WithoutAbsent(ts[1..], ts[0]);
    } else {
      WithoutAt(ts[1..], k - 1);
      assert ts[1..][k - 1] == ts[k];
      assert ts[..k] == [ts[0]] + ts[1..][..k - 1];
      assert ts[1..][k..] == ts[k + 1..];
    }
  }

  lemma WithoutDistinct(ts: seq<string>, t: string)
    requires Distinct(ts)
    ensures Distinct(Without(ts, t))
  {
    if t in ts {
      var k :| 0 <= k < |ts| && ts[k] == t;
      WithoutAt(ts, k);
      var r := ts[..k] + ts[k + 1..];
      forall i, j | 0 <= i < j < |r| ensures r[i] != r[j] {
        var i' := if i < k then i else i + 1;
        var j' := if j < k then j else j + 1;
        assert r[i] == ts[i'] && r[j] == ts[j'];
      }
    } else {
      WithoutAbsent(ts, t);
    }
  }

  // ---------------------------------------------------------------------
  // Joining

  lemma {:induction false} JoinSpaceSnoc(ts: seq<string>, t: string)
    requires ts != []
    ensures JoinSpace(ts + [t]) == JoinSpace(ts) + " " + t
  {
    if |ts| == 1 {
      assert (ts + [t])[1..] == [t];
    } else {
      assert (ts + [t])[1..] == ts[1..] + [t];
      JoinSpaceSnoc(ts[1..], t);
    }
  }

  /** The accumulated string is the ordinary single-space join whenever no
      token is empty. */
  lemma {:induction false} JoinedIsJoinSpace(ts: seq<string>)
    requires forall i :: 0 <= i < |ts| ==> ts[i] != ""
    ensures Joined(ts) == JoinSpace(ts)
  {
    if |ts| > 1 {
      var p := ts[..|ts| - 1];
      JoinedIsJoinSpace(p);
      assert Joined(p) != "" by {
        var q := p[..|p| - 1];
        assert Joined(p) == (if Joined(q) != "" then Joined(q) + " " else Joined(q)) + p[|p| - 1];
      }
      JoinSpaceSnoc(p, ts[|ts| - 1]);
      assert p + [ts[|ts| - 1]] == ts;
    } else if |ts| == 1 {
      assert ts[..0] == [];
    }
  }

  /** An empty first token is written without a separator after it, so the
      accumulated string and the single-space join part ways there. */
  lemma LeadingEmptyTokenLosesSeparator()
    ensures Joined(["", "b"]) == "b"
    ensures JoinSpace(["", "b"]) == " b"
  {
    assert ["", "b"][..1] == [""];
    assert [""][..0] == [];
  }

  lemma {:induction false} JoinSpaceEnds(ts: seq<string>)
    requires ts != [] && AllWellFormed(ts)
    ensures JoinSpace(ts) != ""
    ensures JoinSpace(ts)[0] == ts[0][0]
    ensures JoinSpace(ts)[|JoinSpace(ts)| - 1] == ts[|ts| - 1][|ts[|ts| - 1]| - 1]
  {
    if |ts| > 1 {
      assert AllWellFormed(ts[1..]) by {
        forall i | 0 <= i < |ts| - 1 ensures WellFormed(ts[1..][i]) {
          assert ts[1..][i] == ts[i + 1];
        }
      }
      JoinSpaceEnds(ts[1..]);
    }
  }

  lemma TrimUntouched(s: string)
    requires s != [] && !IsSpace(s[0]) && !IsSpace(s[|s| - 1])
    ensures Trim(s) == s
  {
    assert TrimStart(s) == s;
    assert TrimEnd(s) == s;
  }

  // ---------------------------------------------------------------------
  // Splitting

  /** Splitting a space-free prefix glues it onto the first field of the
      rest and leaves the other fields alone. */
  lemma {:induction false} SplitPrefix(t: string, rest: string)
    requires NoSpace(t)
    ensures Split(t + rest)[0] == t + Split(rest)[0]
    ensures Split(t + rest)[1..] == Split(rest)[1..]
    decreases |t|
  {
    if t == [] {
      assert t + rest == rest;
      assert t + Split(rest)[0] == Split(rest)[0];
    } else {
      SplitPrefix(t[1..], rest);
      SplitPrefixStep(t, rest);
    }
  }

  /** One step of `SplitPrefix`: the first character of `t` joins the field
      the rest of `t` already starts. */
  lemma SplitPrefixStep(t: string, rest: string)
    requires t != [] && !IsSpace(t[0])
    requires Split(t[1..] + rest)[0] == t[1..] + Split(rest)[0]
    requires Split(t[1..] + rest)[1..] == Split(rest)[1..]
    ensures Split(t + rest)[0] == t + Split(rest)[0]
    ensures Split(t + rest)[1..] == Split(rest)[1..]
  {
    UnconsAppend(t, rest);
    SplitCons(t[0], t[1..] + rest);
    UnconsAppend(t, Split(rest)[0]);
  }

  lemma UnconsAppend(t: string, x: string)
    requires t != []
    ensures t + x == [t[0]] + (t[1..] + x)
  {
  }

  /** A non-space character joins the first field of what follows it. */
  lemma SplitCons(c: char, w: string)
    requires !IsSpace(c)
    ensures Split([c] + w)[0] == [c] + Split(w)[0]
    ensures Split([c] + w)[1..] == Split(w)[1..]
  {
    var u := [c] + w;
    assert u[0] == c && u[1..] == w;
  }

  /** Splitting the single-space join of parser-shaped tokens gives them back. */
  lemma {:induction false} SplitJoinSpace(ts: seq<string>)
    requires ts != [] && AllWellFormed(ts)
    ensures Split(JoinSpace(ts)) == ts
  {
    if |ts| == 1 {
      SplitPrefix(ts[0], "");
      assert ts[0] + "" == ts[0];
      var f := Split(ts[0]);
      assert f == [f[0]] + f[1..];
    } else {
      var rs := ts[1..];
      assert AllWellFormed(rs) by {
        forall i | 0 <= i < |rs| ensures WellFormed(rs[i]) {
          assert rs[i] == ts[i + 1];
        }
      }
      var r := JoinSpace(rs);
      JoinSpaceEnds(rs);
      SplitJoinSpace(rs);
      var sp := " " + r;
      assert sp[0] == ' ' && sp[1..] == r && !IsSpace(sp[1]);
      assert Split(sp) == [""] + rs;
      assert JoinSpace(ts) == ts[0] + sp;
      SplitPrefix(ts[0], sp);
      assert ts[0] + "" == ts[0];
      var f := Split(JoinSpace(ts));
      assert f[1..] == rs;
      assert f == [f[0]] + f[1..];
      assert [ts[0]] + rs == ts;
    }
  }

  /** The fields of `fs`, written one after another. */
  function Concat(fs: seq<string>): string {
    if fs == [] then "" else fs[0] + Concat(fs[1..])
  }

  /** `s` with every whitespace character removed. */
  function NonSpace(s: string): string {
    if s == [] then "" else (if IsSpace(s[0]) then "" else [s[0]]) + NonSpace(s[1..])
  }

  /** `s` with each maximal run of whitespace replaced by one space: a
      whitespace character followed by another is dropped, and the last one
      of a run becomes ' '. */
  function Collapse(s: string): string {
    if s == [] then ""
    else if !IsSpace(s[0]) then [s[0]] + Collapse(s[1..])
    else if |s| > 1 && IsSpace(s[1]) then Collapse(s[1..])
    else " " + Collapse(s[1..])
  }

  /** A character glued to the first field shows up in front of the join. */
  lemma JoinSpaceConsHead(c: char, ts: seq<string>)
    requires ts != []
    ensures JoinSpace([[c] + ts[0]] + ts[1..]) == [c] + JoinSpace(ts)
  {
    var u := [[c] + ts[0]] + ts[1..];
    assert u[0] == [c] + ts[0] && u[1..] == ts[1..];
    if |ts| > 1 {
      assert ([c] + ts[0]) + " " + JoinSpace(ts[1..]) == [c] + (ts[0] + " " + JoinSpace(ts[1..]));
    }
  }

  /** The fields of a split, joined with single spaces, are the string with
      every whitespace run collapsed to one space. With `SplitNoSpace` this
      fixes where every field starts and ends. */
  lemma {:induction false} SplitCollapse(s: string)
    ensures JoinSpace(Split(s)) == Collapse(s)
    decreases |s|
  {
    if s != [] {
      SplitCollapse(s[1..]);
      var rest := Split(s[1..]);
      if !IsSpace(s[0]) {
        JoinSpaceConsHead(s[0], rest);
      } else if !(|s| > 1 && IsSpace(s[1])) {
        var u := [""] + rest;
        assert u[0] == "" && u[1..] == rest;
        assert "" + " " + JoinSpace(rest) == " " + JoinSpace(rest);
      }
    }
  }

  /** For example, a tab and a run of spaces each break a field. */
  lemma SplitAtTabAndRun()
    ensures Split("a\tb") == ["a", "b"]
    ensures Split("a  b") == ["a", "b"]
  {
    assert Split("") == [""] && [""][1..] == [];
    assert "b"[0] == 'b' && !IsSpace('b') && "b"[1..] == "";
    assert Split("b") == [['b'] + ""] + [];
    assert ['b'] + "" == "b";
    assert Split("b") == ["b"];
    assert "\tb"[1..] == "b" && Split("\tb") == ["", "b"];
    assert "a\tb"[0] == 'a' && "a\tb"[1..] == "\tb" && ['a'] + "" == "a";
    assert ["", "b"][1..] == ["b"];
    assert " b"[1..] == "b" && Split(" b") == ["", "b"];
    assert "  b"[1..] == " b" && Split("  b") == ["", "b"];
    assert "a  b"[1..] == "  b";
  }

  lemma ConcatCons(f: string, fs: seq<string>)
    ensures Concat([f] + fs) == f + Concat(fs)
  {
    assert ([f] + fs)[0] == f && ([f] + fs)[1..] == fs;
  }

  /** Splitting drops the whitespace and nothing else: the fields, written
      back to back, are the input with its whitespace removed, so no other
      character is lost, repeated or moved. */
  lemma {:induction false} SplitKeepsText(s: string)
    ensures Concat(Split(s)) == NonSpace(s)
    decreases |s|
  {
    if s == [] {
      ConcatCons("", []);
    } else {
      SplitKeepsText(s[1..]);
      var rest := Split(s[1..]);
      ConcatCons(rest[0], rest[1..]);
      assert [rest[0]] + rest[1..] == rest;
      if !IsSpace(s[0]) {
        ConcatCons([s[0]] + rest[0], rest[1..]);
        assert ([s[0]] + rest[0]) + Concat(rest[1..]) == [s[0]] + (rest[0] + Concat(rest[1..]));
      } else if |s| > 1 && IsSpace(s[1]) {
        assert "" + NonSpace(s[1..]) == NonSpace(s[1..]);
      } else {
        ConcatCons("", rest);
        assert "" + NonSpace(s[1..]) == NonSpace(s[1..]);
      }
    }
  }

  /** No field of a split contains whitespace. */
  lemma {:induction false} SplitNoSpace(s: string)
    ensures forall i :: 0 <= i < |Split(s)| ==> NoSpace(Split(s)[i])
    decreases |s|
  {
    if s != [] {
      SplitNoSpace(s[1..]);
      var rest := Split(s[1..]);
      var r := Split(s);
      if !IsSpace(s[0]) {
        assert NoSpace([s[0]] + rest[0]);
        forall i | 0 <= i < |r| ensures NoSpace(r[i]) {
          if i > 0 { assert r[i] == rest[i]; }
        }
      } else if !(|s| > 1 && IsSpace(s[1])) {
        forall i | 0 <= i < |r| ensures NoSpace(r[i]) {
          if i > 0 { assert r[i] == rest[i - 1]; }
        }
      }
    }
  }

  /** A string that ends in a non-space character has no empty field after
      the first. */
  lemma {:induction false} SplitTailNonEmpty(s: string)
    requires s != [] && !IsSpace(s[|s| - 1])
    ensures forall i :: 1 <= i < |Split(s)| ==> Split(s)[i] != ""
    decreases |s|
  {
    var r := Split(s);
    if |s| == 1 {
      assert Split(s[1..]) == [""];
    } else {
      var rest := Split(s[1..]);
      assert s[1..][|s[1..]| - 1] == s[|s| - 1];
      SplitTailNonEmpty(s[1..]);
      if !IsSpace(s[0]) {
        forall i | 1 <= i < |r| ensures r[i] != "" {
          assert r[i] == rest[i];
        }
      } else if !IsSpace(s[1]) {
        assert rest[0] != "";
        forall i | 1 <= i < |r| ensures r[i] != "" {
          assert r[i] == rest[i - 1];
        }
      }
    }
  }

  /** A string whose first and last characters are not whitespace splits into
      non-empty fields only. */
  lemma SplitNonEmpty(s: string)
    requires s != [] && !IsSpace(s[0]) && !IsSpace(s[|s| - 1])
    ensures forall i :: 0 <= i < |Split(s)| ==> Split(s)[i] != ""
  {
    SplitTailNonEmpty(s);
    assert Split(s)[0] != "";
  }

  // ---------------------------------------------------------------------
  // Parsing

  lemma {:induction false} DedupOfDistinct(ts: seq<string>)
    requires Distinct(ts)
    ensures Dedup(ts) == ts
  {
    if ts != [] {
      var p := ts[..|ts| - 1];
      DedupOfDistinct(p);
      assert ts[|ts| - 1] !in p;
      assert p + [ts[|ts| - 1]] == ts;
    }
  }

  /** The position of the first occurrence of `t` in `ts`. */
  function FirstIndex(ts: seq<string>, t: string): (n: nat)
    requires t in ts
    ensures n < |ts| && ts[n] == t && t !in ts[..n]
  {
    if ts[0] == t then 0
    else
      var n := 1 + FirstIndex(ts[1..], t);
      assert ts[..n] == [ts[0]] + ts[1..][..n - 1];
      n
  }

  /** A position holding `t` with no earlier `t` is the first occurrence. */
  lemma FirstIndexUnique(ts: seq<string>, t: string, n: nat)
    requires n < |ts| && ts[n] == t && t !in ts[..n]
    ensures FirstIndex(ts, t) == n
  {
  }

  /** Appending an element does not move an earlier first occurrence. */
  lemma FirstIndexSnoc(p: seq<string>, x: string, y: string)
    requires y in p
    ensures y in p + [x] && FirstIndex(p + [x], y) == FirstIndex(p, y)
  {
    var n := FirstIndex(p, y);
    assert (p + [x])[..n] == p[..n];
    FirstIndexUnique(p + [x], y, n);
  }

  /** `Dedup` lists the members in the order of their first occurrences, as a
      `Set` built from an array iterates them: with `Distinct` and the same
      members, this fixes the result. */
  lemma {:induction false} DedupFirstOccurrence(ts: seq<string>)
    ensures forall i, j :: 0 <= i < j < |Dedup(ts)| ==>
      FirstIndex(ts, Dedup(ts)[i]) < FirstIndex(ts, Dedup(ts)[j])
  {
    if ts != [] {
      var p, x := ts[..|ts| - 1], ts[|ts| - 1];
      assert ts == p + [x];
      DedupFirstOccurrence(p);
      var d, r := Dedup(p), Dedup(ts);
      forall i, j | 0 <= i < j < |r| ensures FirstIndex(ts, r[i]) < FirstIndex(ts, r[j]) {
        FirstIndexSnoc(p, x, r[i]);
        if j < |d| {
          FirstIndexSnoc(p, x, r[j]);
        } else {
          assert r[j] == x && x !in p;
          assert ts[..|p|] == p;
          FirstIndexUnique(ts, x, |p|);
        }
      }
    }
  }

  lemma DedupWellFormed(ts: seq<string>)
    requires AllWellFormed(ts)
    ensures AllWellFormed(Dedup(ts))
  {
    var d := Dedup(ts);
    forall i | 0 <= i < |d| ensures WellFormed(d[i]) {
      assert d[i] in ts;
    }
  }

  /** The tokens `_splitRoles` yields are parser-shaped, except for one case: a
      non-empty string made only of whitespace trims to "", and "" splits into
      a single empty field. */
  lemma ParsedShape(v: Option<string>)
    ensures AllWellFormed(SplitRoles(v)) <==> !(v.Some? && v.value != "" && Trim(v.value) == "")
    ensures (v.Some? && v.value != "" && Trim(v.value) == "") ==> Parse(v) == [""]
    ensures AllWellFormed(Parse(v))  <==> !(v.Some? && v.value != "" && Trim(v.value) == "")
  {
    if v.Some? && v.value != "" {
      StringShape(v.value);
    } else {
      assert SplitRoles(v) == [];
      assert Parse(v) == [];
    }
  }

  /** The same facts for a non-empty string. */
  lemma StringShape(s: string)
    requires s != ""
    ensures AllWellFormed(SplitRoles(Some(s))) <==> Trim(s) != ""
    ensures Trim(s) == "" ==> Parse(Some(s)) == [""]
    ensures AllWellFormed(Parse(Some(s))) <==> Trim(s) != ""
  {
    NonEmptyFields(s);
    FieldsShape(Trim(s));
  }

  /** A non-empty string is parsed from its trimmed fields. */
  lemma NonEmptyFields(s: string)
    requires s != ""
    ensures SplitRoles(Some(s)) == Split(Trim(s))
    ensures Parse(Some(s)) == Dedup(Split(Trim(s)))
  {
    var v := Some(s);
    assert v != None && v != Some("");
    assert SplitRoles(v) == Split(Trim(v.value));
  }

  /** The same facts about the fields of an already trimmed string. */
  lemma FieldsShape(t: string)
    requires t == [] || (!IsSpace(t[0]) && !IsSpace(t[|t| - 1]))
    ensures AllWellFormed(Split(t)) <==> t != ""
    ensures t == "" ==> Dedup(Split(t)) == [""]
    ensures AllWellFormed(Dedup(Split(t))) <==> t != ""
  {
    if t != "" {
      TrimmedFieldsWellFormed(t);
    } else {
      EmptyStringFields();
    }
  }

  lemma TrimmedFieldsWellFormed(t: string)
    requires t != [] && !IsSpace(t[0]) && !IsSpace(t[|t| - 1])
    ensures AllWellFormed(Split(t)) && AllWellFormed(Dedup(Split(t)))
  {
    SplitNonEmpty(t);
    SplitNoSpace(t);
    var fs := Split(t);
    assert AllWellFormed(fs) by {
      forall i | 0 <= i < |fs| ensures WellFormed(fs[i]) { }
    }
    DedupWellFormed(fs);
  }

  lemma EmptyStringFields()
    ensures Split("") == [""] && Dedup([""]) == [""]
    ensures !AllWellFormed([""])
  {
    assert [""][..0] == [];
    assert !WellFormed([""][0]);
  }

  /** Round trip: parsing the serialisation of parser-shaped distinct tokens
      gives the same tokens, in the same order. */
  lemma ParseJoined(ts: seq<string>)
    requires AllWellFormed(ts) && Distinct(ts)
    ensures Parse(Some(Joined(ts))) == ts
  {
    if ts != [] {
      JoinedIsJoinSpace(ts);
      var j := JoinSpace(ts);
      JoinSpaceEnds(ts);
      var first, last := ts[0], ts[|ts| - 1];
      assert WellFormed(first) && WellFormed(last);
      assert !IsSpace(first[0]) && !IsSpace(last[|last| - 1]);
      TrimUntouched(j);
      SplitJoinSpace(ts);
      DedupOfDistinct(ts);
      NonEmptyFields(j);
    }
  }

  /** `update(s)` then `toString()`: the fields of the trimmed string, later
      duplicates dropped, joined by single spaces. */
  lemma CanonCollapses(s: string)
    ensures Canon(Some(s)) == JoinSpace(Dedup(Split(Trim(s))))
  {
    if Trim(s) == "" {
      BlankCanon(s);
      BlankFields(s);
    } else {
      FieldsCanon(s);
    }
  }

  /** An empty or all-whitespace value serialises to "". */
  lemma BlankCanon(s: string)
    requires Trim(s) == ""
    ensures Canon(Some(s)) == ""
  {
    EmptyStringFields();
    EmptyFieldCanon();
    if s != "" {
      assert SplitRoles(Some(s)) == Split("");
      assert Parse(Some(s)) == [""];
    }
  }

  /** ... and so does the single-space join of its one empty field. */
  lemma BlankFields(s: string)
    requires Trim(s) == ""
    ensures JoinSpace(Dedup(Split(Trim(s)))) == ""
  {
    EmptyStringFields();
    assert JoinSpace([""]) == "";
  }

  /** A value with some non-space character serialises to the single-space
      join of its deduplicated fields. */
  lemma FieldsCanon(s: string)
    requires Trim(s) != ""
    ensures Canon(Some(s)) == JoinSpace(Dedup(Split(Trim(s))))
  {
    ParsedShape(Some(s));
    var d := Parse(Some(s));
    assert forall i :: 0 <= i < |d| ==> d[i] != "" by {
      assert AllWellFormed(d);
    }
    JoinedIsJoinSpace(d);
  }

  /** Whatever string is parsed, a string already serialised by a `RoleList`
      parses back to itself: updating from `toString()` is idempotent. */
  lemma CanonIdempotent(v: Option<string>)
    ensures Canon(Some(Canon(v))) == Canon(v)
    ensures Parse(v) != [""] ==> Parse(Some(Canon(v))) == Parse(v)
  {
    var d := Parse(v);
    ParsedShape(v);
    if AllWellFormed(d) {
      ParseJoined(d);
      assert Parse(Some(Joined(d))) == d;
    } else {
      EmptyFieldCanon();
    }
  }

  lemma EmptyFieldCanon()
    ensures Joined([""]) == ""
    ensures Parse(Some("")) == []
  {
    assert [""][..0] == [];
  }

  /** A single parser-shaped token parses to itself. */
  lemma ParseSingle(t: string)
    requires WellFormed(t)
    ensures Joined([t]) == t && Parse(Some(t)) == [t]
  {
    assert [t][..0] == [];
    ParseJoined([t]);
  }

  /** Distinct well-formed tokens joined by single spaces are left as they
      are by `update` and `toString()`. */
  lemma CanonOfNormalised(ts: seq<string>)
    requires AllWellFormed(ts) && Distinct(ts)
    ensures Canon(Some(JoinSpace(ts))) == JoinSpace(ts)
  {
    JoinedIsJoinSpace(ts);
    ParseJoined(ts);
  }

  // ---------------------------------------------------------------------
  // A token survives the round trip among any other tokens

  /** The text before `w` is empty or ends in whitespace, and the text after
      it is empty or starts with whitespace. */
  predicate Isolated(a: string, b: string) {
    (a == "" || IsSpace(a[|a| - 1])) && (b == "" || IsSpace(b[0]))
  }

  /** Each non-empty token of `ts` stands in `Joined(ts)` between the ends of
      the string and the single spaces the fold writes. */
  lemma {:induction false} JoinedAround(ts: seq<string>, w: string) returns (a: string, b: string)
    requires w in ts && w != ""
    ensures Joined(ts) == a + w + b && Isolated(a, b)
  {
    var init, last := ts[..|ts| - 1], ts[|ts| - 1];
    assert ts == init + [last];
    var acc := Joined(init);
    if w == last {
      a, b := if acc != "" then acc + " " else acc, "";
      assert Joined(ts) == a + w + b;
    } else {
      assert w in init;
      var a0, b0 := JoinedAround(init, w);
      assert acc == a0 + w + b0;
      assert acc != "" by { assert |acc| >= |w| > 0; }
      a, b := a0, b0 + " " + last;
      assert Joined(ts) == acc + " " + last;
      assert (b0 + " " + last)[0] == if b0 == "" then ' ' else b0[0];
    }
  }

  /** Trimming cannot reach into a well-formed token, so it stays isolated. */
  lemma TrimAround(a: string, w: string, b: string) returns (a2: string, b2: string)
    requires WellFormed(w) && Isolated(a, b)
    ensures Trim(a + w + b) == a2 + w + b2 && Isolated(a2, b2)
  {
    assert !IsSpace(w[0]) && !IsSpace(w[|w| - 1]);
    a2 := TrimStartAround(a, w, b);
    b2 := TrimEndAround(a2, w, b);
  }

  lemma {:induction false} TrimStartAround(a: string, w: string, b: string) returns (a2: string)
    requires w != "" && !IsSpace(w[0]) && (a == "" || IsSpace(a[|a| - 1]))
    ensures TrimStart(a + w + b) == a2 + w + b && (a2 == "" || IsSpace(a2[|a2| - 1]))
    decreases |a|
  {
    var s := a + w + b;
    if a == "" {
      assert s == w + b && s[0] == w[0];
      assert TrimStart(s) == s;
      a2 := a;
    } else {
      assert s[0] == a[0];
      if IsSpace(a[0]) {
        var a1 := a[1..];
        assert s[1..] == a1 + w + b;
        assert a1 == "" || a1[|a1| - 1] == a[|a| - 1];
        a2 := TrimStartAround(a1, w, b);
      } else {
        assert TrimStart(s) == s;
        a2 := a;
      }
    }
  }

  lemma {:induction false} TrimEndAround(a: string, w: string, b: string) returns (b2: string)
    requires w != "" && !IsSpace(w[|w| - 1]) && (b == "" || IsSpace(b[0]))
    ensures TrimEnd(a + w + b) == a + w + b2 && (b2 == "" || IsSpace(b2[0]))
    decreases |b|
  {
    var s := a + w + b;
    if b == "" {
      assert s == a + w && s[|s| - 1] == w[|w| - 1];
      assert TrimEnd(s) == s;
      b2 := b;
    } else {
      assert s[|s| - 1] == b[|b| - 1];
      if IsSpace(b[|b| - 1]) {
        var b1 := b[..|b| - 1];
        assert s[..|s| - 1] == a + w + b1;
        assert b1 == "" || b1[0] == b[0];
        b2 := TrimEndAround(a, w, b1);
      } else {
        assert TrimEnd(s) == s;
        b2 := b;
      }
    }
  }

  /** Whitespace at the front opens an empty first field. */
  lemma {:induction false} SplitSpaceHead(s: string)
    requires s != "" && IsSpace(s[0])
    ensures Split(s)[0] == ""
    decreases |s|
  {
    if |s| > 1 && IsSpace(s[1]) {
      SplitSpaceHead(s[1..]);
    }
  }

  /** A well-formed token followed by nothing or by whitespace is the first
      field. */
  lemma SplitTokenFirst(w: string, b: string)
    requires WellFormed(w) && (b == "" || IsSpace(b[0]))
    ensures Split(w + b)[0] == w
  {
    SplitPrefix(w, b);
    if b == "" {
      assert Split(b) == [""];
    } else {
      SplitSpaceHead(b);
    }
    assert w + "" == w;
  }

  /** An isolated well-formed token is a field of the split: the first one
      when nothing precedes it, a later one otherwise. */
  lemma {:induction false} SplitAround(a: string, w: string, b: string)
    requires WellFormed(w) && Isolated(a, b)
    ensures a == "" ==> Split(a + w + b)[0] == w
    ensures a != "" ==> w in Split(a + w + b)[1..]
    decreases |a|
  {
    var s := a + w + b;
    if a == "" {
      assert s == w + b;
      SplitTokenFirst(w, b);
    } else {
      var a1 := a[1..];
      assert s[1..] == a1 + w + b;
      SplitAround(a1, w, b);
      var rest := Split(a1 + w + b);
      SplitStep(s, rest);
      if a1 == "" {
        assert s[1] == w[0];
      } else {
        assert s[1] == a1[0];
      }
    }
  }

  /** One step of `Split` from the front, for each kind of first character. */
  lemma SplitStep(s: string, rest: seq<string>)
    requires s != "" && rest == Split(s[1..])
    ensures !IsSpace(s[0]) ==> Split(s)[1..] == rest[1..]
    ensures IsSpace(s[0]) && |s| > 1 && IsSpace(s[1]) ==> Split(s) == rest
    ensures IsSpace(s[0]) && (|s| == 1 || !IsSpace(s[1])) ==> Split(s)[1..] == rest
  {
  }

  /** Whatever the other tokens are, a well-formed token of `ts` is among the
      tokens parsed back from `Joined(ts)`. */
  lemma JoinedKeepsToken(ts: seq<string>, w: string)
    requires w in ts && WellFormed(w)
    ensures w in Parse(Some(Joined(ts)))
  {
    var a, b := JoinedAround(ts, w);
    var a2, b2 := TrimAround(a, w, b);
    SplitAround(a2, w, b2);
    var j := Joined(ts);
    assert j != "" by { assert |j| >= |w| > 0; }
    NonEmptyFields(j);
    var fs := Split(Trim(j));
    assert w in fs by {
      if a2 == "" { assert fs[0] == w; } else { assert w in fs[1..]; }
    }
  }
}
