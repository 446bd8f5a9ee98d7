/** examples/05_retract_versions/main.go: the helpers behind the report of
    why a version was retracted.  isVersionInRange compares versions as
    strings, uniqueStrings removes repeated strings, and
    getRetractRationales collects the rationales of the retractions that
    concern a version. */
module RetractRationales {
  import opened Text
  import opened GoMod

  // ---------------------------------------------------------------------
  // isVersionInRange

  /** strings.TrimPrefix(s, "v"): at most one leading `v` removed. */
  function TrimPrefixV(s: string): (r: string)
    ensures s == (if HasPrefix(s, "v") then "v" else "") + r
  {
    if HasPrefix(s, "v") then s[1..] else s
  }

  /** isVersionInRange: without their leading `v`, low <= version <= high in
      Go's byte-wise string order. */
  predicate IsVersionInRange(version: string, low: string, high: string)
    ensures IsVersionInRange(version, low, high) ==> LessEq(TrimPrefixV(low), TrimPrefixV(high))
  {
    if LessEq(TrimPrefixV(low), TrimPrefixV(version)) && LessEq(TrimPrefixV(version), TrimPrefixV(high)) then
      LessEqTransitive(TrimPrefixV(low), TrimPrefixV(version), TrimPrefixV(high));
      true
    else false
  }

  /** The leading `v` is optional on each of the three versions. */
  lemma VersionPrefixOptional(version: string, low: string, high: string)
    requires !HasPrefix(version, "v") && !HasPrefix(low, "v") && !HasPrefix(high, "v")
    ensures IsVersionInRange("v" + version, low, high) == IsVersionInRange(version, low, high)
    ensures IsVersionInRange(version, "v" + low, high) == IsVersionInRange(version, low, high)
    ensures IsVersionInRange(version, low, "v" + high) == IsVersionInRange(version, low, high)
  {
    assert ("v" + version)[1..] == version && ("v" + low)[1..] == low && ("v" + high)[1..] == high;
  }

  /** Only one `v` is removed: `vv1` is compared as `v1`. */
  lemma OneVRemoved(s: string)
    requires HasPrefix(s, "v")
    ensures TrimPrefixV("v" + s) == s
  {
    assert ("v" + s)[1..] == s;
  }

  /** The range includes both of its ends. */
  lemma RangeIncludesEnds(low: string, high: string)
    requires LessEq(TrimPrefixV(low), TrimPrefixV(high))
    ensures IsVersionInRange(low, low, high) && IsVersionInRange(high, low, high)
  {
    LessEqReflexive(TrimPrefixV(low));
    LessEqReflexive(TrimPrefixV(high));
  }

  /** With empty bounds, only a version that is empty once its `v` is
      removed is in range. */
  lemma EmptyRange(version: string)
    ensures IsVersionInRange(version, "", "") <==> TrimPrefixV(version) == ""
  {
  }

  /** The comparison is not semantic versioning: v1.10.0 does not lie
      between v1.2.0 and v1.20.0. */
  lemma NotSemanticVersioning(version: string, low: string, high: string)
    requires version == "v1.10.0" && low == "v1.2.0" && high == "v1.20.0"
    ensures !IsVersionInRange(version, low, high)
  {
    var v, l := TrimPrefixV(version), TrimPrefixV(low);
    assert v == "1.10.0" && l == "1.2.0";
    assert l[..2] == v[..2] && l[2] > v[2];
    LessEqAtDifference(l, v, 2);
  }

  // ---------------------------------------------------------------------
  // uniqueStrings

  /** No string occurs twice. */
  predicate Distinct(xs: seq<string>) {
    forall i, j :: 0 <= i < j < |xs| ==> xs[i] != xs[j]
  }

  /** The strings of `xs` with repetitions removed, each at its first
      occurrence: what uniqueStrings returns. */
  function Unique(xs: seq<string>): (r: seq<string>)
    ensures forall x :: x in r <==> x in xs
    ensures Distinct(r)
    decreases |xs|
  {
    if xs == [] then []
    else
      var p, last := xs[..|xs| - 1], xs[|xs| - 1];
      assert xs == p + [last];
      var u := Unique(p);
      if last in u then u else u + [last]
  }

  /** uniqueStrings: a set of the strings seen so far, and the list of the
      first occurrences. */
  method UniqueStrings(strings: seq<string>) returns (list: seq<string>)
    ensures list == Unique(strings)
  {
    var keys: map<string, bool> := map[];
    list := [];
    var i := 0;
    while i < |strings|
      invariant 0 <= i <= |strings|
      invariant list == Unique(strings[..i])
      invariant forall k :: k in keys <==> k in list
    {
      var entry := strings[i];
      assert strings[..i + 1] == strings[..i] + [entry];
      if entry !in keys {
        keys := keys[entry := true];
        list := list + [entry];
      }
      i := i + 1;
    }
    assert strings[..i] == strings;
  }

  /** The index of the first occurrence of `x` in `xs`. */
  function FirstIndex(xs: seq<string>, x: string): (n: nat)
    requires x in xs
    ensures n < |xs| && xs[n] == x && x !in xs[..n]
    decreases |xs|
  {
    if xs[0] == x then 0
    else
      var k := FirstIndex(xs[1..], x);
      assert xs[..k + 1] == [xs[0]] + xs[1..][..k];
      k + 1
  }

  /** The first occurrence is the one with no earlier occurrence. */
  lemma FirstIndexIs(xs: seq<string>, x: string, n: nat)
    requires n < |xs| && xs[n] == x && x !in xs[..n]
    ensures FirstIndex(xs, x) == n
  {
    var m := FirstIndex(xs, x);
    assert xs[..n][m..] == xs[m..n] || m >= n;
    assert xs[..m][n..] == xs[n..m] || n >= m;
  }

  /** Appending leaves the first occurrences of the earlier strings. */
  lemma FirstIndexAppend(p: seq<string>, last: string, y: string)
    requires y in p
    ensures FirstIndex(p + [last], y) == FirstIndex(p, y)
  {
    var k := FirstIndex(p, y);
    assert (p + [last])[..k] == p[..k];
    FirstIndexIs(p + [last], y, k);
  }

  /** uniqueStrings keeps the order of first occurrences. */
  lemma {:induction false} UniqueKeepsOrder(xs: seq<string>)
    ensures forall i, j :: 0 <= i < j < |Unique(xs)| ==>
              FirstIndex(xs, Unique(xs)[i]) < FirstIndex(xs, Unique(xs)[j])
    decreases |xs|
  {
    if xs != [] {
      var p, last := xs[..|xs| - 1], xs[|xs| - 1];
      assert xs == p + [last];
      UniqueKeepsOrder(p);
      var u := Unique(p);
      forall y | y in u ensures FirstIndex(xs, y) == FirstIndex(p, y) {
        FirstIndexAppend(p, last, y);
      }
      if last !in u {
        assert p[..|p|] == p;
        FirstIndexIs(xs, last, |p|);
        assert Unique(xs) == u + [last];
        forall i, j | 0 <= i < j < |Unique(xs)|
          ensures FirstIndex(xs, Unique(xs)[i]) < FirstIndex(xs, Unique(xs)[j])
        {
          assert Unique(xs)[i] == u[i];
          if j < |u| { assert Unique(xs)[j] == u[j]; }
        }
      }
    }
  }

  /** The examples of uniqueStrings: repetitions go, the first of each stays. */
  lemma UniqueExample(a: string, b: string)
    requires a != b
    ensures Unique([a, b, a]) == [a, b]
  {
    assert [a][..0] == [];
    assert Unique([a]) == [a];
    assert [a, b][..1] == [a];
    assert Unique([a, b]) == [a, b];
    assert [a, b, a][..2] == [a, b];
  }

  // ---------------------------------------------------------------------
  // getRetractRationales

  /** A retraction that gives a reason for retracting `version`: a single
      version equal to it, or a range (the version is empty) that holds it,
      with a non-empty rationale in both cases. */
  predicate Concerns(r: Retract, version: string) {
    r.rationale != ""
    && if r.version != "" then r.version == version else IsVersionInRange(version, r.versionLow, r.versionHigh)
  }

  /** The rationales of the retractions that concern `version`, in order,
      repetitions included. */
  function Collected(rets: seq<Retract>, version: string): (r: seq<string>)
    ensures forall s :: s in r <==> exists i :: 0 <= i < |rets| && Concerns(rets[i], version) && rets[i].rationale == s
    decreases |rets|
  {
    if rets == [] then []
    else
      var p, last := rets[..|rets| - 1], rets[|rets| - 1];
      assert rets == p + [last];
      assert forall i :: 0 <= i < |p| ==> rets[i] == p[i];
      Collected(p, version) + (if Concerns(last, version) then [last.rationale] else [])
  }

  /** getRetractRationales, without the printing around it. */
  function Rationales(rets: seq<Retract>, version: string): (r: seq<string>)
    ensures forall x :: x in r <==> x in Collected(rets, version)
    ensures Distinct(r)
  {
    Unique(Collected(rets, version))
  }

  /** The loop of getRetractRationales, then uniqueStrings. */
  method GetRetractRationales(mod: Module, version: string) returns (result: seq<string>)
    ensures result == Rationales(mod.retractions, version)
  {
    var rets := mod.retractions;
    var rationales: seq<string> := [];
    var i := 0;
    while i < |rets|
      invariant 0 <= i <= |rets|
      invariant rationales == Collected(rets[..i], version)
    {
      var ret := rets[i];
      assert rets[..i + 1][..i] == rets[..i] && rets[..i + 1][i] == ret;
      if ret.version != "" && ret.version == version && ret.rationale != "" {
        rationales := rationales + [ret.rationale];
        i := i + 1;
        continue;
      }
      if ret.version == "" && IsVersionInRange(version, ret.versionLow, ret.versionHigh) && ret.rationale != "" {
        rationales := rationales + [ret.rationale];
      }
      i := i + 1;
    }
    assert rets[..i] == rets;
    result := UniqueStrings(rationales);
  }

  /** A string is reported for `version` exactly when it is the rationale
      of a retraction that concerns it; none is empty and none is repeated. */
  lemma RationalesAre(rets: seq<Retract>, version: string)
    ensures forall s :: s in Rationales(rets, version) <==>
              exists i :: 0 <= i < |rets| && Concerns(rets[i], version) && rets[i].rationale == s
    ensures "" !in Rationales(rets, version)
    ensures Distinct(Rationales(rets, version))
  {
  }

  /** A single-version retraction gives its rationale for that version
      only, however the version compares with the others. */
  lemma SingleVersionExact(r: Retract, version: string)
    requires r.version != "" && r.rationale != ""
    ensures Concerns(r, version) <==> version == r.version
  {
  }
}
