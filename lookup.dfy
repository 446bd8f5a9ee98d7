/** pkg/parser/helper_functions.go: the read-only lookups on a parsed
    module.  Each one scans a list of the module from the front and stops at
    the first entry that matches. */
module Lookup {
  import opened Wrappers
  import opened Text
  import opened GoMod

  /** The first requirement of `reqs` with the given path. */
  function FindRequire(reqs: seq<Require>, path: string): (r: Option<Require>)
    ensures r.None? <==> forall i :: 0 <= i < |reqs| ==> reqs[i].path != path
    ensures r.Some? ==> exists i :: 0 <= i < |reqs| && reqs[i] == r.value && r.value.path == path
                                    && forall j :: 0 <= j < i ==> reqs[j].path != path
    decreases |reqs|
  {
    if reqs == [] then None
    else if reqs[0].path == path then Some(reqs[0])
    else
      var r := FindRequire(reqs[1..], path);
      assert forall i :: 1 <= i < |reqs| ==> reqs[i] == reqs[1..][i - 1];
      if r.Some? then
        ghost var i :| 0 <= i < |reqs[1..]| && reqs[1..][i] == r.value && r.value.path == path
                       && forall j :: 0 <= j < i ==> reqs[1..][j].path != path;
        assert reqs[i + 1] == r.value;
        assert forall j :: 0 <= j < i + 1 ==> reqs[j].path != path by {
          forall j | 0 <= j < i + 1 ensures reqs[j].path != path {
            if j > 0 { assert reqs[j] == reqs[1..][j - 1]; }
          }
        }
        r
      else r
  }

  /** The first replacement of `reps` whose replaced module has the given path. */
  function FindReplace(reps: seq<Replace>, path: string): (r: Option<Replace>)
    ensures r.None? <==> forall i :: 0 <= i < |reps| ==> reps[i].original.path != path
    ensures r.Some? ==> exists i :: 0 <= i < |reps| && reps[i] == r.value && r.value.original.path == path
                                    && forall j :: 0 <= j < i ==> reps[j].original.path != path
    decreases |reps|
  {
    if reps == [] then None
    else if reps[0].original.path == path then Some(reps[0])
    else
      var r := FindReplace(reps[1..], path);
      assert forall i :: 1 <= i < |reps| ==> reps[i] == reps[1..][i - 1];
      if r.Some? then
        ghost var i :| 0 <= i < |reps[1..]| && reps[1..][i] == r.value && r.value.original.path == path
                       && forall j :: 0 <= j < i ==> reps[1..][j].original.path != path;
        assert reps[i + 1] == r.value;
        assert forall j :: 0 <= j < i + 1 ==> reps[j].original.path != path by {
          forall j | 0 <= j < i + 1 ensures reps[j].original.path != path {
            if j > 0 { assert reps[j] == reps[1..][j - 1]; }
          }
        }
        r
      else r
  }

  /** GetRequire: the first requirement on the path, if any. */
  function GetRequire(data: ModuleData, path: string): (r: Option<Require>)
    ensures r.None? <==> forall i :: 0 <= i < |data.requirements| ==> data.requirements[i].path != path
    ensures r.Some? ==> r.value in data.requirements && r.value.path == path
    ensures r.Some? ==>
              exists i :: 0 <= i < |data.requirements| && data.requirements[i] == r.value &&
                (forall j :: 0 <= j < i ==> data.requirements[j].path != path)
  {
    FindRequire(data.requirements, path)
  }

  /** HasRequire: some requirement is on the path. */
  function HasRequire(data: ModuleData, path: string): (b: bool)
    ensures b <==> exists i :: 0 <= i < |data.requirements| && data.requirements[i].path == path
  {
    GetRequire(data, path).Some?
  }

  /** GetReplace: the first replacement of the module with the path, if
      any; only the replaced module's path is compared, not its version. */
  function GetReplace(data: ModuleData, path: string): (r: Option<Replace>)
    ensures r.None? <==> forall i :: 0 <= i < |data.replacements| ==> data.replacements[i].original.path != path
    ensures r.Some? ==> r.value in data.replacements && r.value.original.path == path
    ensures r.Some? ==>
              exists i :: 0 <= i < |data.replacements| && data.replacements[i] == r.value &&
                (forall j :: 0 <= j < i ==> data.replacements[j].original.path != path)
  {
    FindReplace(data.replacements, path)
  }

  /** HasReplace: some replacement replaces the module with the path. */
  function HasReplace(data: ModuleData, path: string): (b: bool)
    ensures b <==> exists i :: 0 <= i < |data.replacements| && data.replacements[i].original.path == path
  {
    GetReplace(data, path).Some?
  }

  /** Some exclusion of `excs` is exactly the pair (path, version). */
  function AnyExclude(excs: seq<Exclude>, path: string, version: string): (b: bool)
    ensures b <==> Exclude(path, version) in excs
    decreases |excs|
  {
    if excs == [] then false
    else if excs[0].path == path && excs[0].version == version then true
    else
      assert excs == [excs[0]] + excs[1..];
      AnyExclude(excs[1..], path, version)
  }

  /** HasExclude: the exact pair is excluded. */
  function HasExclude(data: ModuleData, path: string, version: string): (b: bool)
    ensures b <==> Exclude(path, version) in data.exclusions
  {
    AnyExclude(data.exclusions, path, version)
  }

  /** What HasRetract checks of one retraction: the version is the
      retracted one, or the retraction has both bounds and the version lies
      between them in Go's byte-wise string order, both ends included. */
  predicate Covers(r: Retract, version: string)
    ensures Covers(r, version) ==> r.version == version || LessEq(r.versionLow, r.versionHigh)
  {
    if r.version == version then true
    else if r.versionLow != "" && r.versionHigh != "" && LessEq(r.versionLow, version) && LessEq(version, r.versionHigh) then
      LessEqTransitive(r.versionLow, version, r.versionHigh);
      true
    else false
  }

  /** Some retraction of `rets` covers the version. */
  function AnyRetract(rets: seq<Retract>, version: string): (b: bool)
    ensures b <==> exists i :: 0 <= i < |rets| && Covers(rets[i], version)
    decreases |rets|
  {
    if rets == [] then false
    else if Covers(rets[0], version) then true
    else
      assert forall i :: 1 <= i < |rets| ==> rets[i] == rets[1..][i - 1];
      AnyRetract(rets[1..], version)
  }

  /** HasRetract: some retraction covers the version. */
  function HasRetract(data: ModuleData, version: string): (b: bool)
    ensures b <==> exists i :: 0 <= i < |data.retractions| && Covers(data.retractions[i], version)
  {
    AnyRetract(data.retractions, version)
  }

  // ---------------------------------------------------------------------
  // Properties

  /** HasRequire and HasReplace are GetRequire and GetReplace finding something. */
  lemma HasIffGet(data: ModuleData, path: string)
    ensures HasRequire(data, path) <==> GetRequire(data, path).Some?
    ensures HasReplace(data, path) <==> GetReplace(data, path).Some?
  {
  }

  /** The first match wins: a path required twice gives the earlier entry. */
  lemma {:induction false} GetRequireFirst(reqs: seq<Require>, r: Require, rest: seq<Require>)
    requires forall i :: 0 <= i < |reqs| ==> reqs[i].path != r.path
    ensures FindRequire(reqs + [r] + rest, r.path) == Some(r)
    decreases |reqs|
  {
    if reqs == [] {
      assert ([] + [r] + rest)[0] == r;
    } else {
      assert (reqs + [r] + rest)[1..] == reqs[1..] + [r] + rest;
      GetRequireFirst(reqs[1..], r, rest);
    }
  }

  /** Only the replaced module's path counts: a replacement of any version
      of it is found. */
  lemma {:induction false} GetReplaceFirst(reps: seq<Replace>, r: Replace, rest: seq<Replace>)
    requires forall i :: 0 <= i < |reps| ==> reps[i].original.path != r.original.path
    ensures FindReplace(reps + [r] + rest, r.original.path) == Some(r)
    decreases |reps|
  {
    if reps == [] {
      assert ([] + [r] + rest)[0] == r;
    } else {
      assert (reps + [r] + rest)[1..] == reps[1..] + [r] + rest;
      GetReplaceFirst(reps[1..], r, rest);
    }
  }

  /** A range retraction has the empty version, so the empty query is
      covered by every range retraction. */
  lemma EmptyQueryCoversRange(r: Retract)
    requires r.version == "" && r.versionLow != "" && r.versionHigh != ""
    ensures Covers(r, "")
  {
  }

  /** A range covers its own bounds. */
  lemma RangeCoversBounds(r: Retract)
    requires r.versionLow != "" && r.versionHigh != "" && LessEq(r.versionLow, r.versionHigh)
    ensures Covers(r, r.versionLow) && Covers(r, r.versionHigh)
  {
    LessEqReflexive(r.versionLow);
    LessEqReflexive(r.versionHigh);
  }

  /** A range is an interval of the string order: whatever lies between two
      covered versions is covered too. */
  lemma RangeIsInterval(r: Retract, a: string, v: string, b: string)
    requires r.version == "" && a != "" && b != ""
    requires Covers(r, a) && Covers(r, b) && LessEq(a, v) && LessEq(v, b)
    ensures Covers(r, v)
  {
    LessEqTransitive(r.versionLow, a, v);
    LessEqTransitive(v, b, r.versionHigh);
  }

  /** The cases of the tests: v2.5.0 lies in [v2.0.0, v2.9.9], v3.0.0 does not. */
  lemma CoversExamples(r: Retract, low: string, high: string, inside: string, outside: string)
    requires low == "v2.0.0" && high == "v2.9.9" && inside == "v2.5.0" && outside == "v3.0.0"
    requires r.version == "" && r.versionLow == low && r.versionHigh == high
    ensures Covers(r, inside) && !Covers(r, outside)
  {
    assert low[..3] == inside[..3] && low[3] < inside[3];
    LessEqAtDifference(low, inside, 3);
    assert inside[..3] == high[..3] && inside[3] < high[3];
    LessEqAtDifference(inside, high, 3);
    assert outside[..1] == high[..1] && outside[1] > high[1];
    LessEqAtDifference(outside, high, 1);
  }

  /** The module of the tests, retracting v1.0.0 and [v2.0.0, v2.9.9]:
      HasRetract holds for v1.0.0 and v2.5.0 and not for v3.0.0. */
  lemma HasRetractExamples(data: ModuleData, exact: string, low: string, high: string, inside: string, outside: string)
    requires exact == "v1.0.0" && low == "v2.0.0" && high == "v2.9.9" && inside == "v2.5.0" && outside == "v3.0.0"
    requires |data.retractions| == 2
    requires data.retractions[0] == Retract(exact, "", "", data.retractions[0].rationale)
    requires data.retractions[1] == Retract("", low, high, data.retractions[1].rationale)
    ensures HasRetract(data, exact) && HasRetract(data, inside) && !HasRetract(data, outside)
  {
    CoversExamples(data.retractions[1], low, high, inside, outside);
    assert Covers(data.retractions[0], exact);
    assert exact != outside by { assert exact[1] != outside[1]; }
    assert !Covers(data.retractions[0], outside);
  }
}
