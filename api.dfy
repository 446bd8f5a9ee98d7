/** pkg/api.go: the package-level entry points.  ParseGoModContent hands the
    text to the parser; the lookups are written again as loops over the
    Module's lists, each returning at the first match.  Each loop is proved
    to compute the lookup of the same name in Lookup, which the methods
    read without changing the module (they have no modifies clause). */
module Api {
  import opened Wrappers
  import opened GoMod
  import opened ParseErrors
  import Text
  import Lookup
  import Driver

  /** ParseGoModContent: the text parsed by ParseFromString. */
  method ParseGoModContent(content: string) returns (mod: Module?, err: Option<LineFailure>)
    ensures Driver.ParseText(content).Ok? ==>
              err == None && mod != null && mod.Data() == Driver.ParseText(content).value
    ensures Driver.ParseText(content).Err? ==> err == Some(Driver.ParseText(content).error) && mod == null
    ensures mod != null ==> fresh(mod)
  {
    mod, err := Driver.ParseFromString(content);
  }

  /** HasRequire */
  method HasRequire(mod: Module, path: string) returns (b: bool)
    ensures b == Lookup.HasRequire(mod.Data(), path)
  {
    var i := 0;
    while i < |mod.requirements|
      invariant 0 <= i <= |mod.requirements|
      invariant forall j :: 0 <= j < i ==> mod.requirements[j].path != path
    {
      if mod.requirements[i].path == path {
        return true;
      }
      i := i + 1;
    }
    return false;
  }

  /** GetRequire */
  method GetRequire(mod: Module, path: string) returns (r: Option<Require>)
    ensures r == Lookup.GetRequire(mod.Data(), path)
  {
    var i := 0;
    while i < |mod.requirements|
      invariant 0 <= i <= |mod.requirements|
      invariant Lookup.FindRequire(mod.requirements, path) == Lookup.FindRequire(mod.requirements[i..], path)
    {
      assert mod.requirements[i..][0] == mod.requirements[i];
      assert mod.requirements[i..][1..] == mod.requirements[i + 1..];
      if mod.requirements[i].path == path {
        return Some(mod.requirements[i]);
      }
      i := i + 1;
    }
    return None;
  }

  /** HasReplace */
  method HasReplace(mod: Module, path: string) returns (b: bool)
    ensures b == Lookup.HasReplace(mod.Data(), path)
  {
    var i := 0;
    while i < |mod.replacements|
      invariant 0 <= i <= |mod.replacements|
      invariant forall j :: 0 <= j < i ==> mod.replacements[j].original.path != path
    {
      if mod.replacements[i].original.path == path {
        return true;
      }
      i := i + 1;
    }
    return false;
  }

  /** GetReplace */
  method GetReplace(mod: Module, path: string) returns (r: Option<Replace>)
    ensures r == Lookup.GetReplace(mod.Data(), path)
  {
    var i := 0;
    while i < |mod.replacements|
      invariant 0 <= i <= |mod.replacements|
      invariant Lookup.FindReplace(mod.replacements, path) == Lookup.FindReplace(mod.replacements[i..], path)
    {
      assert mod.replacements[i..][0] == mod.replacements[i];
      assert mod.replacements[i..][1..] == mod.replacements[i + 1..];
      if mod.replacements[i].original.path == path {
        return Some(mod.replacements[i]);
      }
      i := i + 1;
    }
    return None;
  }

  /** HasExclude */
  method HasExclude(mod: Module, path: string, version: string) returns (b: bool)
    ensures b == Lookup.HasExclude(mod.Data(), path, version)
  {
    var i := 0;
    while i < |mod.exclusions|
      invariant 0 <= i <= |mod.exclusions|
      invariant forall j :: 0 <= j < i ==> mod.exclusions[j] != Exclude(path, version)
    {
      if mod.exclusions[i].path == path && mod.exclusions[i].version == version {
        return true;
      }
      i := i + 1;
    }
    return false;
  }

  /** HasRetract */
  method HasRetract(mod: Module, version: string) returns (b: bool)
    ensures b == Lookup.HasRetract(mod.Data(), version)
  {
    var i := 0;
    while i < |mod.retractions|
      invariant 0 <= i <= |mod.retractions|
      invariant forall j :: 0 <= j < i ==> !Lookup.Covers(mod.retractions[j], version)
    {
      var ret := mod.retractions[i];
      if ret.version == version {
        return true;
      }
      if ret.versionLow != "" && ret.versionHigh != "" {
        if Text.LessEq(ret.versionLow, version) && Text.LessEq(version, ret.versionHigh) {
          return true;
        }
      }
      i := i + 1;
    }
    return false;
  }
}
