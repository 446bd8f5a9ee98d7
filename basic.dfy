/** pkg/parser/basic_parser.go: the module and go declarations, and three
    small predicates on lines. */
module BasicParser {
  import opened Text
  import opened Grammar
  import opened GoMod

  /** parseModuleName: a `module` line sets the module name. */
  method ParseModuleName(mod: Module, line: string) returns (handled: bool)
    modifies mod`name
    ensures handled == Match(ModulePattern, line).Some?
    ensures mod.name == if handled then Match(ModulePattern, line).value[0] else old(mod.name)
  {
    var matches := Match(ModulePattern, line);
    if matches.Some? {
      mod.name := matches.value[0];
      return true;
    }
    return false;
  }

  /** parseGoVersion: a `go` line sets the Go version. */
  method ParseGoVersion(mod: Module, line: string) returns (handled: bool)
    modifies mod`goVersion
    ensures handled == Match(GoPattern, line).Some?
    ensures mod.goVersion == if handled then Match(GoPattern, line).value[0] else old(mod.goVersion)
  {
    var matches := Match(GoPattern, line);
    if matches.Some? {
      mod.goVersion := matches.value[0];
      return true;
    }
    return false;
  }

  /** isIndirect: the `// indirect` marker occurs somewhere in the line. */
  function IsIndirect(line: string): (r: bool)
    ensures r <==> exists i, k :: IndirectAt(line, i, k)
  {
    IndirectMarkerIff(line);
    HasIndirectMarker(line)
  }

  /** blockStartsWith */
  predicate BlockStartsWith(line: string, keyword: string)
    ensures BlockStartsWith(line, keyword) ==> TrimSpace(line) != [] && !IsBlockEnd(line)
  {
    HasPrefix(TrimSpace(line), keyword) && HasSuffix(TrimSpace(line), "(")
  }

  /** isBlockEnd */
  predicate IsBlockEnd(line: string)
    ensures IsBlockEnd(line) ==> Fields(line) == [")"]
  {
    FieldsOfTrimSpace(line);
    FieldsOfWord(")");
    TrimSpace(line) == ")"
  }

  /** The surrounding white space does not matter to blockStartsWith. */
  lemma BlockStartsWithPadded(w1: string, t: string, w2: string, keyword: string)
    requires AllSpace(w1) && AllSpace(w2) && Trimmed(t)
    ensures BlockStartsWith(w1 + t + w2, keyword) <==> HasPrefix(t, keyword) && HasSuffix(t, "(")
  {
    TrimSpacePadded(w1, t, w2);
  }

  /** isBlockEnd holds exactly for `)` with white space around it. */
  lemma IsBlockEndPadded(w1: string, t: string, w2: string)
    requires AllSpace(w1) && AllSpace(w2) && Trimmed(t)
    ensures IsBlockEnd(w1 + t + w2) <==> t == ")"
  {
    TrimSpacePadded(w1, t, w2);
  }

  /** The cases of the tests of isIndirect, blockStartsWith and isBlockEnd. */
  lemma IndirectExamples()
    ensures IsIndirect("github.com/example/module v1.0.0 // indirect")
    ensures IsIndirect("github.com/example/module v1.0.0 // indirect comment")
  {
    var s := "github.com/example/module v1.0.0 // indirect";
    assert IndirectAt(s, 33, 1) by { assert s[33..35] == "//" && s[36..] == "indirect"; }
    var t := "github.com/example/module v1.0.0 // indirect comment";
    assert IndirectAt(t, 33, 1) by { assert t[33..35] == "//" && t[36..][..8] == "indirect"; }
  }

  lemma BlockStartExample()
    ensures BlockStartsWith("  require  (", "require")
  {
    var s := "  require  (";
    var t := s[2..];
    assert Trimmed(t) by { assert t[0] == 'r' && t[|t| - 1] == '('; }
    assert AllSpace(s[..2]);
    TrimSpacePadded(s[..2], t, "");
    assert s[..2] + t + "" == s;
    assert t[..7] == "require" && t[|t| - 1..] == "(";
  }

  lemma EmptyLineStartsNoBlock(keyword: string)
    ensures !BlockStartsWith("", keyword)
  {
    assert TrimSpace("") == "";
  }

  lemma BlockEndExample()
    ensures IsBlockEnd("  )  ")
  {
    IsBlockEndPadded("  ", ")", "  ");
    assert "  " + ")" + "  " == "  )  ";
  }

  lemma CommentedCloseIsNoBlockEnd()
    ensures !IsBlockEnd(") // comment")
  {
    var t := ") // comment";
    assert Trimmed(t) by { assert t[0] == ')' && t[|t| - 1] == 't'; }
    IsBlockEndPadded("", t, "");
    assert "" + t + "" == t;
  }
}
