/** pkg/parser/exclude_handler.go: `exclude` lines, on their own and inside
    an `exclude ( … )` block. */
module ExcludeHandler {
  import opened Wrappers
  import opened Text
  import opened Grammar
  import opened GoMod
  import opened ParseErrors

  /** The Exclude a single-line declaration states, when the line matches
      singleExcludeRegexp. */
  function SingleLine(line: string): (r: Option<Exclude>)
    ensures r.Some? ==> HasPrefix(line, "exclude")
  {
    match Match(ExcludePattern, line)
    case None => None
    case Some(m) => Some(Exclude(m[0], m[1]))
  }

  /** What parseExcludeBlockLine does with a line inside an exclude block:
      the first two fields are the path and the version, and any further
      fields are ignored. */
  function BlockLine(line: string): (r: LineOutcome<Exclude>)
    ensures !r.Skip?
    ensures r.Stop? <==> |Fields(line)| < 2
    ensures r.Stop? ==> r.halt == Error(InvalidExclude)
    ensures r.Add? ==> Word(r.entry.path) && Word(r.entry.version)
  {
    var parts := Fields(line);
    if |parts| < 2 then Stop(Error(InvalidExclude))
    else
      FieldsAreWords(line);
      Add(Exclude(parts[0], parts[1]))
  }

  /** parseExcludeSingleLine */
  method ParseExcludeSingleLine(mod: Module, line: string) returns (handled: bool)
    modifies mod`exclusions
    ensures handled == SingleLine(line).Some?
    ensures mod.exclusions == old(mod.exclusions) + (if handled then [SingleLine(line).value] else [])
  {
    var matches := Match(ExcludePattern, line);
    if matches.Some? {
      var m := matches.value;
      mod.exclusions := mod.exclusions + [Exclude(m[0], m[1])];
      return true;
    }
    return false;
  }

  /** parseExcludeBlockLine */
  method ParseExcludeBlockLine(mod: Module, line: string) returns (err: Option<Halt>)
    modifies mod`exclusions
    ensures err == HaltOf(BlockLine(line))
    ensures mod.exclusions == old(mod.exclusions) + Added(BlockLine(line))
  {
    var parts := Fields(line);
    if |parts| < 2 {
      return Some(Error(InvalidExclude));
    }
    mod.exclusions := mod.exclusions + [Exclude(parts[0], parts[1])];
    return None;
  }

  // ---------------------------------------------------------------------
  // The lines that write an Exclude out, and the properties of both forms

  /** An Exclude as it appears inside an exclude block. */
  function Entry(e: Exclude): string {
    e.path + (" " + e.version)
  }

  /** A single-line exclude declaration. */
  function Declaration(e: Exclude): string {
    "exclude" + (" " + Entry(e))
  }

  /** The single-line form reads a declaration back. */
  lemma SingleLineReadsDeclaration(e: Exclude)
    requires Word(e.path) && Word(e.version)
    ensures SingleLine(Declaration(e)) == Some(e)
  {
    WordInClass(e.path);
    WordInClass(e.version);
    assert AllBlank(" ");
    ExcludeLineMatches(" ", e.path, " ", e.version);
  }

  /** A single line needs the version: `exclude <path>` is not a declaration. */
  lemma SingleLineNeedsVersion(w: string, path: string)
    requires w != [] && AllBlank(w) && Word(path)
    ensures SingleLine("exclude" + (w + path)) == None
  {
    WordInClass(path);
    var p := ExcludePattern;
    assert Match(p[3..], []) == None;
    assert path + [] == path;
    assert p[2..][1..] == p[3..];
    MatchTokenNone(p[2..], path, []);
    assert path[0] == path[0];
    assert p[1..][1..] == p[2..];
    MatchBlanks(p[1..], w, path);
    MatchLit(p, "exclude", w + path);
  }

  /** A block line is read by its first two fields, whatever follows them. */
  lemma BlockLineReadsWords(words: seq<string>)
    requires |words| >= 2 && forall i :: 0 <= i < |words| ==> Word(words[i])
    ensures BlockLine(Join(words, " ")) == Add(Exclude(words[0], words[1]))
  {
    FieldsOfJoin(words);
  }

  /** Inside a block, a written-out entry reads back as the same Exclude. */
  lemma BlockLineReadsEntry(e: Exclude)
    requires Word(e.path) && Word(e.version)
    ensures BlockLine(Entry(e)) == Add(e)
  {
    var words := [e.path, e.version];
    BlockLineReadsWords(words);
    assert words[1..] == [e.version];
    assert Join(words, " ") == e.path + " " + e.version;
    assert Entry(e) == e.path + " " + e.version;
  }

  /** A block line with fewer than two fields is an error. */
  lemma BlockLineNeedsVersion(path: string)
    requires Word(path) || AllSpace(path)
    ensures BlockLine(path) == Stop(Error(InvalidExclude))
  {
    if Word(path) { FieldsOfWord(path); } else { FieldsOfAllSpace(path); }
  }
}
