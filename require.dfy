/** pkg/parser/require_handler.go: `require` lines, on their own and inside
    a `require ( … )` block. */
module RequireHandler {
  import opened Wrappers
  import opened Text
  import opened Grammar
  import opened GoMod
  import opened ParseErrors

  /** The Require a single-line declaration states, when the line matches
      singleRequireRegexp; the tail after the version decides `indirect`. */
  function SingleLine(line: string): (r: Option<Require>)
    ensures r.Some? ==> HasPrefix(line, "require")
  {
    match Match(RequirePattern, line)
    case None => None
    case Some(m) => Some(Require(m[0], m[1], m[2] != "" && HasIndirectMarker(m[2])))
  }

  /** The `indirect` flag of a block line: the first field from index `i` on
      that contains `//` starts the comment, which is the fields from there
      on joined by single spaces. */
  function IndirectFrom(parts: seq<string>, i: nat): (b: bool)
    ensures b ==> exists j :: i <= j < |parts| && Contains(parts[j], "//")
    decreases |parts| - i
  {
    if i >= |parts| then false
    else if Contains(parts[i], "//") then HasIndirectMarker(Join(parts[i..], " "))
    else IndirectFrom(parts, i + 1)
  }

  /** What parseRequireBlockLine does with a line inside a require block. */
  function BlockLine(line: string): (r: LineOutcome<Require>)
    ensures !r.Skip?
    ensures r.Stop? ==> r.halt == Error(InvalidRequire)
    ensures r.Add? ==> Word(r.entry.path) && Word(r.entry.version)
  {
    var parts := Fields(line);
    if |parts| < 2 then Stop(Error(InvalidRequire))
    else
      FieldsAreWords(line);
      Add(Require(parts[0], parts[1], IndirectFrom(parts, 2)))
  }

  /** parseRequireSingleLine */
  method ParseRequireSingleLine(mod: Module, line: string) returns (handled: bool)
    modifies mod`requirements
    ensures handled == SingleLine(line).Some?
    ensures mod.requirements == old(mod.requirements) + (if handled then [SingleLine(line).value] else [])
  {
    var matches := Match(RequirePattern, line);
    if matches.Some? {
      var m := matches.value;
      var indirect := false;
      if m[2] != "" {
        indirect := HasIndirectMarker(m[2]);
      }
      mod.requirements := mod.requirements + [Require(m[0], m[1], indirect)];
      return true;
    }
    return false;
  }

  /** parseRequireBlockLine */
  method ParseRequireBlockLine(mod: Module, line: string) returns (err: Option<Halt>)
    modifies mod`requirements
    ensures err == HaltOf(BlockLine(line))
    ensures mod.requirements == old(mod.requirements) + Added(BlockLine(line))
  {
    var parts := Fields(line);
    if |parts| < 2 {
      return Some(Error(InvalidRequire));
    }
    var indirect := false;
    var i := 2;
    while i < |parts|
      invariant 2 <= i <= |parts|
      invariant IndirectFrom(parts, i) == IndirectFrom(parts, 2)
    {
      if Contains(parts[i], "//") {
        var commentText := Join(parts[i..], " ");
        indirect := HasIndirectMarker(commentText);
        break;
      }
      i := i + 1;
    }
    mod.requirements := mod.requirements + [Require(parts[0], parts[1], indirect)];
    return None;
  }

  // ---------------------------------------------------------------------
  // The lines that write a Require out, and the properties of both forms

  /** The comment that marks a requirement indirect. */
  function Comment(r: Require): string {
    if r.indirect then " // indirect" else ""
  }

  /** A Require as it appears inside a require block. */
  function Entry(r: Require): string {
    r.path + (" " + (r.version + Comment(r)))
  }

  /** A single-line require declaration. */
  function Declaration(r: Require): string {
    "require" + (" " + Entry(r))
  }

  /** The marked comment is a blank and two words. */
  lemma IndirectCommentText(a: string, b: string)
    requires a == "//" && b == "indirect"
    ensures " // indirect" == " " + (a + (" " + b))
  {
  }

  /** The two words of the marked comment, and the comment they join into. */
  lemma IndirectCommentJoin(a: string, b: string)
    requires a == "//" && b == "indirect"
    ensures Word(a) && Word(b) && Contains(a, "//")
    ensures Join([a, b], " ") == a + (" " + b)
  {
    assert OccursAt(a, "//", 0);
  }

  /** The fields of the marked comment are its two words. */
  lemma IndirectCommentFields(a: string, b: string)
    requires a == "//" && b == "indirect"
    ensures Fields(" " + (a + (" " + b))) == [a, b]
  {
    IndirectCommentJoin(a, b);
    FieldsOfPadded(" ", a + (" " + b));
    FieldsOfWordThen(a, " " + b);
    FieldsOfPadded(" ", b);
    FieldsOfWord(b);
  }

  /** The marked comment carries the marker, with or without its blank. */
  lemma IndirectCommentMarker(a: string, b: string)
    requires a == "//" && b == "indirect"
    ensures HasIndirectMarker(a + (" " + b)) && HasIndirectMarker(" " + (a + (" " + b)))
  {
    var s := a + (" " + b);
    assert s[0..2] == a && s[2..3] == " " && s[3..] == b;
    IndirectMarkerFound(s, 0, 1);
    var t := " " + s;
    assert t[1..3] == a && t[3..4] == " " && t[4..] == b;
    IndirectMarkerFound(t, 1, 1);
  }

  /** The single-line form reads a declaration back. */
  lemma {:induction false} SingleLineReadsDeclaration(r: Require)
    requires Word(r.path) && Word(r.version)
    ensures SingleLine(Declaration(r)) == Some(r)
  {
    WordInClass(r.path);
    WordInClass(r.version);
    assert AllBlank(" ");
    RequireLineMatches(" ", r.path, " ", r.version, Comment(r));
    if r.indirect {
      IndirectCommentText("//", "indirect");
      IndirectCommentMarker("//", "indirect");
    }
  }

  /** Inside a block, a written-out entry reads back as the same Require. */
  lemma {:induction false} BlockLineReadsEntry(r: Require)
    requires Word(r.path) && Word(r.version)
    ensures BlockLine(Entry(r)) == Add(r)
  {
    var c := Comment(r);
    FieldsOfWordsLine(r.path, r.version, c);
    if r.indirect {
      var a, b := "//", "indirect";
      IndirectCommentText(a, b);
      IndirectCommentJoin(a, b);
      IndirectCommentFields(a, b);
      IndirectCommentMarker(a, b);
      var parts := [r.path, r.version, a, b];
      assert Fields(Entry(r)) == parts;
      assert parts[2..] == [a, b];
    } else {
      assert Fields(Entry(r)) == [r.path, r.version];
    }
  }

  /** A comment line inside a require block becomes a Require whose path is
      the comment mark and whose version is the comment's first word. */
  lemma CommentLineInBlock(mark: string, w: string, word: string)
    requires mark == "//" && Word(word) && w != [] && AllSpace(w)
    ensures BlockLine(mark + (w + word)) == Add(Require(mark, word, false))
  {
    assert Word(mark);
    FieldsOfWordThen(mark, w + word);
    FieldsOfPadded(w, word);
    FieldsOfWord(word);
  }

  /** A block line needs a version: one word, or nothing, is an error. */
  lemma BlockLineNeedsVersion(path: string)
    requires Word(path) || path == ""
    ensures BlockLine(path) == Stop(Error(InvalidRequire))
  {
    if path != "" { FieldsOfWord(path); }
  }

  /** Only the marker decides `indirect`: a declaration followed by any
      comment without it reads as a direct requirement. */
  lemma OtherCommentIsNotIndirect(r: Require, tail: string)
    requires Word(r.path) && Word(r.version) && !r.indirect
    requires tail != [] && IsBlank(tail[0]) && '\n' !in tail && !HasIndirectMarker(tail)
    ensures SingleLine(Declaration(r) + tail) == Some(r)
  {
    WordInClass(r.path);
    WordInClass(r.version);
    assert AllBlank(" ");
    assert Declaration(r) + tail == "require" + (" " + (r.path + (" " + (r.version + tail))));
    RequireLineMatches(" ", r.path, " ", r.version, tail);
  }

  /** `// some comment` does not carry the marker. */
  lemma SomeCommentHasNoMarker(mark: string, text: string)
    requires mark == "//" && text == "some comment"
    ensures !HasIndirectMarker(" " + (mark + (" " + text)))
  {
    var tail := " " + (mark + (" " + text));
    if HasIndirectMarker(tail) {
      IndirectMarkerHasWord(tail);
      assert 'd' in tail by { assert 'd' in "indirect"; }
      assert false;
    }
  }
}
