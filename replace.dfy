/** pkg/parser/replace_handler.go: `replace` lines, on their own and inside
    a `replace ( … )` block. */
module ReplaceHandler {
  import opened Wrappers
  import opened Text
  import opened Grammar
  import opened GoMod
  import opened ParseErrors

  /** The Replace a single-line declaration states, when the line matches
      singleReplaceRegexp; that form has no version for the old path. */
  function SingleLine(line: string): (r: Option<Replace>)
    ensures r.Some? ==> HasPrefix(line, "replace") && r.value.original.version == ""
  {
    match Match(ReplacePattern, line)
    case None => None
    case Some(m) => Some(Replace(ReplaceItem(m[0], ""), ReplaceItem(m[1], m[2])))
  }

  /** One side of a block line, from its fields: the path and, when there
      is a second field, the version; further fields are dropped. */
  function SideOf(fields: seq<string>): ReplaceItem
    requires fields != []
  {
    ReplaceItem(fields[0], if |fields| > 1 then fields[1] else "")
  }

  /** A side as a block line can state it: a path, and a version or none. */
  predicate WellFormedItem(item: ReplaceItem) {
    Word(item.path) && (item.version == "" || Word(item.version))
  }

  /** What parseReplaceBlockLine does with a line inside a replace block.
      A line whose old side has no field stops with IndexPanic: the Go code
      reads the first old field without checking there is one. */
  function BlockLine(line: string): (r: LineOutcome<Replace>)
    ensures !r.Skip?
    ensures r.Stop? ==> r.halt == Error(InvalidReplace) || r.halt == IndexPanic
    ensures r.Add? ==> Contains(line, "=>")
    ensures r.Add? ==> WellFormedItem(r.entry.original) && WellFormedItem(r.entry.replacement)
  {
    var parts := Split(line, "=>");
    if |parts| != 2 then Stop(Error(InvalidReplace))
    else
      var oldParts := Fields(TrimSpace(parts[0]));
      var newParts := Fields(TrimSpace(parts[1]));
      if |oldParts| == 0 then Stop(IndexPanic)
      else if |newParts| < 1 then Stop(Error(InvalidReplace))
      else
        FieldsAreWords(TrimSpace(parts[0]));
        FieldsAreWords(TrimSpace(parts[1]));
        Add(Replace(SideOf(oldParts), SideOf(newParts)))
  }

  /** parseReplaceSingleLine */
  method ParseReplaceSingleLine(mod: Module, line: string) returns (handled: bool)
    modifies mod`replacements
    ensures handled == SingleLine(line).Some?
    ensures mod.replacements == old(mod.replacements) + (if handled then [SingleLine(line).value] else [])
  {
    var matches := Match(ReplacePattern, line);
    if matches.Some? {
      var m := matches.value;
      mod.replacements := mod.replacements + [Replace(ReplaceItem(m[0], ""), ReplaceItem(m[1], m[2]))];
      return true;
    }
    return false;
  }

  /** parseReplaceBlockLine */
  method ParseReplaceBlockLine(mod: Module, line: string) returns (err: Option<Halt>)
    modifies mod`replacements
    ensures err == HaltOf(BlockLine(line))
    ensures mod.replacements == old(mod.replacements) + Added(BlockLine(line))
  {
    var parts := Split(line, "=>");
    if |parts| != 2 {
      return Some(Error(InvalidReplace));
    }
    var oldParts := Fields(TrimSpace(parts[0]));
    var newParts := Fields(TrimSpace(parts[1]));
    if |oldParts| == 0 {
      return Some(IndexPanic);
    }
    var oldPath := oldParts[0];
    var oldVersion := "";
    if |oldParts| > 1 {
      oldVersion := oldParts[1];
    }
    if |newParts| < 1 {
      return Some(Error(InvalidReplace));
    }
    var newPath := newParts[0];
    var newVersion := "";
    if |newParts| > 1 {
      newVersion := newParts[1];
    }
    mod.replacements := mod.replacements + [Replace(ReplaceItem(oldPath, oldVersion), ReplaceItem(newPath, newVersion))];
    return None;
  }

  // ---------------------------------------------------------------------
  // The lines that write a Replace out, and the properties of both forms

  /** The fields a side is written as. */
  function ItemWords(item: ReplaceItem): seq<string> {
    if item.version == "" then [item.path] else [item.path, item.version]
  }

  /** A Replace as it appears inside a replace block. */
  function Entry(rep: Replace): string {
    Join(ItemWords(rep.original), " ") + (" " + ("=>" + (" " + Join(ItemWords(rep.replacement), " "))))
  }

  /** A single-line replace declaration; only meaningful when the old side
      has no version and the new side has one. */
  function Declaration(rep: Replace): string {
    "replace" + (" " + (rep.original.path + (" " + ("=>" + (" " + (rep.replacement.path + (" " + rep.replacement.version)))))))
  }

  /** A piece of text free of the `=>` separator. */
  predicate NoArrow(s: string) {
    !Contains(s, "=>")
  }

  lemma ArrowIsSimple(arrow: string)
    requires arrow == "=>"
    ensures SimpleSeparator(arrow) && NoSpace(arrow) && arrow != []
  {
  }

  /** The single-line form reads a declaration back. */
  lemma SingleLineReadsDeclaration(rep: Replace)
    requires Word(rep.original.path) && rep.original.version == ""
    requires Word(rep.replacement.path) && Word(rep.replacement.version)
    ensures SingleLine(Declaration(rep)) == Some(rep)
  {
    WordInClass(rep.original.path);
    WordInClass(rep.replacement.path);
    WordInClass(rep.replacement.version);
    assert AllBlank(" ");
    ReplaceLineMatches(" ", rep.original.path, " ", "=>" + (" " + (rep.replacement.path + (" " + rep.replacement.version))),
                       " ", rep.replacement.path, " ", rep.replacement.version);
  }

  /** A single line with a version on the old side is not a replace
      declaration at all. */
  lemma SingleLineRejectsOldVersion(oldPath: string, oldVersion: string, rest: string)
    requires Word(oldPath) && Word(oldVersion) && oldVersion[0] != '='
    ensures SingleLine("replace" + (" " + (oldPath + (" " + (oldVersion + rest))))) == None
  {
    WordInClass(oldPath);
    WordInClass(oldVersion);
    assert AllBlank(" ");
    ReplaceLineWithOldVersionFails(" ", oldPath, " ", oldVersion, rest);
  }

  /** The fields of one side of a block line, whatever white space surrounds it. */
  lemma FieldsOfSide(words: seq<string>, w1: string, w2: string)
    requires forall i :: 0 <= i < |words| ==> Word(words[i])
    requires AllSpace(w1) && AllSpace(w2)
    ensures Fields(TrimSpace(w1 + (Join(words, " ") + w2))) == words
  {
    FieldsOfTrimSpace(w1 + (Join(words, " ") + w2));
    FieldsOfSurrounded(w1, Join(words, " "), w2);
    FieldsOfJoin(words);
  }

  /** A line with one `=>` splits into the text before and after it. */
  lemma ArrowSplit(left: string, right: string, arrow: string)
    requires arrow == "=>" && NoArrow(left) && NoArrow(right)
    ensures Split(left + (arrow + right), arrow) == [left, right]
  {
    ArrowIsSimple(arrow);
    SplitAfter(left, arrow, right);
    SplitWithout(right, arrow);
  }

  /** Words without `=>`, joined and padded by spaces, still have none. */
  lemma SpacedWordsNoArrow(words: seq<string>, arrow: string)
    requires arrow == "=>"
    requires forall i :: 0 <= i < |words| ==> NoArrow(words[i])
    ensures NoArrow(Join(words, " ") + " ") && NoArrow(" " + Join(words, " "))
  {
    ArrowIsSimple(arrow);
    JoinNotContains(words, arrow);
    assert AllSpace(" ");
    NotContainsPadded(Join(words, " "), " ", arrow);
  }

  /** The fields of words joined and padded by spaces are the words. */
  lemma SpacedWordsFields(words: seq<string>)
    requires forall i :: 0 <= i < |words| ==> Word(words[i])
    ensures Fields(Join(words, " ") + " ") == words && Fields(" " + Join(words, " ")) == words
  {
    assert AllSpace(" ");
    FieldsOfSurrounded("", Join(words, " "), " ");
    assert "" + (Join(words, " ") + " ") == Join(words, " ") + " ";
    FieldsOfSurrounded(" ", Join(words, " "), "");
    assert " " + (Join(words, " ") + "") == " " + Join(words, " ");
    FieldsOfJoin(words);
  }

  /** A block line with one `=>` is read from the fields of its two sides. */
  lemma BlockLineOfSides(left: string, right: string, arrow: string)
    requires arrow == "=>" && NoArrow(left) && NoArrow(right)
    ensures BlockLine(left + (arrow + right))
         == if Fields(left) == [] then Stop(IndexPanic)
            else if Fields(right) == [] then Stop(Error(InvalidReplace))
            else Add(Replace(SideOf(Fields(left)), SideOf(Fields(right))))
  {
    ArrowSplit(left, right, arrow);
    FieldsOfTrimSpace(left);
    FieldsOfTrimSpace(right);
  }

  /** A block line is read by its fields: the old side's first two and the
      new side's first two, whatever follows them. */
  lemma BlockLineReadsWords(oldWords: seq<string>, newWords: seq<string>, arrow: string)
    requires arrow == "=>"
    requires oldWords != [] && forall i :: 0 <= i < |oldWords| ==> Word(oldWords[i]) && NoArrow(oldWords[i])
    requires newWords != [] && forall i :: 0 <= i < |newWords| ==> Word(newWords[i]) && NoArrow(newWords[i])
    ensures BlockLine(Join(oldWords, " ") + (" " + (arrow + (" " + Join(newWords, " ")))))
         == Add(Replace(SideOf(oldWords), SideOf(newWords)))
  {
    var a := Join(oldWords, " ") + " ";
    var b := " " + Join(newWords, " ");
    assert Join(oldWords, " ") + (" " + (arrow + b)) == a + (arrow + b);
    SpacedWordsNoArrow(oldWords, arrow);
    SpacedWordsNoArrow(newWords, arrow);
    SpacedWordsFields(oldWords);
    SpacedWordsFields(newWords);
    BlockLineOfSides(a, b, arrow);
  }

  /** Inside a block, a written-out entry reads back as the same Replace. */
  lemma BlockLineReadsEntry(rep: Replace)
    requires WellFormedItem(rep.original) && WellFormedItem(rep.replacement)
    requires NoArrow(rep.original.path) && NoArrow(rep.original.version)
    requires NoArrow(rep.replacement.path) && NoArrow(rep.replacement.version)
    ensures BlockLine(Entry(rep)) == Add(rep)
  {
    BlockLineReadsWords(ItemWords(rep.original), ItemWords(rep.replacement), "=>");
  }

  /** A line without `=>`, or with it twice, is an error. */
  lemma BlockLineNeedsOneArrow(a: string, b: string, c: string, arrow: string)
    requires arrow == "=>" && NoArrow(a) && NoArrow(b) && NoArrow(c)
    ensures BlockLine(a) == Stop(Error(InvalidReplace))
    ensures BlockLine(a + (arrow + (b + (arrow + c)))) == Stop(Error(InvalidReplace))
  {
    ArrowIsSimple(arrow);
    SplitWithout(a, arrow);
    SplitAfter(a, arrow, b + (arrow + c));
    SplitAfter(b, arrow, c);
    SplitWithout(c, arrow);
  }

  /** An old side without any field makes the Go code panic. */
  lemma BlockLineWithoutOldPathPanics(w: string, arrow: string, rest: string)
    requires arrow == "=>" && AllSpace(w) && NoArrow(rest)
    ensures BlockLine(w + (arrow + rest)) == Stop(IndexPanic)
  {
    ArrowIsSimple(arrow);
    AllSpaceNotContains(w, arrow);
    BlockLineOfSides(w, rest, arrow);
    FieldsOfAllSpace(w);
  }

  /** A new side without any field is an error, and nothing is appended. */
  lemma BlockLineWithoutNewPathFails(oldWords: seq<string>, w: string, arrow: string)
    requires arrow == "=>" && AllSpace(w)
    requires oldWords != [] && forall i :: 0 <= i < |oldWords| ==> Word(oldWords[i]) && NoArrow(oldWords[i])
    ensures BlockLine(Join(oldWords, " ") + (" " + (arrow + w))) == Stop(Error(InvalidReplace))
  {
    ArrowIsSimple(arrow);
    var a := Join(oldWords, " ") + " ";
    assert Join(oldWords, " ") + (" " + (arrow + w)) == a + (arrow + w);
    SpacedWordsNoArrow(oldWords, arrow);
    SpacedWordsFields(oldWords);
    AllSpaceNotContains(w, arrow);
    FieldsOfAllSpace(w);
    BlockLineOfSides(a, w, arrow);
  }
}
