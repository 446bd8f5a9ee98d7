/** pkg/parser/retract_handler.go: `retract` lines, on their own and inside
    a `retract ( … )` block, each a single version or a `[low, high]` range
    with an optional `// rationale`. */
module RetractHandler {
  import opened Wrappers
  import opened Text
  import opened Grammar
  import opened GoMod
  import opened ParseErrors

  /** The groups of a pattern, when it matches with `n` of them (the
      Go code checks the length of the submatch slice). */
  function Captures(p: seq<Piece>, line: string, n: nat): (r: Option<seq<string>>)
    ensures r.Some? ==> |r.value| == n && Match(p, line) == r
  {
    var m := Match(p, line);
    if m.Some? && |m.value| == n then m else None
  }

  /** What parseRetractSingleLine appends: the single-version pattern is
      tried first, then the range pattern; the rationale comes from the tail. */
  function SingleLine(line: string): (r: Option<Retract>)
    ensures r.Some? ==> Trimmed(r.value.rationale)
    ensures r.Some? && r.value.version != "" ==> r.value.versionLow == "" && r.value.versionHigh == ""
  {
    match Captures(RetractVersionPattern, line, 2)
    case Some(m) => Some(Retract(m[0], "", "", Rationale(m[1])))
    case None =>
      match Captures(RetractRangePattern, line, 3)
      case Some(m) => Some(Retract("", m[0], m[1], Rationale(m[2])))
      case None => None
  }

  /** The rationale of a single-version block line: the first field from
      index `i` on that starts with `//` begins the comment, which is the
      fields from there on joined by single spaces. */
  function RationaleFrom(parts: seq<string>, i: nat): (r: string)
    ensures Trimmed(r)
    ensures (forall j :: i <= j < |parts| ==> !HasPrefix(parts[j], "//")) ==> r == ""
    decreases |parts| - i
  {
    if i >= |parts| then ""
    else if HasPrefix(parts[i], "//") then Rationale(Join(parts[i..], " "))
    else RationaleFrom(parts, i + 1)
  }

  /** The rationale after the `]` of a block range: only a comment right
      after it counts. */
  function RangeRationale(rest: string): (r: string)
    ensures Trimmed(r)
    ensures !HasPrefix(rest, "//") ==> r == ""
  {
    if HasPrefix(rest, "//") then Rationale(rest) else ""
  }

  /** The rationale of a block range whose `]` is at `rangeEnd`. */
  function RationaleAfter(t: string, rangeEnd: nat): (r: string)
    ensures Trimmed(r)
  {
    if rangeEnd + 1 < |t| then RangeRationale(TrimSpace(t[rangeEnd + 1..])) else ""
  }

  /** A version as a block line accepts it: starting with `v` or `V`. */
  predicate VersionStart(v: string) {
    v != [] && (v[0] == 'v' || v[0] == 'V')
  }

  /** A trimmed block line with `[` and `]`: the range between the first
      `[` and the first `]`. */
  function RangeLine(t: string): (r: LineOutcome<Retract>)
    requires Contains(t, "[") && Contains(t, "]")
    ensures !r.Skip?
    ensures r.Stop? ==> r.halt == Error(InvalidRetract)
    ensures r.Add? ==>
              r.entry.version == "" && Trimmed(r.entry.rationale)
              && Trimmed(r.entry.versionLow) && Trimmed(r.entry.versionHigh)
  {
    var rangeStart := IndexOf(t, "[").value;
    var rangeEnd := IndexOf(t, "]").value;
    if rangeEnd > rangeStart then RangeBetween(t, rangeStart, rangeEnd)
    else Stop(Error(InvalidRetract))
  }

  /** The range of a block line whose brackets are at `rangeStart` and
      `rangeEnd`: the text between them split at its one comma. */
  function RangeBetween(t: string, rangeStart: nat, rangeEnd: nat): (r: LineOutcome<Retract>)
    requires rangeStart < rangeEnd < |t|
    ensures !r.Skip?
    ensures r.Stop? ==> r.halt == Error(InvalidRetract)
    ensures r.Add? ==>
              r.entry.version == "" && Trimmed(r.entry.rationale)
              && Trimmed(r.entry.versionLow) && Trimmed(r.entry.versionHigh)
  {
    var versions := Split(t[rangeStart + 1..rangeEnd], ",");
    if |versions| == 2 then
      Add(Retract("", TrimSpace(versions[0]), TrimSpace(versions[1]), RationaleAfter(t, rangeEnd)))
    else Stop(Error(InvalidRetract))
  }

  /** A trimmed block line without a range: a version starting with `v` or
      `V`, and the rationale of a later comment. */
  function VersionLine(t: string): (r: LineOutcome<Retract>)
    ensures !r.Skip?
    ensures r.Stop? ==> r.halt == Error(InvalidRetract)
    ensures r.Add? ==>
              VersionStart(r.entry.version) && Word(r.entry.version) && Trimmed(r.entry.rationale)
              && r.entry.versionLow == "" && r.entry.versionHigh == ""
  {
    var parts := Fields(t);
    if |parts| < 1 || |parts[0]| < 1 || (parts[0][0] != 'v' && parts[0][0] != 'V') then Stop(Error(InvalidRetract))
    else
      FieldsAreWords(t);
      Add(Retract(parts[0], "", "", RationaleFrom(parts, 1)))
  }

  /** What parseRetractBlockLine does with a line inside a retract block. */
  function BlockLine(line: string): (r: LineOutcome<Retract>)
    ensures r.Skip? <==> TrimSpace(line) == "" || HasPrefix(TrimSpace(line), "//")
    ensures r.Stop? ==> r.halt == Error(InvalidRetract)
    ensures r.Add? ==> Trimmed(r.entry.rationale)
    ensures r.Add? && r.entry.version != "" ==>
              VersionStart(r.entry.version) && Word(r.entry.version)
              && r.entry.versionLow == "" && r.entry.versionHigh == ""
    ensures r.Add? && r.entry.version == "" ==>
              Contains(line, "[") && Contains(line, "]")
              && Trimmed(r.entry.versionLow) && Trimmed(r.entry.versionHigh)
  {
    var t := TrimSpace(line);
    if t == "" || HasPrefix(t, "//") then Skip
    else if Contains(t, "[") && Contains(t, "]") then
      ContainsWithin(line, t, "[");
      ContainsWithin(line, t, "]");
      RangeLine(t)
    else VersionLine(t)
  }

  /** What occurs in the trimmed text occurs in the text. */
  lemma ContainsWithin(s: string, t: string, pat: string)
    requires t == TrimSpace(s) && Contains(t, pat)
    ensures Contains(s, pat)
  {
    var a := LeadingSpace(s);
    var k := IndexOf(t, pat).value;
    assert OccursAt(t, pat, k);
    if a < |s| {
      var b := TrailingSpace(s);
      assert t == s[a..|s| - b];
      assert a + k + |pat| <= |s| - b;
      assert s[a + k..a + k + |pat|] == s[a..|s| - b][k..k + |pat|];
      assert OccursAt(s, pat, a + k);
    } else {
      assert pat == [];
      assert OccursAt(s, pat, 0);
    }
  }

  /** parseRetractSingleLine */
  method ParseRetractSingleLine(mod: Module, line: string) returns (handled: bool)
    modifies mod`retractions
    ensures handled == SingleLine(line).Some?
    ensures mod.retractions == old(mod.retractions) + (if handled then [SingleLine(line).value] else [])
  {
    var matches := Captures(RetractVersionPattern, line, 2);
    if matches.Some? {
      var m := matches.value;
      var retract := Retract(m[0], "", "", "");
      retract := retract.(rationale := Rationale(m[1]));
      mod.retractions := mod.retractions + [retract];
      return true;
    }
    matches := Captures(RetractRangePattern, line, 3);
    if matches.Some? {
      var m := matches.value;
      var retract := Retract("", m[0], m[1], "");
      retract := retract.(rationale := Rationale(m[2]));
      mod.retractions := mod.retractions + [retract];
      return true;
    }
    return false;
  }

  /** parseRetractBlockLine */
  method ParseRetractBlockLine(mod: Module, line: string) returns (err: Option<Halt>)
    modifies mod`retractions
    ensures err == HaltOf(BlockLine(line))
    ensures mod.retractions == old(mod.retractions) + Added(BlockLine(line))
  {
    var t := TrimSpace(line);
    if t == "" || HasPrefix(t, "//") {
      return None;
    }
    if Contains(t, "[") && Contains(t, "]") {
      err := ParseRetractRange(mod, t);
    } else {
      err := ParseRetractVersion(mod, t);
    }
  }

  /** The range branch of parseRetractBlockLine, on the trimmed line. */
  method ParseRetractRange(mod: Module, t: string) returns (err: Option<Halt>)
    requires Contains(t, "[") && Contains(t, "]")
    modifies mod`retractions
    ensures err == HaltOf(RangeLine(t))
    ensures mod.retractions == old(mod.retractions) + Added(RangeLine(t))
  {
    var rangeStart := IndexOf(t, "[").value;
    var rangeEnd := IndexOf(t, "]").value;
    if rangeEnd > rangeStart {
      err := ParseRetractBetween(mod, t, rangeStart, rangeEnd);
      return;
    }
    return Some(Error(InvalidRetract));
  }

  /** The part of the range branch between the brackets. */
  method ParseRetractBetween(mod: Module, t: string, rangeStart: nat, rangeEnd: nat) returns (err: Option<Halt>)
    requires rangeStart < rangeEnd < |t|
    modifies mod`retractions
    ensures err == HaltOf(RangeBetween(t, rangeStart, rangeEnd))
    ensures mod.retractions == old(mod.retractions) + Added(RangeBetween(t, rangeStart, rangeEnd))
  {
    var versions := Split(t[rangeStart + 1..rangeEnd], ",");
    if |versions| != 2 {
      return Some(Error(InvalidRetract));
    }
    var rationale := "";
    if rangeEnd + 1 < |t| {
      var rest := TrimSpace(t[rangeEnd + 1..]);
      if HasPrefix(rest, "//") {
        rationale := Rationale(rest);
      }
    }
    var retract := Retract("", TrimSpace(versions[0]), TrimSpace(versions[1]), rationale);
    mod.retractions := mod.retractions + [retract];
    return None;
  }

  /** The single-version branch of parseRetractBlockLine, on the trimmed line. */
  method ParseRetractVersion(mod: Module, t: string) returns (err: Option<Halt>)
    modifies mod`retractions
    ensures err == HaltOf(VersionLine(t))
    ensures mod.retractions == old(mod.retractions) + Added(VersionLine(t))
  {
    var parts := Fields(t);
    if |parts| < 1 || |parts[0]| < 1 || (parts[0][0] != 'v' && parts[0][0] != 'V') {
      return Some(Error(InvalidRetract));
    }
    var retract := Retract(parts[0], "", "", "");
    var i := 1;
    while i < |parts|
      invariant 1 <= i <= |parts|
      invariant RationaleFrom(parts, i) == RationaleFrom(parts, 1)
      invariant retract == Retract(parts[0], "", "", "")
    {
      if HasPrefix(parts[i], "//") {
        var commentText := Join(parts[i..], " ");
        retract := retract.(rationale := Rationale(commentText));
        break;
      }
      i := i + 1;
    }
    mod.retractions := mod.retractions + [retract];
    return None;
  }

  // ---------------------------------------------------------------------
  // The lines that write a Retract out, and the properties of both forms

  /** The comment that carries a rationale; none for an empty one. */
  function Comment(rationale: string): string {
    if rationale == "" then "" else " " + ("//" + (" " + rationale))
  }

  /** A Retract as it appears inside a retract block: its version, or its
      range as `[low, high]`, then its comment. */
  function Entry(r: Retract): string {
    if r.version != "" then r.version + Comment(r.rationale)
    else "[" + (r.versionLow + ("," + (" " + (r.versionHigh + ("]" + Comment(r.rationale))))))
  }

  /** A single-line retract declaration. */
  function Declaration(r: Retract): string {
    "retract" + (" " + Entry(r))
  }

  /** A rationale that a comment can carry unchanged. */
  predicate RationaleText(s: string) {
    Trimmed(s) && '\n' !in s
  }

  /** A Retract that a single-line declaration can state. */
  predicate SingleLineRetract(r: Retract) {
    RationaleText(r.rationale) &&
    if r.version != "" then
      AllInClass(r.version, NonBlankBracket) && r.versionLow == "" && r.versionHigh == ""
    else
      r.versionLow != [] && AllInClass(r.versionLow, NonBlankComma)
      && r.versionHigh != [] && AllInClass(r.versionHigh, NonBlankCommaClose)
  }

  /** A bound of a range as a block line reads it. */
  predicate RangeBound(v: string) {
    Word(v) && ',' !in v && '[' !in v && ']' !in v
  }

  /** The rationale of `b//btext`, for a blank `b`, with the literal `//`. */
  lemma BlankCommentRationale(b: string, text: string)
    requires b == " " && RationaleText(text) && text != ""
    ensures Rationale(b + "//" + b + text) == TrimSpace(text)
  {
    RationaleOfComment(b, b, text);
  }

  /** The same with the comment mark as a parameter, nested the way Comment writes it. */
  lemma SpacedCommentRationale(b: string, mark: string, text: string)
    requires b == " " && mark == "//" && RationaleText(text) && text != ""
    ensures Rationale(b + (mark + (b + text))) == text
  {
    assert b + "//" + b + text == b + (mark + (b + text));
    BlankCommentRationale(b, text);
    TrimSpaceOfTrimmed(text);
  }

  /** The rationale of a written-out comment is the rationale itself. */
  lemma CommentRationale(text: string)
    requires RationaleText(text)
    ensures Rationale(Comment(text)) == text
  {
    if text != "" {
      SpacedCommentRationale(" ", "//", text);
    }
  }

  /** A written-out comment is one line that starts with a blank. */
  lemma CommentShape(text: string)
    requires RationaleText(text)
    ensures '\n' !in Comment(text) && (Comment(text) == [] || Comment(text)[0] == ' ')
  {
  }

  /** The single-line form reads a declaration back, in both its forms. */
  lemma SingleLineReadsDeclaration(r: Retract)
    requires SingleLineRetract(r)
    ensures SingleLine(Declaration(r)) == Some(r)
  {
    if r.version != "" {
      SingleLineReadsVersion(r);
    } else {
      SingleLineReadsRange(r);
    }
  }

  /** The single-version form of SingleLineReadsDeclaration. */
  lemma SingleLineReadsVersion(r: Retract)
    requires SingleLineRetract(r) && r.version != ""
    ensures SingleLine(Declaration(r)) == Some(r)
  {
    var c := Comment(r.rationale);
    CommentRationale(r.rationale);
    CommentShape(r.rationale);
    assert AllBlank(" ");
    RetractVersionLineMatches(" ", r.version, c);
  }

  /** The range form of SingleLineReadsDeclaration. */
  lemma SingleLineReadsRange(r: Retract)
    requires SingleLineRetract(r) && r.version == ""
    ensures SingleLine(Declaration(r)) == Some(r)
  {
    var c := Comment(r.rationale);
    var low, high := r.versionLow, r.versionHigh;
    var highPart := "," + (" " + (high + ("" + ("]" + c))));
    assert AllBlank(" ") && AllBlank("");
    assert Entry(r) == "[" + ("" + (low + ("" + highPart)));
    RetractVersionRejectsBracket(" ", Entry(r));
    CommentShape(r.rationale);
    RetractRangeLineMatches(" ", "", low, "", highPart, " ", high, "", c);
    CommentRationale(r.rationale);
  }

  /** A single line that parses at all is retracting something. */
  lemma SingleLineRetractsSomething(line: string)
    requires SingleLine(line).Some?
    ensures SingleLine(line).value.version != "" || SingleLine(line).value.versionLow != ""
  {
    match Captures(RetractVersionPattern, line, 2)
    case Some(m) =>
      MatchSound(RetractVersionPattern, line);
      assert m[0] != [];
    case None =>
      var m := Captures(RetractRangePattern, line, 3).value;
      MatchSound(RetractRangePattern, line);
      assert m[0] != [];
  }

  // Block lines

  /** Fields of a version and its written-out comment. */
  lemma VersionEntryFields(version: string, mark: string, words: seq<string>)
    requires mark == "//" && Word(version) && words != []
    requires forall i :: 0 <= i < |words| ==> Word(words[i])
    ensures Fields(version + Comment(Join(words, " "))) == [version, mark] + words
  {
    var j := Join(words, " ");
    JoinOfWords(words);
    assert Word(mark);
    assert version + Comment(j) == version + (" " + (mark + (" " + j)));
    FieldsOfWordsLine(version, mark, " " + j);
    assert AllSpace(" ");
    FieldsOfPadded(" ", j);
    FieldsOfJoin(words);
  }

  /** The rationale of `//btext`, for a blank `b`. */
  lemma MarkedTextRationale(mark: string, b: string, text: string)
    requires mark == "//" && b == " " && RationaleText(text) && text != ""
    ensures Rationale(mark + b + text) == text
  {
    UnprefixedCommentRationale(b, text);
    assert [] + "//" + b + text == mark + b + text;
    TrimSpaceOfTrimmed(text);
  }

  /** The rationale of a comment with nothing before its `//`. */
  lemma UnprefixedCommentRationale(b: string, text: string)
    requires b == " " && RationaleText(text) && text != ""
    ensures Rationale([] + "//" + b + text) == TrimSpace(text)
  {
    RationaleOfComment([], b, text);
  }

  /** The comment fields of a version line join back into the rationale. */
  lemma JoinedCommentRationale(mark: string, words: seq<string>)
    requires mark == "//" && words != []
    requires forall i :: 0 <= i < |words| ==> Word(words[i])
    ensures Rationale(Join([mark] + words, " ")) == Join(words, " ")
  {
    var j := Join(words, " ");
    JoinOfWords(words);
    assert ([mark] + words)[1..] == words;
    assert Join([mark] + words, " ") == mark + " " + j;
    MarkedTextRationale(mark, " ", j);
  }

  /** VersionLine reads a version and a comment of words. */
  lemma VersionLineReads(version: string, words: seq<string>)
    requires VersionStart(version) && Word(version)
    requires forall i :: 0 <= i < |words| ==> Word(words[i])
    ensures VersionLine(version + Comment(Join(words, " "))) == Add(Retract(version, "", "", Join(words, " ")))
  {
    if words == [] {
      assert version + Comment(Join(words, " ")) == version;
      FieldsOfWord(version);
    } else {
      VersionLineReadsComment(version, "//", words);
    }
  }

  /** VersionLineReads when there is a comment. */
  lemma VersionLineReadsComment(version: string, mark: string, words: seq<string>)
    requires mark == "//" && VersionStart(version) && Word(version) && words != []
    requires forall i :: 0 <= i < |words| ==> Word(words[i])
    ensures VersionLine(version + Comment(Join(words, " "))) == Add(Retract(version, "", "", Join(words, " ")))
  {
    VersionEntryFields(version, mark, words);
    VersionLineReadsFields(version + Comment(Join(words, " ")), version, mark, words);
  }

  /** A line whose fields are a version, the comment mark and words. */
  lemma VersionLineReadsFields(t: string, version: string, mark: string, words: seq<string>)
    requires Fields(t) == [version, mark] + words
    requires mark == "//" && VersionStart(version) && words != []
    requires forall i :: 0 <= i < |words| ==> Word(words[i])
    ensures VersionLine(t) == Add(Retract(version, "", "", Join(words, " ")))
  {
    assert Fields(t) == [version] + ([mark] + words);
    JoinedCommentRationale(mark, words);
    VersionLineWithComment(t, version, [mark] + words);
  }

  /** A version line whose second field opens the comment. */
  lemma VersionLineWithComment(t: string, version: string, rest: seq<string>)
    requires Fields(t) == [version] + rest && VersionStart(version) && rest != [] && HasPrefix(rest[0], "//")
    ensures VersionLine(t) == Add(Retract(version, "", "", Rationale(Join(rest, " "))))
  {
    assert Fields(t)[1..] == rest && Fields(t)[1] == rest[0];
  }

  /** A version entry has no white space around it and no `[`. */
  lemma VersionEntryShape(version: string, text: string)
    requires Word(version) && RationaleText(text) && '[' !in version && '[' !in text
    ensures Trimmed(version + Comment(text)) && '[' !in version + Comment(text)
    ensures (version + Comment(text))[0] == version[0]
  {
    var e := version + Comment(text);
    if text == "" {
      assert e == version;
    } else {
      assert e[|e| - 1] == text[|text| - 1];
    }
  }

  /** A trimmed line that is neither a comment nor bracketed is read as a version. */
  lemma BlockLineOfVersion(e: string)
    requires Trimmed(e) && e != [] && !HasPrefix(e, "//") && !Contains(e, "[")
    ensures BlockLine(e) == VersionLine(e)
  {
    TrimSpaceOfTrimmed(e);
  }

  /** Inside a block, a written-out version entry reads back as the same
      Retract; a rationale of words is kept as written, joined by single
      spaces. */
  lemma BlockLineReadsVersionEntry(r: Retract, words: seq<string>)
    requires VersionStart(r.version) && Word(r.version) && '[' !in r.version
    requires r.versionLow == "" && r.versionHigh == "" && r.rationale == Join(words, " ")
    requires forall i :: 0 <= i < |words| ==> Word(words[i]) && '[' !in words[i]
    ensures BlockLine(Entry(r)) == Add(r)
  {
    var e := Entry(r);
    JoinOfWords(words);
    JoinAvoids(words, '[');
    VersionEntryShape(r.version, r.rationale);
    NotContainsChar(e, "[");
    BlockLineOfVersion(e);
    VersionLineReads(r.version, words);
  }

  /** The part of a range entry up to its `]`. */
  function RangeHead(low: string, high: string): string {
    "[" + (low + ("," + (" " + high)))
  }

  /** The brackets of a range entry are its first `[` and its first `]`. */
  lemma RangeEntryBrackets(low: string, high: string, c: string)
    requires RangeBound(low) && RangeBound(high)
    ensures IndexOf(RangeHead(low, high) + ("]" + c), "[") == Some(0)
    ensures IndexOf(RangeHead(low, high) + ("]" + c), "]") == Some(|RangeHead(low, high)|)
  {
    var a := RangeHead(low, high);
    var e := a + ("]" + c);
    assert [] + ("[" + (low + ("," + (" " + high)) + ("]" + c))) == e;
    IndexAfter([], "[", low + ("," + (" " + high)) + ("]" + c));
    assert ']' !in a;
    NotContainsChar(a, "]");
    IndexAfter(a, "]", c);
  }

  /** The text between the brackets of a range entry splits into its bounds. */
  lemma RangeEntryVersions(low: string, high: string)
    requires RangeBound(low) && RangeBound(high)
    ensures Split(low + ("," + (" " + high)), ",") == [low, " " + high]
  {
    NotContainsChar(low, ",");
    SplitAfter(low, ",", " " + high);
    assert ',' !in " " + high;
    NotContainsChar(" " + high, ",");
    SplitWithout(" " + high, ",");
  }

  /** The bounds of a range entry, trimmed. */
  lemma RangeEntryBounds(low: string, high: string)
    requires RangeBound(low) && RangeBound(high)
    ensures TrimSpace(low) == low && TrimSpace(" " + high) == high
  {
    TrimSpaceOfTrimmed(low);
    assert AllSpace(" ");
    TrimSpacePadded(" ", high, []);
    assert " " + high + [] == " " + high;
  }

  /** TrimSpace takes the blank off the front of a written-out comment. */
  lemma CommentTrimmed(mark: string, text: string)
    requires mark == "//" && RationaleText(text) && text != ""
    ensures TrimSpace(Comment(text)) == mark + (" " + text)
  {
    var m := mark + (" " + text);
    assert Trimmed(m) by { assert m[|m| - 1] == text[|text| - 1]; }
    assert AllSpace(" ");
    TrimSpacePadded(" ", m, []);
    assert " " + m + [] == Comment(text);
  }

  /** The rationale of a trimmed comment after a range. */
  lemma RangeMarkedRationale(m: string, mark: string, text: string)
    requires mark == "//" && RationaleText(text) && text != "" && m == mark + (" " + text)
    ensures RangeRationale(m) == text
  {
    assert mark + " " + text == m;
    assert HasPrefix(m, "//") by { assert m[..|mark|] == mark; }
    MarkedTextRationale(mark, " ", text);
  }

  /** The rationale after the `]` of a written-out range. */
  lemma RangeCommentRationale(mark: string, text: string)
    requires mark == "//" && RationaleText(text) && text != ""
    ensures RangeRationale(TrimSpace(Comment(text))) == text
  {
    CommentTrimmed(mark, text);
    RangeMarkedRationale(TrimSpace(Comment(text)), mark, text);
  }

  /** The rationale RangeLine finds after a written-out range. */
  lemma RangeEntryRationale(r: Retract)
    requires r.version == "" && RangeBound(r.versionLow) && RangeBound(r.versionHigh) && RationaleText(r.rationale)
    ensures |RangeHead(r.versionLow, r.versionHigh)| < |Entry(r)|
    ensures RationaleAfter(Entry(r), |RangeHead(r.versionLow, r.versionHigh)|) == r.rationale
  {
    var a := RangeHead(r.versionLow, r.versionHigh);
    var e := Entry(r);
    if r.rationale == "" {
      assert e == a + "]";
      RationaleAfterFrom(e, |a|, r.rationale);
    } else {
      RangeEntryCommentRationale(a, e, r.rationale);
    }
  }

  /** The rationale after a `]` followed by a written-out comment. */
  lemma RangeEntryCommentRationale(a: string, e: string, text: string)
    requires RationaleText(text) && text != "" && e == a + ("]" + Comment(text))
    ensures RationaleAfter(e, |a|) == text
  {
    assert e[|a| + 1..] == Comment(text);
    RangeCommentRationale("//", text);
    RationaleAfterFrom(e, |a|, text);
  }

  /** RationaleAfter from what it computes. */
  lemma RationaleAfterFrom(t: string, end: nat, text: string)
    requires end < |t|
    requires text == "" ==> end + 1 == |t|
    requires text != "" ==> end + 1 < |t| && RangeRationale(TrimSpace(t[end + 1..])) == text
    ensures RationaleAfter(t, end) == text
  {
  }

  /** RangeBetween from what it computes. */
  lemma RangeBetweenFrom(e: string, end: nat, low: string, high: string, rationale: string)
    requires 0 < end < |e|
    requires Split(e[1..end], ",") == [low, " " + high]
    requires TrimSpace(low) == low && TrimSpace(" " + high) == high
    requires RationaleAfter(e, end) == rationale
    ensures RangeBetween(e, 0, end) == Add(Retract("", low, high, rationale))
  {
  }

  /** RangeBetween reads a written-out range. */
  lemma RangeBetweenReads(r: Retract)
    requires r.version == "" && RangeBound(r.versionLow) && RangeBound(r.versionHigh) && RationaleText(r.rationale)
    ensures |RangeHead(r.versionLow, r.versionHigh)| < |Entry(r)|
    ensures RangeBetween(Entry(r), 0, |RangeHead(r.versionLow, r.versionHigh)|) == Add(r)
  {
    var low, high := r.versionLow, r.versionHigh;
    var a := RangeHead(low, high);
    var e := Entry(r);
    assert e[1..|a|] == low + ("," + (" " + high)) by {
      assert e == a + ("]" + Comment(r.rationale));
    }
    RangeEntryVersions(low, high);
    RangeEntryBounds(low, high);
    RangeEntryRationale(r);
    RangeBetweenFrom(e, |a|, low, high, r.rationale);
  }

  /** A range entry has no white space around it and starts with `[`. */
  lemma RangeEntryShape(r: Retract)
    requires r.version == "" && RangeBound(r.versionLow) && RangeBound(r.versionHigh) && RationaleText(r.rationale)
    ensures Trimmed(Entry(r)) && Entry(r) != [] && Entry(r)[0] == '['
  {
    var e := Entry(r);
    if r.rationale != "" {
      assert e[|e| - 1] == r.rationale[|r.rationale| - 1];
    }
  }

  /** BlockLine on a trimmed line whose first `[` comes first and whose first `]` is later. */
  lemma BlockLineOfRange(e: string, end: nat)
    requires TrimSpace(e) == e && e != [] && e[0] == '['
    requires IndexOf(e, "[") == Some(0) && IndexOf(e, "]") == Some(end) && 0 < end < |e|
    ensures BlockLine(e) == RangeBetween(e, 0, end)
  {
    assert !HasPrefix(e, "//");
  }

  /** Inside a block, a written-out range entry reads back as the same Retract. */
  lemma BlockLineReadsRangeEntry(r: Retract)
    requires r.version == "" && RangeBound(r.versionLow) && RangeBound(r.versionHigh) && RationaleText(r.rationale)
    ensures BlockLine(Entry(r)) == Add(r)
  {
    var e := Entry(r);
    var a := RangeHead(r.versionLow, r.versionHigh);
    RangeEntryShape(r);
    TrimSpaceOfTrimmed(e);
    assert IndexOf(e, "[") == Some(0) && IndexOf(e, "]") == Some(|a|) by {
      assert e == a + ("]" + Comment(r.rationale));
      RangeEntryBrackets(r.versionLow, r.versionHigh, Comment(r.rationale));
    }
    RangeBetweenReads(r);
    BlockLineOfRange(e, |a|);
  }

  // Block lines that are errors

  /** A word is trimmed. */
  lemma WordTrimmed(w: string)
    requires Word(w)
    ensures Trimmed(w)
  {
    assert !IsSpace(w[|w| - 1]);
  }

  /** A version must start with `v` or `V`: any other single word is an error. */
  lemma BlockLineNeedsVersionPrefix(v: string)
    requires Word(v) && !VersionStart(v) && '[' !in v && !HasPrefix(v, "//")
    ensures BlockLine(v) == Stop(Error(InvalidRetract))
  {
    WordTrimmed(v);
    NotContainsChar(v, "[");
    BlockLineOfVersion(v);
    FieldsOfWord(v);
  }

  /** The first `[` and the first `]` of `a[mid]post`, when `a` has no
      bracket and `mid` no `]`. */
  lemma BracketsAt(t: string, a: string, mid: string, post: string)
    requires t == a + ("[" + (mid + ("]" + post)))
    requires '[' !in a && ']' !in a && ']' !in mid
    ensures IndexOf(t, "[") == Some(|a|) && IndexOf(t, "]") == Some(|a| + 1 + |mid|)
    ensures t[|a| + 1..|a| + 1 + |mid|] == mid
  {
    NotContainsChar(a, "[");
    IndexAfter(a, "[", mid + ("]" + post));
    var b := a + ("[" + mid);
    assert ']' !in b;
    NotContainsChar(b, "]");
    assert t == b + ("]" + post);
    IndexAfter(b, "]", post);
  }

  /** Between the brackets there must be a comma. */
  lemma RangeBetweenWithoutComma(t: string, rangeStart: nat, rangeEnd: nat)
    requires rangeStart < rangeEnd < |t| && ',' !in t[rangeStart + 1..rangeEnd]
    ensures RangeBetween(t, rangeStart, rangeEnd) == Stop(Error(InvalidRetract))
  {
    NotContainsChar(t[rangeStart + 1..rangeEnd], ",");
    SplitWithout(t[rangeStart + 1..rangeEnd], ",");
  }

  /** A bracketed text without a comma is no range. */
  lemma RangeWithoutCommaFails(t: string, a: string, mid: string, post: string)
    requires t == a + ("[" + (mid + ("]" + post)))
    requires '[' !in a && ']' !in a && ']' !in mid && ',' !in mid
    ensures Contains(t, "[") && Contains(t, "]")
    ensures RangeLine(t) == Stop(Error(InvalidRetract))
  {
    BracketsAt(t, a, mid, post);
    RangeBetweenWithoutComma(t, |a|, |a| + 1 + |mid|);
  }

  /** BlockLine on a trimmed line with both brackets that is no comment. */
  lemma BlockLineOfBrackets(e: string)
    requires TrimSpace(e) == e && e != [] && !HasPrefix(e, "//")
    requires Contains(e, "[") && Contains(e, "]")
    ensures BlockLine(e) == RangeLine(e)
  {
  }

  /** `[v]` without a comma is an error. */
  lemma BlockLineRangeNeedsComma(v: string)
    requires RangeBound(v)
    ensures BlockLine("[" + (v + "]")) == Stop(Error(InvalidRetract))
  {
    var e := "[" + (v + "]");
    assert e == [] + ("[" + (v + ("]" + [])));
    assert e[0] == '[' && e[|e| - 1] == ']';
    assert Trimmed(e) && !HasPrefix(e, "//");
    TrimSpaceOfTrimmed(e);
    RangeWithoutCommaFails(e, [], v, []);
    BlockLineOfBrackets(e);
  }

  /** A version whose comment holds a bracketed text without a comma: the
      block form takes the line for a range and fails, while the single-line
      form reads the same text as a version and its rationale. */
  lemma BracketedCommentBreaksBlockVersion(version: string, mid: string)
    requires VersionStart(version) && Word(version) && '[' !in version && ']' !in version
    requires ']' !in mid && ',' !in mid && '\n' !in mid
    ensures BlockLine(version + Comment("[" + (mid + "]"))) == Stop(Error(InvalidRetract))
    ensures SingleLine("retract" + (" " + (version + Comment("[" + (mid + "]"))))) ==
              Some(Retract(version, "", "", "[" + (mid + "]")))
  {
    var text := "[" + (mid + "]");
    var line := version + Comment(text);
    var r := Retract(version, "", "", text);
    assert RationaleText(text) by { assert '\n' !in text && text[0] == '[' && text[|text| - 1] == ']'; }
    assert AllInClass(version, NonBlankBracket) by {
      forall i | 0 <= i < |version| ensures InClass(version[i], NonBlankBracket) {
        assert !IsSpace(version[i]);
      }
    }
    assert SingleLineRetract(r);
    assert Declaration(r) == "retract" + (" " + line);
    SingleLineReadsDeclaration(r);
    BracketedVersionBlockLine(version, mid, line);
  }

  /** A version line whose comment is bracketed, as a text. */
  lemma BracketedVersionShape(version: string, mid: string, line: string)
    requires VersionStart(version) && Word(version) && '[' !in version && ']' !in version
    requires line == version + Comment("[" + (mid + "]"))
    ensures line == (version + " // ") + ("[" + (mid + ("]" + [])))
    ensures '[' !in version + " // " && ']' !in version + " // "
    ensures TrimSpace(line) == line && line != [] && !HasPrefix(line, "//")
  {
    assert line == (version + " // ") + ("[" + (mid + ("]" + [])));
    assert line[0] == version[0] && line[|line| - 1] == ']';
    assert Trimmed(line);
    FirstCharNotPrefix(line, "//");
    TrimSpaceOfTrimmed(line);
  }

  /** The block form reads such a line as a range without a comma. */
  lemma BracketedVersionBlockLine(version: string, mid: string, line: string)
    requires VersionStart(version) && Word(version) && '[' !in version && ']' !in version
    requires ']' !in mid && ',' !in mid && line == version + Comment("[" + (mid + "]"))
    ensures BlockLine(line) == Stop(Error(InvalidRetract))
  {
    BracketedVersionShape(version, mid, line);
    RangeWithoutCommaFails(line, version + " // ", mid, []);
    BlockLineOfBrackets(line);
  }

  /** A version whose comment holds a bracketed text with one comma: the
      block form reads the comment as the range, and the version is lost. */
  lemma BracketedCommentReplacesBlockVersion(version: string, lo: string, hi: string)
    requires VersionStart(version) && Word(version) && '[' !in version && ']' !in version
    requires ']' !in lo && ',' !in lo && ']' !in hi && ',' !in hi
    ensures BlockLine(version + Comment("[" + ((lo + ("," + hi)) + "]"))) ==
              Add(Retract("", TrimSpace(lo), TrimSpace(hi), ""))
  {
    var mid := lo + ("," + hi);
    var line := version + Comment("[" + (mid + "]"));
    var a := version + " // ";
    var j := |a| + 1 + |mid|;
    assert line == a + ("[" + (mid + ("]" + []))) && '[' !in a && ']' !in a
           && TrimSpace(line) == line && line != [] && !HasPrefix(line, "//") by {
      BracketedVersionShape(version, mid, line);
    }
    assert IndexOf(line, "[") == Some(|a|) && IndexOf(line, "]") == Some(j) by {
      BracketsAt(line, a, mid, []);
    }
    BracketedRange(line, |a|, j);
    RangeBetweenOfComma(a, mid, line, lo, hi);
  }

  /** A trimmed line that is no comment and has a `[` before its first `]`
      is read as the range between them. */
  lemma BracketedRange(line: string, i: nat, j: nat)
    requires IndexOf(line, "[") == Some(i) && IndexOf(line, "]") == Some(j) && i < j
    requires TrimSpace(line) == line && line != [] && !HasPrefix(line, "//")
    ensures j < |line| && BlockLine(line) == RangeBetween(line, i, j)
  {
    RangeLineAt(line, i, j);
    BlockLineOfBrackets(line);
  }

  /** The range of `a[lo,hi]`: the two trimmed parts, with no rationale. */
  lemma RangeBetweenOfComma(a: string, mid: string, line: string, lo: string, hi: string)
    requires line == a + ("[" + (mid + ("]" + [])))
    requires mid == lo + ("," + hi) && ',' !in lo && ',' !in hi
    ensures RangeBetween(line, |a|, |a| + 1 + |mid|) == Add(Retract("", TrimSpace(lo), TrimSpace(hi), ""))
  {
    assert line[|a| + 1..|a| + 1 + |mid|] == mid;
    CommaSplit(lo, hi);
  }

  /** RangeLine with its two brackets located. */
  lemma RangeLineAt(t: string, i: nat, j: nat)
    requires IndexOf(t, "[") == Some(i) && IndexOf(t, "]") == Some(j) && i < j
    ensures Contains(t, "[") && Contains(t, "]") && j < |t|
    ensures RangeLine(t) == RangeBetween(t, i, j)
  {
  }

  /** Text with one comma splits at it into two parts. */
  lemma CommaSplit(lo: string, hi: string)
    requires ',' !in lo && ',' !in hi
    ensures Split(lo + ("," + hi), ",") == [lo, hi]
  {
    NotContainsChar(lo, ",");
    NotContainsChar(hi, ",");
    SplitAfter(lo, ",", hi);
    SplitWithout(hi, ",");
  }
}
