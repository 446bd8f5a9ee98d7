/** pkg/parser/api_wrapper.go read against what it reads: every kind of
    single-line declaration reaches its own handler through
    handleSingleLine's chain of forms, every kind of block appends its
    entries in the order written, and a whole file of such declarations
    parses to a module holding exactly them. */
module RoundTrip {
  import opened Wrappers
  import opened Text
  import opened Grammar
  import opened GoMod
  import opened ParseErrors
  import RequireHandler
  import ReplaceHandler
  import ExcludeHandler
  import RetractHandler
  import opened Driver

  // ---------------------------------------------------------------------
  // Single-line declarations

  /** `module name` sets the name. */
  lemma SingleLineModule(data: ModuleData, name: string)
    requires Word(name)
    ensures SingleLine(data, "module " + name) == Ok(data.(name := name))
  {
    WordInClass(name);
    assert AllBlank(" ");
    assert "module " + name == "module" + " " + name;
    KeywordTokenComplete("module", " ", name);
  }

  /** `go version` is no module line, and sets the go version. */
  lemma SingleLineGo(data: ModuleData, version: string)
    requires Word(version)
    ensures SingleLine(data, "go " + version) == Ok(data.(goVersion := version))
  {
    WordInClass(version);
    assert AllBlank(" ");
    assert "go " + version == "go" + " " + version;
    LiteralMismatch(ModulePattern, "go " + version, 0);
    KeywordTokenComplete("go", " ", version);
  }

  /** A require declaration is no module or go line, and appends its
      requirement. */
  lemma SingleLineRequire(data: ModuleData, r: Require)
    requires Word(r.path) && Word(r.version)
    ensures SingleLine(data, RequireHandler.Declaration(r)) ==
              Ok(data.(requirements := data.requirements + [r]))
  {
    var line := RequireHandler.Declaration(r);
    assert line[0] == 'r';
    LiteralMismatch(ModulePattern, line, 0);
    LiteralMismatch(GoPattern, line, 0);
    RequireHandler.SingleLineReadsDeclaration(r);
  }

  /** A replace declaration differs from `require` at its third letter, and
      appends its replacement. */
  lemma SingleLineReplace(data: ModuleData, rep: Replace)
    requires Word(rep.original.path) && rep.original.version == ""
    requires Word(rep.replacement.path) && Word(rep.replacement.version)
    ensures SingleLine(data, ReplaceHandler.Declaration(rep)) ==
              Ok(data.(replacements := data.replacements + [rep]))
  {
    var line := ReplaceHandler.Declaration(rep);
    assert line[0] == 'r' && line[2] == 'p';
    LiteralMismatch(ModulePattern, line, 0);
    LiteralMismatch(GoPattern, line, 0);
    LiteralMismatch(RequirePattern, line, 2);
    ReplaceHandler.SingleLineReadsDeclaration(rep);
  }

  /** An exclude declaration starts with none of the earlier keywords'
      letters, and appends its exclusion. */
  lemma SingleLineExclude(data: ModuleData, e: Exclude)
    requires Word(e.path) && Word(e.version)
    ensures SingleLine(data, ExcludeHandler.Declaration(e)) ==
              Ok(data.(exclusions := data.exclusions + [e]))
  {
    var line := ExcludeHandler.Declaration(e);
    assert line[0] == 'e';
    LiteralMismatch(ModulePattern, line, 0);
    LiteralMismatch(GoPattern, line, 0);
    LiteralMismatch(RequirePattern, line, 0);
    LiteralMismatch(ReplacePattern, line, 0);
    ExcludeHandler.SingleLineReadsDeclaration(e);
  }

  /** A retract declaration, of a version or of a range, passes every
      earlier form by, and appends its retraction. */
  lemma SingleLineRetract(data: ModuleData, r: Retract)
    requires RetractHandler.SingleLineRetract(r)
    ensures SingleLine(data, RetractHandler.Declaration(r)) ==
              Ok(data.(retractions := data.retractions + [r]))
  {
    var line := RetractHandler.Declaration(r);
    assert line[0] == 'r' && line[2] == 't';
    LiteralMismatch(ModulePattern, line, 0);
    LiteralMismatch(GoPattern, line, 0);
    LiteralMismatch(RequirePattern, line, 2);
    LiteralMismatch(ReplacePattern, line, 2);
    LiteralMismatch(ExcludePattern, line, 0);
    RetractHandler.SingleLineReadsDeclaration(r);
  }

  /** A line with no white space at its ends, that is no comment, not `)`
      and does not end in `(`, is handed to a handler as it is. */
  lemma HandedOver(line: string)
    requires line != [] && Trimmed(line) && !HasPrefix(line, "//") && line != ")"
    requires line[|line| - 1] != '('
    ensures TrimSpace(line) == line && Content(line)
  {
    TrimSpaceOfTrimmed(line);
  }

  /** Outside a block, such a line becomes what handleSingleLine makes of
      it. */
  lemma DeclarationStep(s: Scan, line: string, d: ModuleData)
    requires !s.inBlock && line != [] && Trimmed(line) && !HasPrefix(line, "//") && line != ")"
    requires line[|line| - 1] != '('
    requires SingleLine(s.data, line) == Ok(d)
    ensures Step(s, line) == Ok(s.(data := d, lineNum := s.lineNum + 1))
  {
    HandedOver(line);
  }

  /** A word after a keyword and a blank makes a line the loop hands over. */
  lemma KeywordLine(kw: string, w: string)
    requires kw != [] && kw[0] != '/' && !IsSpace(kw[0]) && Word(w) && w[|w| - 1] != '('
    ensures var line := kw + " " + w;
            line != [] && Trimmed(line) && !HasPrefix(line, "//") && line != ")" && line[|line| - 1] != '('
  {
    var line := kw + " " + w;
    assert line[0] == kw[0] && line[|line| - 1] == w[|w| - 1];
    FirstCharNotPrefix(line, "//");
  }

  // ---------------------------------------------------------------------
  // Blocks, whatever their kind

  /** The entry lines of a block holding `xs`, each written by `entry`. */
  function Lines<T>(entry: T -> string, xs: seq<T>): (lines: seq<string>)
    ensures |lines| == |xs|
    decreases |xs|
  {
    if xs == [] then [] else [entry(xs[0])] + Lines(entry, xs[1..])
  }

  /** A block of the given kind holding `xs`, still open: `kind (`, then
      the entries. */
  function Unclosed<T>(kind: string, entry: T -> string, xs: seq<T>): seq<string> {
    [kind + " ("] + Lines(entry, xs)
  }

  /** A block of the given kind holding `xs`: `kind (`, the entries, `)`. */
  function Block<T>(kind: string, entry: T -> string, xs: seq<T>): seq<string> {
    Unclosed(kind, entry, xs) + [")"]
  }

  /** `add` appends entries to one list of a module: appending nothing
      changes nothing, and appending twice is appending both. */
  ghost predicate Appender<T(!new)>(add: (ModuleData, seq<T>) -> ModuleData) {
    (forall d: ModuleData :: add(d, []) == d)
    && (forall d: ModuleData, a: seq<T>, b: seq<T> {:trigger add(add(d, a), b)} :: add(add(d, a), b) == add(d, a + b))
  }

  /** A step that, inside a block of the kind, appends the entry of each
      line written by `entry` from a well-formed `e`. */
  ghost predicate ReadsEntries<T(!new)>(step: (Scan, string) -> Result<Scan, LineFailure>, kind: string,
                                  entry: T -> string, ok: T -> bool, add: (ModuleData, seq<T>) -> ModuleData) {
    forall x: Scan, e: T {:trigger step(x, entry(e))} ::
      x.inBlock && x.blockType == kind && ok(e) ==>
        step(x, entry(e)) == Ok(x.(data := add(x.data, [e]), lineNum := x.lineNum + 1))
  }

  /** A step that goes through is followed by the rest of the run. */
  lemma RunCons(step: (Scan, string) -> Result<Scan, LineFailure>, s: Scan, l: string, rest: seq<string>)
    requires step(s, l).Ok?
    ensures Run(step, s, [l] + rest) == Run(step, step(s, l).value, rest)
  {
    assert ([l] + rest)[0] == l && ([l] + rest)[1..] == rest;
  }

  /** Inside a block, the entry lines append their entries in order. */
  lemma {:induction false} EntriesRun<T(!new)>(step: (Scan, string) -> Result<Scan, LineFailure>, kind: string,
                                         entry: T -> string, ok: T -> bool, add: (ModuleData, seq<T>) -> ModuleData,
                                         s: Scan, xs: seq<T>)
    requires Appender(add) && ReadsEntries(step, kind, entry, ok, add) && s.inBlock && s.blockType == kind
    requires forall i :: 0 <= i < |xs| ==> ok(xs[i])
    ensures Run(step, s, Lines(entry, xs)) == Ok(s.(data := add(s.data, xs), lineNum := s.lineNum + |xs|))
    decreases |xs|
  {
    if xs == [] {
      assert add(s.data, []) == s.data;
    } else {
      var x := s.(data := add(s.data, [xs[0]]), lineNum := s.lineNum + 1);
      assert ok(xs[0]);
      assert step(s, entry(xs[0])) == Ok(x);
      RunCons(step, s, entry(xs[0]), Lines(entry, xs[1..]));
      EntriesRun(step, kind, entry, ok, add, x, xs[1..]);
      assert [xs[0]] + xs[1..] == xs;
      assert add(add(s.data, [xs[0]]), xs[1..]) == add(s.data, [xs[0]] + xs[1..]);
    }
  }

  /** A block opened, then run through to a state still in the block,
      ends there; closed, it ends one line further on, outside the block. */
  lemma BlockRun(step: (Scan, string) -> Result<Scan, LineFailure>, kind: string,
                 s: Scan, open: string, lines: seq<string>, close: string, t: Scan)
    requires step(s, open) == Ok(s.(lineNum := s.lineNum + 1, inBlock := true, blockType := kind))
    requires Run(step, s.(lineNum := s.lineNum + 1, inBlock := true, blockType := kind), lines) == Ok(t)
    requires t.inBlock
    requires forall x: Scan {:trigger step(x, close)} :: x.inBlock ==> step(x, close) == Ok(x.(lineNum := x.lineNum + 1, inBlock := false))
    ensures Run(step, s, [open] + lines) == Ok(t)
    ensures Run(step, s, [open] + lines + [close]) == Ok(t.(lineNum := t.lineNum + 1, inBlock := false))
  {
    assert [close] + [] == [close];
    RunCons(step, s, open, lines);
    RunAppend(step, s, [open] + lines, [close]);
    RunCons(step, t, close, []);
  }

  /** With a step that opens a block of the kind on `kind (`, appends
      each entry inside it and closes any block on `)`, a block of
      well-formed entries appends them in order, closed or not. */
  lemma EntryBlockRun<T(!new)>(step: (Scan, string) -> Result<Scan, LineFailure>, kind: string,
                               entry: T -> string, ok: T -> bool, add: (ModuleData, seq<T>) -> ModuleData,
                               s: Scan, xs: seq<T>)
    requires Appender(add) && ReadsEntries(step, kind, entry, ok, add)
    requires step(s, kind + " (") == Ok(s.(lineNum := s.lineNum + 1, inBlock := true, blockType := kind))
    requires forall x: Scan {:trigger step(x, ")")} :: x.inBlock ==> step(x, ")") == Ok(x.(lineNum := x.lineNum + 1, inBlock := false))
    requires forall i :: 0 <= i < |xs| ==> ok(xs[i])
    ensures Run(step, s, Unclosed(kind, entry, xs)) ==
              Ok(s.(data := add(s.data, xs), lineNum := s.lineNum + 1 + |xs|, inBlock := true, blockType := kind))
    ensures Run(step, s, Block(kind, entry, xs)) ==
              Ok(s.(data := add(s.data, xs), lineNum := s.lineNum + 2 + |xs|, inBlock := false, blockType := kind))
  {
    var x := s.(lineNum := s.lineNum + 1, inBlock := true, blockType := kind);
    var t := s.(data := add(s.data, xs), lineNum := s.lineNum + 1 + |xs|, inBlock := true, blockType := kind);
    assert x.(data := add(x.data, xs), lineNum := x.lineNum + |xs|) == t;
    assert Unclosed(kind, entry, xs) == [kind + " ("] + Lines(entry, xs);
    assert Block(kind, entry, xs) == [kind + " ("] + Lines(entry, xs) + [")"];
    assert t.(lineNum := t.lineNum + 1, inBlock := false) ==
           s.(data := add(s.data, xs), lineNum := s.lineNum + 2 + |xs|, inBlock := false, blockType := kind);
    EntriesRun(step, kind, entry, ok, add, x, xs);
    BlockRun(step, kind, s, kind + " (", Lines(entry, xs), ")", t);
  }

  /** The opening line of each of the four kinds of block. */
  lemma StepOpens(s: Scan, kind: string)
    requires kind == "require" || kind == "replace" || kind == "exclude" || kind == "retract"
    ensures Step(s, kind + " (") == Ok(s.(lineNum := s.lineNum + 1, inBlock := true, blockType := kind))
  {
    assert NoSpace(kind) by {
      forall i | 0 <= i < |kind| ensures !IsSpace(kind[i]) {
        assert kind[i] in {'r', 'e', 'q', 'u', 'i', 'p', 'l', 'a', 'c', 'x', 'd', 't'};
      }
    }
    FirstCharNotPrefix(kind, "//");
    assert AllSpace(" ");
    assert kind + (" " + "(") == kind + " (";
    OpenStartsBlock(s, kind, " ");
  }

  /** The closing line of any block. */
  lemma StepCloses()
    ensures forall x: Scan {:trigger Step(x, ")")} :: x.inBlock ==> Step(x, ")") == Ok(x.(lineNum := x.lineNum + 1, inBlock := false))
  {
    forall x: Scan | x.inBlock
      ensures Step(x, ")") == Ok(x.(lineNum := x.lineNum + 1, inBlock := false))
    {
      TrimSpaceOfTrimmed(")");
      CloseEndsBlock(x, ")");
    }
  }

  // ---------------------------------------------------------------------
  // Require blocks

  /** A requirement that can be written as a require block entry: its
      path is no comment and its line does not end in `(`. */
  predicate RequireEntry(r: Require) {
    Word(r.path) && Word(r.version) && !HasPrefix(r.path, "//")
    && (r.indirect || r.version[|r.version| - 1] != '(')
  }

  /** Appending requirements. */
  function AddRequires(d: ModuleData, xs: seq<Require>): ModuleData {
    d.(requirements := d.requirements + xs)
  }

  lemma AddRequiresAppends()
    ensures Appender(AddRequires)
  {
    forall d: ModuleData, a: seq<Require>, b: seq<Require>
      ensures AddRequires(AddRequires(d, a), b) == AddRequires(d, a + b)
    {
      assert d.requirements + a + b == d.requirements + (a + b);
    }
  }

  /** Inside a require block, an entry line appends its requirement. */
  lemma StepReadsRequires()
    ensures ReadsEntries(Step, "require", RequireHandler.Entry, RequireEntry, AddRequires)
  {
    forall x: Scan, r: Require | x.inBlock && x.blockType == "require" && RequireEntry(r)
      ensures Step(x, RequireHandler.Entry(r)) ==
                Ok(x.(data := AddRequires(x.data, [r]), lineNum := x.lineNum + 1))
    {
      var line := RequireHandler.Entry(r);
      assert line == r.path + (" " + (r.version + RequireHandler.Comment(r)));
      assert line[0] == r.path[0];
      if r.indirect {
        assert line[|line| - 1] == 't';
      } else {
        assert line[|line| - 1] == r.version[|r.version| - 1];
      }
      assert !HasPrefix(line, "//") by {
        if |r.path| >= 2 { assert line[..2] == r.path[..2]; } else { assert line[1] == ' '; }
      }
      assert |line| > 1;
      HandedOver(line);
      RequireHandler.BlockLineReadsEntry(r);
      RequireBlockAppends(x, line, r);
    }
  }

  /** From any state, a require block of well-formed entries appends them
      in order, closed or not. */
  lemma RequireBlockRun(s: Scan, reqs: seq<Require>)
    requires forall i :: 0 <= i < |reqs| ==> RequireEntry(reqs[i])
    ensures RunScan(s, Block("require", RequireHandler.Entry, reqs)) ==
              Ok(s.(data := AddRequires(s.data, reqs), lineNum := s.lineNum + 2 + |reqs|,
                    inBlock := false, blockType := "require"))
    ensures RunScan(s, Unclosed("require", RequireHandler.Entry, reqs)) ==
              Ok(s.(data := AddRequires(s.data, reqs), lineNum := s.lineNum + 1 + |reqs|,
                    inBlock := true, blockType := "require"))
  {
    AddRequiresAppends();
    StepReadsRequires();
    StepOpens(s, "require");
    StepCloses();
    EntryBlockRun(Step, "require", RequireHandler.Entry, RequireEntry, AddRequires, s, reqs);
  }

  /** A require block of well-formed entries parses to a module that
      requires exactly those entries in order, and so does the same block
      left unclosed. */
  lemma RequireBlockRoundTrip(reqs: seq<Require>)
    requires forall i :: 0 <= i < |reqs| ==> RequireEntry(reqs[i])
    ensures ParseLines(Block("require", RequireHandler.Entry, reqs)) == Ok(EmptyModule.(requirements := reqs))
    ensures ParseLines(Unclosed("require", RequireHandler.Entry, reqs)) == Ok(EmptyModule.(requirements := reqs))
  {
    RequireBlockRun(Start, reqs);
    assert [] + reqs == reqs;
  }

  // ---------------------------------------------------------------------
  // Replace blocks

  /** The last word of one side of a replacement. */
  function LastWord(item: ReplaceItem): string {
    if item.version == "" then item.path else item.version
  }

  /** A replacement that can be written as a replace block entry: well
      formed, free of `=>`, its old path no comment and its line not ending
      in `(`. */
  predicate ReplaceEntry(rep: Replace) {
    ReplaceHandler.WellFormedItem(rep.original) && ReplaceHandler.WellFormedItem(rep.replacement)
    && ReplaceHandler.NoArrow(rep.original.path) && ReplaceHandler.NoArrow(rep.original.version)
    && ReplaceHandler.NoArrow(rep.replacement.path) && ReplaceHandler.NoArrow(rep.replacement.version)
    && !HasPrefix(rep.original.path, "//")
    && LastWord(rep.replacement)[|LastWord(rep.replacement)| - 1] != '('
  }

  /** Appending replacements. */
  function AddReplaces(d: ModuleData, xs: seq<Replace>): ModuleData {
    d.(replacements := d.replacements + xs)
  }

  lemma AddReplacesAppends()
    ensures Appender(AddReplaces)
  {
    forall d: ModuleData, a: seq<Replace>, b: seq<Replace>
      ensures AddReplaces(AddReplaces(d, a), b) == AddReplaces(d, a + b)
    {
      assert d.replacements + a + b == d.replacements + (a + b);
    }
  }

  /** One side written out starts with its path and ends with its last
      word. */
  lemma ItemText(item: ReplaceItem)
    requires ReplaceHandler.WellFormedItem(item)
    ensures var t := Join(ReplaceHandler.ItemWords(item), " ");
            t != [] && t[0] == item.path[0] && t[|t| - 1] == LastWord(item)[|LastWord(item)| - 1]
            && (|item.path| >= 2 ==> t[..2] == item.path[..2]) && (|item.path| < 2 ==> |t| < 2 || t[1] == ' ')
  {
    if item.version != "" {
      var ws := ReplaceHandler.ItemWords(item);
      assert ws[1..] == [item.version];
      assert Join(ws, " ") == item.path + " " + item.version;
    }
  }

  /** Two texts joined by a separator that starts with a blank: the ends
      are the ends of the two texts, and a `//` at the start is the first
      text's. */
  lemma JoinedEnds(a: string, sep: string, b: string)
    requires a != [] && sep != [] && sep[0] == ' ' && b != []
    ensures var line := a + sep + b;
            |line| > 1 && line[0] == a[0] && line[|line| - 1] == b[|b| - 1]
            && (HasPrefix(line, "//") ==> HasPrefix(a, "//"))
  {
    var line := a + sep + b;
    if |a| >= 2 { assert line[..2] == a[..2]; } else { assert line[1] == ' '; }
  }

  /** A replace block entry starts with the old path, ends with the last
      word of the new side and does not start with `//`. */
  lemma ReplaceEntryEnds(rep: Replace)
    requires ReplaceEntry(rep)
    ensures var line := ReplaceHandler.Entry(rep);
            |line| > 1 && line[0] == rep.original.path[0]
            && line[|line| - 1] == LastWord(rep.replacement)[|LastWord(rep.replacement)| - 1]
            && !HasPrefix(line, "//")
  {
    var a := Join(ReplaceHandler.ItemWords(rep.original), " ");
    var b := Join(ReplaceHandler.ItemWords(rep.replacement), " ");
    assert ReplaceHandler.Entry(rep) == a + " => " + b;
    ItemText(rep.original);
    ItemText(rep.replacement);
    assert !HasPrefix(a, "//");
    JoinedEnds(a, " => ", b);
  }

  /** A replace block entry is handed to the handler as it is. */
  lemma ReplaceEntryHandedOver(rep: Replace)
    requires ReplaceEntry(rep)
    ensures TrimSpace(ReplaceHandler.Entry(rep)) == ReplaceHandler.Entry(rep) && Content(ReplaceHandler.Entry(rep))
  {
    ReplaceEntryEnds(rep);
    HandedOver(ReplaceHandler.Entry(rep));
  }

  /** Inside a replace block, an entry line appends its replacement. */
  lemma StepReadsReplaces()
    ensures ReadsEntries(Step, "replace", ReplaceHandler.Entry, ReplaceEntry, AddReplaces)
  {
    forall x: Scan, rep: Replace | x.inBlock && x.blockType == "replace" && ReplaceEntry(rep)
      ensures Step(x, ReplaceHandler.Entry(rep)) ==
                Ok(x.(data := AddReplaces(x.data, [rep]), lineNum := x.lineNum + 1))
    {
      ReplaceEntryHandedOver(rep);
      ReplaceHandler.BlockLineReadsEntry(rep);
      ReplaceBlockAppends(x, ReplaceHandler.Entry(rep), rep);
    }
  }

  /** From any state, a replace block of well-formed entries appends them
      in order, closed or not. */
  lemma ReplaceBlockRun(s: Scan, reps: seq<Replace>)
    requires forall i :: 0 <= i < |reps| ==> ReplaceEntry(reps[i])
    ensures RunScan(s, Block("replace", ReplaceHandler.Entry, reps)) ==
              Ok(s.(data := AddReplaces(s.data, reps), lineNum := s.lineNum + 2 + |reps|,
                    inBlock := false, blockType := "replace"))
    ensures RunScan(s, Unclosed("replace", ReplaceHandler.Entry, reps)) ==
              Ok(s.(data := AddReplaces(s.data, reps), lineNum := s.lineNum + 1 + |reps|,
                    inBlock := true, blockType := "replace"))
  {
    AddReplacesAppends();
    StepReadsReplaces();
    StepOpens(s, "replace");
    StepCloses();
    EntryBlockRun(Step, "replace", ReplaceHandler.Entry, ReplaceEntry, AddReplaces, s, reps);
  }

  /** A replace block of well-formed entries parses to a module holding
      exactly those replacements in order, closed or not. */
  lemma ReplaceBlockRoundTrip(reps: seq<Replace>)
    requires forall i :: 0 <= i < |reps| ==> ReplaceEntry(reps[i])
    ensures ParseLines(Block("replace", ReplaceHandler.Entry, reps)) == Ok(EmptyModule.(replacements := reps))
    ensures ParseLines(Unclosed("replace", ReplaceHandler.Entry, reps)) == Ok(EmptyModule.(replacements := reps))
  {
    ReplaceBlockRun(Start, reps);
    assert [] + reps == reps;
  }

  // ---------------------------------------------------------------------
  // Exclude blocks

  /** An exclusion that can be written as an exclude block entry: its path
      is no comment and its line does not end in `(`. */
  predicate ExcludeEntry(e: Exclude) {
    Word(e.path) && Word(e.version) && !HasPrefix(e.path, "//") && e.version[|e.version| - 1] != '('
  }

  /** Appending exclusions. */
  function AddExcludes(d: ModuleData, xs: seq<Exclude>): ModuleData {
    d.(exclusions := d.exclusions + xs)
  }

  lemma AddExcludesAppends()
    ensures Appender(AddExcludes)
  {
    forall d: ModuleData, a: seq<Exclude>, b: seq<Exclude>
      ensures AddExcludes(AddExcludes(d, a), b) == AddExcludes(d, a + b)
    {
      assert d.exclusions + a + b == d.exclusions + (a + b);
    }
  }

  /** Inside an exclude block, an entry line appends its exclusion. */
  lemma StepReadsExcludes()
    ensures ReadsEntries(Step, "exclude", ExcludeHandler.Entry, ExcludeEntry, AddExcludes)
  {
    forall x: Scan, e: Exclude | x.inBlock && x.blockType == "exclude" && ExcludeEntry(e)
      ensures Step(x, ExcludeHandler.Entry(e)) ==
                Ok(x.(data := AddExcludes(x.data, [e]), lineNum := x.lineNum + 1))
    {
      var line := ExcludeHandler.Entry(e);
      assert line == e.path + (" " + e.version);
      assert line[0] == e.path[0] && line[|line| - 1] == e.version[|e.version| - 1];
      assert !HasPrefix(line, "//") by {
        if |e.path| >= 2 { assert line[..2] == e.path[..2]; } else { assert line[1] == ' '; }
      }
      assert |line| > 1;
      HandedOver(line);
      ExcludeHandler.BlockLineReadsEntry(e);
      ExcludeBlockAppends(x, line, e);
    }
  }

  /** From any state, an exclude block of well-formed entries appends them
      in order, closed or not. */
  lemma ExcludeBlockRun(s: Scan, excls: seq<Exclude>)
    requires forall i :: 0 <= i < |excls| ==> ExcludeEntry(excls[i])
    ensures RunScan(s, Block("exclude", ExcludeHandler.Entry, excls)) ==
              Ok(s.(data := AddExcludes(s.data, excls), lineNum := s.lineNum + 2 + |excls|,
                    inBlock := false, blockType := "exclude"))
    ensures RunScan(s, Unclosed("exclude", ExcludeHandler.Entry, excls)) ==
              Ok(s.(data := AddExcludes(s.data, excls), lineNum := s.lineNum + 1 + |excls|,
                    inBlock := true, blockType := "exclude"))
  {
    AddExcludesAppends();
    StepReadsExcludes();
    StepOpens(s, "exclude");
    StepCloses();
    EntryBlockRun(Step, "exclude", ExcludeHandler.Entry, ExcludeEntry, AddExcludes, s, excls);
  }

  /** An exclude block of well-formed entries parses to a module holding
      exactly those exclusions in order, closed or not. */
  lemma ExcludeBlockRoundTrip(excls: seq<Exclude>)
    requires forall i :: 0 <= i < |excls| ==> ExcludeEntry(excls[i])
    ensures ParseLines(Block("exclude", ExcludeHandler.Entry, excls)) == Ok(EmptyModule.(exclusions := excls))
    ensures ParseLines(Unclosed("exclude", ExcludeHandler.Entry, excls)) == Ok(EmptyModule.(exclusions := excls))
  {
    ExcludeBlockRun(Start, excls);
    assert [] + excls == excls;
  }

  // ---------------------------------------------------------------------
  // Retract blocks

  /** A rationale made of words without `[`, one blank apart. */
  ghost predicate Words(text: string) {
    exists words: seq<string> ::
      text == Join(words, " ") && forall i :: 0 <= i < |words| ==> Word(words[i]) && '[' !in words[i]
  }

  /** A retraction that can be written as a retract block entry: a version
      starting with `v` or `V` and a rationale of words, or a range of
      bounds and a rationale; its line does not end in `(`. */
  ghost predicate RetractEntry(r: Retract) {
    (if r.version != "" then
       RetractHandler.VersionStart(r.version) && Word(r.version) && '[' !in r.version
       && r.versionLow == "" && r.versionHigh == "" && Words(r.rationale)
     else
       RetractHandler.RangeBound(r.versionLow) && RetractHandler.RangeBound(r.versionHigh)
       && RetractHandler.RationaleText(r.rationale))
    && (r.rationale == "" ==> r.version == "" || r.version[|r.version| - 1] != '(')
    && (r.rationale != "" ==> r.rationale[|r.rationale| - 1] != '(')
  }

  /** Appending retractions. */
  function AddRetracts(d: ModuleData, xs: seq<Retract>): ModuleData {
    d.(retractions := d.retractions + xs)
  }

  lemma AddRetractsAppends()
    ensures Appender(AddRetracts)
  {
    forall d: ModuleData, a: seq<Retract>, b: seq<Retract>
      ensures AddRetracts(AddRetracts(d, a), b) == AddRetracts(d, a + b)
    {
      assert d.retractions + a + b == d.retractions + (a + b);
    }
  }

  /** A retract block entry is handed to the handler as it is. */
  lemma RetractEntryHandedOver(r: Retract)
    requires RetractEntry(r)
    ensures TrimSpace(RetractHandler.Entry(r)) == RetractHandler.Entry(r) && Content(RetractHandler.Entry(r))
  {
    var line := RetractHandler.Entry(r);
    var c := RetractHandler.Comment(r.rationale);
    if r.version != "" {
      var words: seq<string> :| r.rationale == Join(words, " ") && forall i :: 0 <= i < |words| ==> Word(words[i]) && '[' !in words[i];
      JoinOfWords(words);
      JoinAvoids(words, '[');
      RetractHandler.VersionEntryShape(r.version, r.rationale);
      assert line == r.version + c;
      assert line[0] == r.version[0];
      FirstCharNotPrefix(line, "//");
    } else {
      RetractHandler.RangeEntryShape(r);
      FirstCharNotPrefix(line, "//");
    }
    if r.rationale == "" {
      assert c == "";
    } else {
      assert line[|line| - 1] == r.rationale[|r.rationale| - 1];
    }
    HandedOver(line);
  }

  /** The handler reads a retract block entry back. */
  lemma RetractEntryRead(r: Retract)
    requires RetractEntry(r)
    ensures RetractHandler.BlockLine(RetractHandler.Entry(r)) == Add(r)
  {
    if r.version != "" {
      var words: seq<string> :| r.rationale == Join(words, " ") && forall i :: 0 <= i < |words| ==> Word(words[i]) && '[' !in words[i];
      RetractHandler.BlockLineReadsVersionEntry(r, words);
    } else {
      RetractHandler.BlockLineReadsRangeEntry(r);
    }
  }

  /** Inside a retract block, an entry line appends its retraction. */
  lemma StepReadsRetracts()
    ensures ReadsEntries(Step, "retract", RetractHandler.Entry, RetractEntry, AddRetracts)
  {
    forall x: Scan, r: Retract | x.inBlock && x.blockType == "retract" && RetractEntry(r)
      ensures Step(x, RetractHandler.Entry(r)) ==
                Ok(x.(data := AddRetracts(x.data, [r]), lineNum := x.lineNum + 1))
    {
      RetractEntryHandedOver(r);
      RetractEntryRead(r);
      RetractBlockAppends(x, RetractHandler.Entry(r), r);
    }
  }

  /** From any state, a retract block of well-formed entries appends them
      in order, closed or not. */
  lemma RetractBlockRun(s: Scan, rets: seq<Retract>)
    requires forall i :: 0 <= i < |rets| ==> RetractEntry(rets[i])
    ensures RunScan(s, Block("retract", RetractHandler.Entry, rets)) ==
              Ok(s.(data := AddRetracts(s.data, rets), lineNum := s.lineNum + 2 + |rets|,
                    inBlock := false, blockType := "retract"))
    ensures RunScan(s, Unclosed("retract", RetractHandler.Entry, rets)) ==
              Ok(s.(data := AddRetracts(s.data, rets), lineNum := s.lineNum + 1 + |rets|,
                    inBlock := true, blockType := "retract"))
  {
    AddRetractsAppends();
    StepReadsRetracts();
    StepOpens(s, "retract");
    StepCloses();
    EntryBlockRun(Step, "retract", RetractHandler.Entry, RetractEntry, AddRetracts, s, rets);
  }

  /** A retract block of well-formed entries parses to a module holding
      exactly those retractions in order, closed or not. */
  lemma RetractBlockRoundTrip(rets: seq<Retract>)
    requires forall i :: 0 <= i < |rets| ==> RetractEntry(rets[i])
    ensures ParseLines(Block("retract", RetractHandler.Entry, rets)) == Ok(EmptyModule.(retractions := rets))
    ensures ParseLines(Unclosed("retract", RetractHandler.Entry, rets)) == Ok(EmptyModule.(retractions := rets))
  {
    RetractBlockRun(Start, rets);
    assert [] + rets == rets;
  }

  // ---------------------------------------------------------------------
  // A whole file

  /** A go.mod file declaring the module and the go version, then one
      block of each kind. */
  function File(name: string, version: string, reqs: seq<Require>, reps: seq<Replace>,
                excls: seq<Exclude>, rets: seq<Retract>): seq<string> {
    ["module " + name, "go " + version] + Blocks(reqs, reps, excls, rets)
  }

  /** A require, a replace, an exclude and a retract block, in this order. */
  function Blocks(reqs: seq<Require>, reps: seq<Replace>, excls: seq<Exclude>, rets: seq<Retract>): seq<string> {
    Block("require", RequireHandler.Entry, reqs) + Block("replace", ReplaceHandler.Entry, reps)
    + Block("exclude", ExcludeHandler.Entry, excls) + Block("retract", RetractHandler.Entry, rets)
  }

  /** Outside a block, `module name` sets the name. */
  lemma ModuleStep(s: Scan, name: string)
    requires !s.inBlock && Word(name) && name[|name| - 1] != '('
    ensures Step(s, "module " + name) == Ok(s.(data := s.data.(name := name), lineNum := s.lineNum + 1))
  {
    KeywordLine("module", name);
    assert "module " + name == "module" + " " + name;
    SingleLineModule(s.data, name);
    DeclarationStep(s, "module " + name, s.data.(name := name));
  }

  /** Outside a block, `go version` sets the go version. */
  lemma GoStep(s: Scan, version: string)
    requires !s.inBlock && Word(version) && version[|version| - 1] != '('
    ensures Step(s, "go " + version) == Ok(s.(data := s.data.(goVersion := version), lineNum := s.lineNum + 1))
  {
    KeywordLine("go", version);
    assert "go " + version == "go" + " " + version;
    SingleLineGo(s.data, version);
    DeclarationStep(s, "go " + version, s.data.(goVersion := version));
  }

  /** A module line read on its own sets the name. */
  lemma ModuleRun(s: Scan, name: string, t: Scan)
    requires !s.inBlock && Word(name) && name[|name| - 1] != '('
    requires t == s.(data := s.data.(name := name), lineNum := s.lineNum + 1)
    ensures RunScan(s, ["module " + name]) == Ok(t)
  {
    assert ["module " + name] + [] == ["module " + name];
    ModuleStep(s, name);
    RunCons(Step, s, "module " + name, []);
  }

  /** A go line read on its own sets the go version. */
  lemma GoRun(s: Scan, version: string, t: Scan)
    requires !s.inBlock && Word(version) && version[|version| - 1] != '('
    requires t == s.(data := s.data.(goVersion := version), lineNum := s.lineNum + 1)
    ensures RunScan(s, ["go " + version]) == Ok(t)
  {
    assert ["go " + version] + [] == ["go " + version];
    GoStep(s, version);
    RunCons(Step, s, "go " + version, []);
  }

  /** The four blocks of well-formed entries append their entries to the
      four lists, each in the order its block gives. */
  lemma BlocksRun(s: Scan, reqs: seq<Require>, reps: seq<Replace>, excls: seq<Exclude>, rets: seq<Retract>)
    requires forall i :: 0 <= i < |reqs| ==> RequireEntry(reqs[i])
    requires forall i :: 0 <= i < |reps| ==> ReplaceEntry(reps[i])
    requires forall i :: 0 <= i < |excls| ==> ExcludeEntry(excls[i])
    requires forall i :: 0 <= i < |rets| ==> RetractEntry(rets[i])
    ensures RunScan(s, Blocks(reqs, reps, excls, rets)) ==
              Ok(Scan(AddRetracts(AddExcludes(AddReplaces(AddRequires(s.data, reqs), reps), excls), rets),
                      s.lineNum + 8 + |reqs| + |reps| + |excls| + |rets|, false, "retract"))
  {
    var b1 := Block("require", RequireHandler.Entry, reqs);
    var b2 := Block("replace", ReplaceHandler.Entry, reps);
    var b3 := Block("exclude", ExcludeHandler.Entry, excls);
    var b4 := Block("retract", RetractHandler.Entry, rets);
    var s1 := s.(data := AddRequires(s.data, reqs), lineNum := s.lineNum + 2 + |reqs|,
                 inBlock := false, blockType := "require");
    var s2 := s1.(data := AddReplaces(s1.data, reps), lineNum := s1.lineNum + 2 + |reps|,
                  inBlock := false, blockType := "replace");
    var s3 := s2.(data := AddExcludes(s2.data, excls), lineNum := s2.lineNum + 2 + |excls|,
                  inBlock := false, blockType := "exclude");
    var s4 := s3.(data := AddRetracts(s3.data, rets), lineNum := s3.lineNum + 2 + |rets|,
                  inBlock := false, blockType := "retract");
    assert s4 == Scan(AddRetracts(AddExcludes(AddReplaces(AddRequires(s.data, reqs), reps), excls), rets),
                      s.lineNum + 8 + |reqs| + |reps| + |excls| + |rets|, false, "retract");
    RequireBlockRun(s, reqs);
    ReplaceBlockRun(s1, reps);
    ExcludeBlockRun(s2, excls);
    RetractBlockRun(s3, rets);
    RunAppend(Step, s, b1, b2);
    RunAppend(Step, s, b1 + b2, b3);
    RunAppend(Step, s, b1 + b2 + b3, b4);
  }

  /** A module line, a go line and the blocks, read one after the other. */
  lemma HeaderThenBlocks(h1: seq<string>, h2: seq<string>, b: seq<string>, sh: Scan, s0: Scan, t: Scan)
    requires RunScan(Start, h1) == Ok(sh) && RunScan(sh, h2) == Ok(s0) && RunScan(s0, b) == Ok(t)
    ensures RunScan(Start, h1 + h2 + b) == Ok(t)
  {
    RunAppend(Step, Start, h1, h2);
    RunAppend(Step, Start, h1 + h2, b);
  }

  /** The four lists appended to a module with only a name and a go
      version make the module of the file. */
  lemma FileData(name: string, version: string, reqs: seq<Require>, reps: seq<Replace>,
                 excls: seq<Exclude>, rets: seq<Retract>)
    ensures AddRetracts(AddExcludes(AddReplaces(AddRequires(EmptyModule.(name := name, goVersion := version),
              reqs), reps), excls), rets) == ModuleData(name, version, reqs, reps, excls, rets)
  {
    assert [] + reqs == reqs && [] + reps == reps && [] + excls == excls && [] + rets == rets;
  }

  /** The loop reads a file of well-formed declarations to the end. */
  lemma FileRun(name: string, version: string, reqs: seq<Require>, reps: seq<Replace>,
                excls: seq<Exclude>, rets: seq<Retract>)
    requires Word(name) && name[|name| - 1] != '(' && Word(version) && version[|version| - 1] != '('
    requires forall i :: 0 <= i < |reqs| ==> RequireEntry(reqs[i])
    requires forall i :: 0 <= i < |reps| ==> ReplaceEntry(reps[i])
    requires forall i :: 0 <= i < |excls| ==> ExcludeEntry(excls[i])
    requires forall i :: 0 <= i < |rets| ==> RetractEntry(rets[i])
    ensures RunScan(Start, File(name, version, reqs, reps, excls, rets)) ==
              Ok(Scan(ModuleData(name, version, reqs, reps, excls, rets),
                      10 + |reqs| + |reps| + |excls| + |rets|, false, "retract"))
  {
    var h1 := ["module " + name];
    var h2 := ["go " + version];
    var b := Blocks(reqs, reps, excls, rets);
    assert File(name, version, reqs, reps, excls, rets) == h1 + h2 + b;
    var sh := Start.(data := Start.data.(name := name), lineNum := Start.lineNum + 1);
    var s0 := sh.(data := sh.data.(goVersion := version), lineNum := sh.lineNum + 1);
    assert s0.data == EmptyModule.(name := name, goVersion := version) && s0.lineNum == 2;
    FileData(name, version, reqs, reps, excls, rets);
    var t := Scan(ModuleData(name, version, reqs, reps, excls, rets),
                  10 + |reqs| + |reps| + |excls| + |rets|, false, "retract");
    assert t == Scan(AddRetracts(AddExcludes(AddReplaces(AddRequires(s0.data, reqs), reps), excls), rets),
                     s0.lineNum + 8 + |reqs| + |reps| + |excls| + |rets|, false, "retract");
    ModuleRun(Start, name, sh);
    GoRun(sh, version, s0);
    BlocksRun(s0, reqs, reps, excls, rets);
    HeaderThenBlocks(h1, h2, b, sh, s0, t);
  }

  /** A file of well-formed declarations parses to a module holding exactly
      what it declares, each list in the order its block gives. */
  lemma FileRoundTrip(name: string, version: string, reqs: seq<Require>, reps: seq<Replace>,
                      excls: seq<Exclude>, rets: seq<Retract>)
    requires Word(name) && name[|name| - 1] != '(' && Word(version) && version[|version| - 1] != '('
    requires forall i :: 0 <= i < |reqs| ==> RequireEntry(reqs[i])
    requires forall i :: 0 <= i < |reps| ==> ReplaceEntry(reps[i])
    requires forall i :: 0 <= i < |excls| ==> ExcludeEntry(excls[i])
    requires forall i :: 0 <= i < |rets| ==> RetractEntry(rets[i])
    ensures ParseLines(File(name, version, reqs, reps, excls, rets)) ==
              Ok(ModuleData(name, version, reqs, reps, excls, rets))
  {
    FileRun(name, version, reqs, reps, excls, rets);
  }

  // ---------------------------------------------------------------------
  // Layout: indentation, blank lines and comments

  /** `text` is `lines` laid out: each line with any white space around
      it, and blank lines or comments without `indirect` anywhere between. */
  predicate LaidOut(text: seq<string>, lines: seq<string>)
    decreases |text|
  {
    if text == [] then lines == []
    else if Skipped(TrimSpace(text[0])) then LaidOut(text[1..], lines)
    else lines != [] && TrimSpace(text[0]) == TrimSpace(lines[0]) && LaidOut(text[1..], lines[1..])
  }

  /** Only the trimmed line decides a step. */
  lemma StepOfTrimmed(s: Scan, a: string, b: string)
    requires TrimSpace(a) == TrimSpace(b)
    ensures Step(s, a) == Step(s, b)
  {
  }

  /** A step decided by the trimmed line alone, which passes over skipped lines. */
  ghost predicate ReadsTrimmed(step: (Scan, string) -> Result<Scan, LineFailure>) {
    (forall x: Scan, a: string, b: string {:trigger step(x, a), step(x, b)} ::
       TrimSpace(a) == TrimSpace(b) ==> step(x, a) == step(x, b))
    && (forall x: Scan, c: string {:trigger step(x, c)} ::
          Skipped(TrimSpace(c)) ==> step(x, c) == Ok(x.(lineNum := x.lineNum + 1)))
  }

  /** Step is such a step. */
  lemma StepReadsTrimmed()
    ensures ReadsTrimmed(Step)
  {
    forall x: Scan, a: string, b: string | TrimSpace(a) == TrimSpace(b)
      ensures Step(x, a) == Step(x, b)
    {
      StepOfTrimmed(x, a, b);
    }
  }

  /** With such a step, a laid-out text runs as its lines do, bar line numbers. */
  lemma {:induction false} LaidOutRuns(step: (Scan, string) -> Result<Scan, LineFailure>,
                                       s: Scan, t: Scan, text: seq<string>, lines: seq<string>)
    requires Relabels(step) && ReadsTrimmed(step)
    requires SameButLine(s, t) && LaidOut(text, lines)
    ensures RunsAgree(Run(step, s, text), Run(step, t, lines))
    decreases |text|
  {
    if text != [] {
      if Skipped(TrimSpace(text[0])) {
        assert step(s, text[0]) == Ok(s.(lineNum := s.lineNum + 1));
        LaidOutRuns(step, s.(lineNum := s.lineNum + 1), t, text[1..], lines);
      } else {
        assert step(s, text[0]) == step(s, lines[0]);
        var r, q := step(s, lines[0]), step(t, lines[0]);
        if r.Ok? {
          LaidOutRuns(step, r.value, q.value, text[1..], lines[1..]);
        }
      }
    }
  }

  /** A laid-out text parses as its lines do, bar the line an error names. */
  lemma LaidOutParses(text: seq<string>, lines: seq<string>)
    requires LaidOut(text, lines)
    ensures ParsesAgree(ParseLines(text), ParseLines(lines))
  {
    StepRelabels();
    StepReadsTrimmed();
    LaidOutRuns(Step, Start, Start, text, lines);
    ParsesAgreeOfRuns(text, lines);
  }

  /** A file of such declarations laid out with indented entries, blank
      lines and comments parses to the module that holds exactly them. */
  lemma LaidOutFileRoundTrip(text: seq<string>, name: string, version: string, reqs: seq<Require>,
                             reps: seq<Replace>, excls: seq<Exclude>, rets: seq<Retract>)
    requires Word(name) && name[|name| - 1] != '(' && Word(version) && version[|version| - 1] != '('
    requires forall i :: 0 <= i < |reqs| ==> RequireEntry(reqs[i])
    requires forall i :: 0 <= i < |reps| ==> ReplaceEntry(reps[i])
    requires forall i :: 0 <= i < |excls| ==> ExcludeEntry(excls[i])
    requires forall i :: 0 <= i < |rets| ==> RetractEntry(rets[i])
    requires LaidOut(text, File(name, version, reqs, reps, excls, rets))
    ensures ParseLines(text) == Ok(ModuleData(name, version, reqs, reps, excls, rets))
  {
    FileRoundTrip(name, version, reqs, reps, excls, rets);
    LaidOutParses(text, File(name, version, reqs, reps, excls, rets));
  }
}
