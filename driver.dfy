/** pkg/parser/api_wrapper.go: ParseFromReader's loop over the lines of a
    go.mod text, with handleSingleLine and handleBlockLine dispatching each
    trimmed line to the handlers.  The loop is specified by the pure
    functions Step and RunScan; ParseFromLines is the loop itself, on a
    Module object that the handler methods fill in place. */
module Driver {
  import opened Wrappers
  import opened Text
  import opened Grammar
  import opened GoMod
  import opened ParseErrors
  import BasicParser
  import RequireHandler
  import ReplaceHandler
  import ExcludeHandler
  import RetractHandler

  // ---------------------------------------------------------------------
  // The specification of one line and of the loop

  /** Every list of `b` starts with the same list of `a`: parsing only ever appends. */
  predicate Grows(a: ModuleData, b: ModuleData) {
    a.requirements <= b.requirements && a.replacements <= b.replacements
    && a.exclusions <= b.exclusions && a.retractions <= b.retractions
  }

  /** What handleSingleLine does with a trimmed line outside a block: the
      first of the module, go, require, replace, exclude and retract forms
      that matches it, and an error when none does. */
  function SingleLine(data: ModuleData, line: string): (r: Result<ModuleData, Halt>)
    ensures r.Err? ==> r.error == Error(UnrecognizedLine(line))
    ensures r.Ok? ==> Grows(data, r.value)
  {
    var m := Match(ModulePattern, line);
    if m.Some? then Ok(data.(name := m.value[0]))
    else
      var g := Match(GoPattern, line);
      if g.Some? then Ok(data.(goVersion := g.value[0]))
      else if RequireHandler.SingleLine(line).Some? then
        Ok(data.(requirements := data.requirements + [RequireHandler.SingleLine(line).value]))
      else if ReplaceHandler.SingleLine(line).Some? then
        Ok(data.(replacements := data.replacements + [ReplaceHandler.SingleLine(line).value]))
      else if ExcludeHandler.SingleLine(line).Some? then
        Ok(data.(exclusions := data.exclusions + [ExcludeHandler.SingleLine(line).value]))
      else if RetractHandler.SingleLine(line).Some? then
        Ok(data.(retractions := data.retractions + [RetractHandler.SingleLine(line).value]))
      else Err(Error(UnrecognizedLine(line)))
  }

  /** The halts a block of a given kind can end with. */
  predicate BlockHalt(kind: string, h: Halt) {
    if kind == "require" then h == Error(InvalidRequire)
    else if kind == "replace" then h == Error(InvalidReplace) || h == IndexPanic
    else if kind == "exclude" then h == Error(InvalidExclude)
    else if kind == "retract" then h == Error(InvalidRetract)
    else h == Error(UnknownBlockType(kind))
  }

  /** What handleBlockLine does with a trimmed line inside a block of the
      given kind; an unknown kind is an error. */
  function BlockLine(data: ModuleData, kind: string, line: string): (r: Result<ModuleData, Halt>)
    ensures r.Err? ==> BlockHalt(kind, r.error)
    ensures r.Ok? ==> Grows(data, r.value)
  {
    if kind == "require" then
      var o := RequireHandler.BlockLine(line);
      if o.Stop? then Err(o.halt) else Ok(data.(requirements := data.requirements + Added(o)))
    else if kind == "replace" then
      var o := ReplaceHandler.BlockLine(line);
      if o.Stop? then Err(o.halt) else Ok(data.(replacements := data.replacements + Added(o)))
    else if kind == "exclude" then
      var o := ExcludeHandler.BlockLine(line);
      if o.Stop? then Err(o.halt) else Ok(data.(exclusions := data.exclusions + Added(o)))
    else if kind == "retract" then
      var o := RetractHandler.BlockLine(line);
      if o.Stop? then Err(o.halt) else Ok(data.(retractions := data.retractions + Added(o)))
    else Err(Error(UnknownBlockType(kind)))
  }

  /** The local variables of ParseFromReader's loop, with the module it fills. */
  datatype Scan = Scan(data: ModuleData, lineNum: nat, inBlock: bool, blockType: string)

  /** Before the first line. */
  const Start := Scan(EmptyModule, 0, false, "")

  /** A trimmed line the loop passes over: empty, or a comment that does not
      mention `indirect`. */
  predicate Skipped(line: string) {
    line == "" || (HasPrefix(line, "//") && !Contains(line, "indirect"))
  }

  /** A trimmed line ending in `(` opens a block, whatever precedes it. */
  predicate Opens(line: string) {
    HasSuffix(line, "(")
  }

  /** The block type of an opening line: what precedes its `(`, trimmed. */
  function BlockKind(line: string): string
    requires Opens(line)
  {
    TrimSpace(line[..|line| - 1])
  }

  /** One turn of ParseFromReader's loop on one raw line. */
  function Step(s: Scan, raw: string): (r: Result<Scan, LineFailure>)
    ensures r.Ok? ==> r.value.lineNum == s.lineNum + 1 && Grows(s.data, r.value.data)
    ensures r.Err? ==> r.error.line == s.lineNum + 1
    ensures r.Err? ==> r.error.halt != Error(InvalidModuleDeclaration) && r.error.halt != Error(InvalidGoVersion)
    ensures Skipped(TrimSpace(raw)) ==> r == Ok(s.(lineNum := s.lineNum + 1))
  {
    var n := s.lineNum + 1;
    var line := TrimSpace(raw);
    if Skipped(line) then Ok(s.(lineNum := n))
    else if s.inBlock && line == ")" then Ok(s.(lineNum := n, inBlock := false))
    else if Opens(line) then Ok(s.(lineNum := n, inBlock := true, blockType := BlockKind(line)))
    else
      var r := if s.inBlock then BlockLine(s.data, s.blockType, line) else SingleLine(s.data, line);
      if r.Ok? then Ok(s.(data := r.value, lineNum := n)) else Err(LineFailure(n, r.error))
  }

  /** The loop over a sequence of lines, for a given step: the state after
      the last line, or the failure of the first line that fails. */
  function Run(step: (Scan, string) -> Result<Scan, LineFailure>, s: Scan, lines: seq<string>): Result<Scan, LineFailure>
    decreases |lines|
  {
    if lines == [] then Ok(s)
    else
      var r := step(s, lines[0]);
      if r.Err? then r else Run(step, r.value, lines[1..])
  }

  /** The loop of ParseFromReader. */
  function RunScan(s: Scan, lines: seq<string>): Result<Scan, LineFailure> {
    Run(Step, s, lines)
  }

  /** ParseFromReader on the lines the scanner yields: the module, or the
      first failing line.  A block still open at the end is accepted. */
  function ParseLines(lines: seq<string>): (p: Result<ModuleData, LineFailure>)
    ensures p.Err? ==> 1 <= p.error.line <= |lines|
  {
    StepCounts();
    StepAppends();
    RunProgress(Step, Start, lines);
    var r := RunScan(Start, lines);
    if r.Ok? then Ok(r.value.data) else Err(r.error)
  }

  /** bufio.ScanLines: the text cut at each `\n`, without a final empty line
      and without the `\r` that ends a line. */
  function ScanLines(text: string): (r: seq<string>)
    ensures forall i :: 0 <= i < |r| ==> !Contains(r[i], "\n")
  {
    var parts := Split(text, "\n");
    var lines := if parts[|parts| - 1] == "" then parts[..|parts| - 1] else parts;
    assert forall i :: 0 <= i < |lines| ==> lines[i] == parts[i];
    seq(|lines|, i requires 0 <= i < |lines| => DropCR(lines[i]))
  }

  function DropCR(line: string): (r: string)
    ensures !Contains(line, "\n") ==> !Contains(r, "\n")
    ensures line == r + "\r" || (line == r && !HasSuffix(line, "\r"))
  {
    if line != [] && line[|line| - 1] == '\r' then
      ContainsOfPrefix(line, "\n", |line| - 1);
      line[..|line| - 1]
    else line
  }

  /** What ParseFromString and ParseGoModContent compute from a text. */
  function ParseText(text: string): (r: Result<ModuleData, LineFailure>)
    ensures r.Err? ==> 1 <= r.error.line <= |ScanLines(text)|
  {
    ParseLines(ScanLines(text))
  }

  // ---------------------------------------------------------------------
  // The loop, on a Module object

  /** handleSingleLine: try each declaration form in turn on the module. */
  method HandleSingleLine(mod: Module, line: string) returns (err: Option<Halt>)
    modifies mod
    ensures SingleLine(old(mod.Data()), line).Ok? ==>
              err == None && mod.Data() == SingleLine(old(mod.Data()), line).value
    ensures SingleLine(old(mod.Data()), line).Err? ==>
              err == Some(SingleLine(old(mod.Data()), line).error) && mod.Data() == old(mod.Data())
  {
    ghost var d := mod.Data();
    var handled := BasicParser.ParseModuleName(mod, line);
    if handled { assert mod.Data() == d.(name := mod.name); return None; }
    assert mod.Data() == d;
    handled := BasicParser.ParseGoVersion(mod, line);
    if handled { assert mod.Data() == d.(goVersion := mod.goVersion); return None; }
    assert mod.Data() == d;
    handled := RequireHandler.ParseRequireSingleLine(mod, line);
    if handled { assert mod.Data() == d.(requirements := mod.requirements); return None; }
    assert mod.Data() == d;
    handled := ReplaceHandler.ParseReplaceSingleLine(mod, line);
    if handled { assert mod.Data() == d.(replacements := mod.replacements); return None; }
    assert mod.Data() == d;
    handled := ExcludeHandler.ParseExcludeSingleLine(mod, line);
    if handled { assert mod.Data() == d.(exclusions := mod.exclusions); return None; }
    assert mod.Data() == d;
    handled := RetractHandler.ParseRetractSingleLine(mod, line);
    if handled { assert mod.Data() == d.(retractions := mod.retractions); return None; }
    assert mod.Data() == d;
    return Some(Error(UnrecognizedLine(line)));
  }

  /** handleBlockLine: the handler of the block's kind. */
  method HandleBlockLine(mod: Module, blockType: string, line: string) returns (err: Option<Halt>)
    modifies mod
    ensures BlockLine(old(mod.Data()), blockType, line).Ok? ==>
              err == None && mod.Data() == BlockLine(old(mod.Data()), blockType, line).value
    ensures BlockLine(old(mod.Data()), blockType, line).Err? ==>
              err == Some(BlockLine(old(mod.Data()), blockType, line).error) && mod.Data() == old(mod.Data())
  {
    if blockType == "require" {
      err := RequireHandler.ParseRequireBlockLine(mod, line);
    } else if blockType == "replace" {
      err := ReplaceHandler.ParseReplaceBlockLine(mod, line);
    } else if blockType == "exclude" {
      err := ExcludeHandler.ParseExcludeBlockLine(mod, line);
    } else if blockType == "retract" {
      err := RetractHandler.ParseRetractBlockLine(mod, line);
    } else {
      err := Some(Error(UnknownBlockType(blockType)));
    }
  }

  /** One step of RunScan, unfolded at position i. */
  lemma RunScanAt(s: Scan, lines: seq<string>, i: nat)
    requires i < |lines|
    ensures RunScan(s, lines[i..]) ==
              if Step(s, lines[i]).Err? then Step(s, lines[i]) else RunScan(Step(s, lines[i]).value, lines[i + 1..])
  {
    assert lines[i..][0] == lines[i];
    assert lines[i..][1..] == lines[i + 1..];
  }

  /** ParseFromReader's loop over the scanned lines: a new Module, or nil
      and the failure of the first line that fails. */
  method ParseFromLines(lines: seq<string>) returns (mod: Module?, err: Option<LineFailure>)
    ensures ParseLines(lines).Ok? ==> err == None && mod != null && mod.Data() == ParseLines(lines).value
    ensures ParseLines(lines).Err? ==> err == Some(ParseLines(lines).error) && mod == null
    ensures mod != null ==> fresh(mod)
  {
    var m := new Module();
    var lineNum := 0;
    var inBlock := false;
    var blockType := "";
    var i := 0;
    while i < |lines|
      invariant 0 <= i <= |lines| && lineNum == i
      invariant RunScan(Start, lines) == RunScan(Scan(m.Data(), lineNum, inBlock, blockType), lines[i..])
    {
      ghost var s := Scan(m.Data(), lineNum, inBlock, blockType);
      RunScanAt(s, lines, i);
      lineNum := lineNum + 1;
      var line := TrimSpace(lines[i]);
      if line == "" || (HasPrefix(line, "//") && !Contains(line, "indirect")) {
        i := i + 1;
        continue;
      }
      if inBlock && line == ")" {
        inBlock := false;
        i := i + 1;
        continue;
      }
      if HasSuffix(line, "(") {
        inBlock := true;
        blockType := TrimSpace(line[..|line| - 1]);
        i := i + 1;
        continue;
      }
      var e: Option<Halt>;
      if inBlock {
        e := HandleBlockLine(m, blockType, line);
      } else {
        e := HandleSingleLine(m, line);
      }
      if e.Some? {
        return null, Some(LineFailure(lineNum, e.value));
      }
      i := i + 1;
    }
    return m, None;
  }

  /** ParseFromString: the scanner's lines of the text, parsed. */
  method ParseFromString(text: string) returns (mod: Module?, err: Option<LineFailure>)
    ensures ParseText(text).Ok? ==> err == None && mod != null && mod.Data() == ParseText(text).value
    ensures ParseText(text).Err? ==> err == Some(ParseText(text).error) && mod == null
    ensures mod != null ==> fresh(mod)
  {
    mod, err := ParseFromLines(ScanLines(text));
  }

  /** ParseGoModContent: another name for ParseFromString. */
  method ParseGoModContent(content: string) returns (mod: Module?, err: Option<LineFailure>)
    ensures ParseText(content).Ok? ==> err == None && mod != null && mod.Data() == ParseText(content).value
    ensures ParseText(content).Err? ==> err == Some(ParseText(content).error) && mod == null
    ensures mod != null ==> fresh(mod)
  {
    mod, err := ParseFromString(content);
  }

  // ---------------------------------------------------------------------
  // Properties of the loop

  /** A step that counts lines: it moves on one line number, or fails on
      that line. */
  ghost predicate Counts(step: (Scan, string) -> Result<Scan, LineFailure>) {
    forall x: Scan, l: string ::
      (step(x, l).Ok? ==> step(x, l).value.lineNum == x.lineNum + 1)
      && (step(x, l).Err? ==> step(x, l).error.line == x.lineNum + 1)
  }

  /** A step that only appends to the module, and never fails with a
      module or go error. */
  ghost predicate Appends(step: (Scan, string) -> Result<Scan, LineFailure>) {
    forall x: Scan, l: string ::
      (step(x, l).Ok? ==> Grows(x.data, step(x, l).value.data))
      && (step(x, l).Err? ==>
            step(x, l).error.halt != Error(InvalidModuleDeclaration)
            && step(x, l).error.halt != Error(InvalidGoVersion))
  }

  /** Step counts lines. */
  lemma StepCounts()
    ensures Counts(Step)
  {
  }

  /** Step only appends to the module. */
  lemma StepAppends()
    ensures Appends(Step)
  {
  }

  /** Running over two sequences of lines is running over the first, then
      over the second from where the first ended. */
  lemma {:induction false} RunAppend(step: (Scan, string) -> Result<Scan, LineFailure>, s: Scan, a: seq<string>, b: seq<string>)
    ensures Run(step, s, a + b) ==
              if Run(step, s, a).Err? then Run(step, s, a) else Run(step, Run(step, s, a).value, b)
    decreases |a|
  {
    if a == [] {
      assert a + b == b;
    } else {
      assert (a + b)[0] == a[0];
      assert (a + b)[1..] == a[1..] + b;
      var r := step(s, a[0]);
      if r.Ok? {
        RunAppend(step, r.value, a[1..], b);
      }
    }
  }

  /** A line the step passes over in every state leaves the rest of the
      run as it was, one line number further on. */
  lemma RunPassesOver(step: (Scan, string) -> Result<Scan, LineFailure>, s: Scan, c: string, b: seq<string>)
    requires forall x: Scan :: step(x, c) == Ok(x.(lineNum := x.lineNum + 1))
    ensures Run(step, s, [c] + b) == Run(step, s.(lineNum := s.lineNum + 1), b)
  {
    assert ([c] + b)[0] == c && ([c] + b)[1..] == b;
  }

  /** With a step that counts lines and only appends, a run ends one line
      number per line further on and only appends, and a failure names one
      of the lines it was given, never with a module or go error. */
  lemma {:induction false} RunProgress(step: (Scan, string) -> Result<Scan, LineFailure>, s: Scan, lines: seq<string>)
    requires Counts(step) && Appends(step)
    ensures Run(step, s, lines).Ok? ==>
              Run(step, s, lines).value.lineNum == s.lineNum + |lines| && Grows(s.data, Run(step, s, lines).value.data)
    ensures Run(step, s, lines).Err? ==>
              s.lineNum < Run(step, s, lines).error.line <= s.lineNum + |lines|
              && Run(step, s, lines).error.halt != Error(InvalidModuleDeclaration)
              && Run(step, s, lines).error.halt != Error(InvalidGoVersion)
    decreases |lines|
  {
    if lines != [] {
      var r := step(s, lines[0]);
      if r.Ok? {
        RunProgress(step, r.value, lines[1..]);
      }
    }
  }

  /** With a step that counts lines, a failure is the failure of the line it
      names: the lines before it all go through, and the lines after it
      are never looked at. */
  lemma {:induction false} RunFailsAtLine(step: (Scan, string) -> Result<Scan, LineFailure>, s: Scan, lines: seq<string>)
    requires Counts(step) && Run(step, s, lines).Err?
    ensures var k := Run(step, s, lines).error.line - s.lineNum - 1;
            0 <= k < |lines| && Run(step, s, lines[..k]).Ok? && Run(step, s, lines[..k + 1]) == Run(step, s, lines)
    decreases |lines|
  {
    var r := step(s, lines[0]);
    if r.Err? {
      assert lines[..0] == [];
      assert lines[..1][1..] == [];
    } else {
      RunFailsAtLine(step, r.value, lines[1..]);
      var k := Run(step, s, lines).error.line - s.lineNum - 1;
      assert lines[1..][..k - 1] == lines[..k][1..];
      assert lines[1..][..k] == lines[..k + 1][1..];
    }
  }

  /** RunFailsAtLine counted from a state before the first line: the
      failure names its line counting from one. */
  lemma RunFailsAtNumberedLine(step: (Scan, string) -> Result<Scan, LineFailure>, s: Scan, lines: seq<string>)
    requires Counts(step) && s.lineNum == 0 && Run(step, s, lines).Err?
    ensures var n := Run(step, s, lines).error.line;
            1 <= n <= |lines| && Run(step, s, lines[..n - 1]).Ok? && Run(step, s, lines[..n]) == Run(step, s, lines)
  {
    RunFailsAtLine(step, s, lines);
  }

  /** A parse only fills in the module: every list of the result starts
      empty and is appended to, and an error is never a module or go error. */
  lemma ParseLinesProgress(lines: seq<string>)
    ensures ParseLines(lines).Err? ==>
              ParseLines(lines).error.halt != Error(InvalidModuleDeclaration)
              && ParseLines(lines).error.halt != Error(InvalidGoVersion)
  {
    StepCounts();
    StepAppends();
    RunProgress(Step, Start, lines);
  }

  /** ParseLines names the first line that fails, counting from one: the
      lines before it parse, and the lines up to it already fail so. */
  lemma ParseLinesFailsAtLine(lines: seq<string>)
    requires ParseLines(lines).Err?
    ensures var n := ParseLines(lines).error.line;
            1 <= n <= |lines| && ParseLines(lines[..n - 1]).Ok? && ParseLines(lines[..n]) == ParseLines(lines)
  {
    StepCounts();
    RunFailsAtNumberedLine(Step, Start, lines);
  }

  /** Two states that differ only in their line number. */
  predicate SameButLine(s: Scan, t: Scan) {
    s.data == t.data && s.inBlock == t.inBlock && s.blockType == t.blockType
  }

  /** A step for which the line number only labels errors. */
  ghost predicate Relabels(step: (Scan, string) -> Result<Scan, LineFailure>) {
    forall x: Scan, y: Scan, l: string {:trigger step(x, l), step(y, l)} :: SameButLine(x, y) ==>
      (step(x, l).Ok? <==> step(y, l).Ok?)
      && (step(x, l).Ok? ==> SameButLine(step(x, l).value, step(y, l).value))
      && (step(x, l).Err? ==> step(x, l).error.halt == step(y, l).error.halt)
  }

  /** The line number only labels the errors of Step. */
  lemma StepRelabels()
    ensures Relabels(Step)
  {
    forall x: Scan, y: Scan, l: string | SameButLine(x, y)
      ensures RunsAgree(Step(x, l), Step(y, l))
    {
      StepRelabelsAt(x, y, l);
    }
  }

  /** Step on two states that differ only in their line number. */
  lemma StepRelabelsAt(x: Scan, y: Scan, l: string)
    requires SameButLine(x, y)
    ensures RunsAgree(Step(x, l), Step(y, l))
  {
  }

  /** With such a step, the line number changes nothing but the labels of
      errors. */
  lemma {:induction false} RunIgnoresLineNumber(step: (Scan, string) -> Result<Scan, LineFailure>, s: Scan, t: Scan, lines: seq<string>)
    requires Relabels(step) && SameButLine(s, t)
    ensures Run(step, s, lines).Ok? <==> Run(step, t, lines).Ok?
    ensures Run(step, s, lines).Ok? ==> SameButLine(Run(step, s, lines).value, Run(step, t, lines).value)
    ensures Run(step, s, lines).Err? ==> Run(step, s, lines).error.halt == Run(step, t, lines).error.halt
    decreases |lines|
  {
    if lines != [] {
      var r, q := step(s, lines[0]), step(t, lines[0]);
      if r.Ok? {
        RunIgnoresLineNumber(step, r.value, q.value, lines[1..]);
      }
    }
  }

  /** Two runs that end alike, bar line numbers. */
  predicate RunsAgree(r: Result<Scan, LineFailure>, q: Result<Scan, LineFailure>) {
    (r.Ok? <==> q.Ok?)
    && (r.Ok? ==> SameButLine(r.value, q.value))
    && (r.Err? ==> r.error.halt == q.error.halt)
  }

  /** Two parses that end alike, bar the line an error names. */
  predicate ParsesAgree(r: Result<ModuleData, LineFailure>, q: Result<ModuleData, LineFailure>) {
    (r.Ok? <==> q.Ok?)
    && (r.Ok? ==> r.value == q.value)
    && (r.Err? ==> r.error.halt == q.error.halt)
  }

  /** With such a step, a line it passes over in every state can be dropped
      without changing how the run ends, bar the labels of errors. */
  lemma RunDropsLine(step: (Scan, string) -> Result<Scan, LineFailure>, s: Scan, a: seq<string>, c: string, b: seq<string>)
    requires Relabels(step)
    requires forall x: Scan :: step(x, c) == Ok(x.(lineNum := x.lineNum + 1))
    ensures RunsAgree(Run(step, s, a + [c] + b), Run(step, s, a + b))
  {
    assert a + [c] + b == a + ([c] + b);
    RunAppend(step, s, a, [c] + b);
    RunAppend(step, s, a, b);
    var r := Run(step, s, a);
    if r.Ok? {
      var x := r.value;
      RunPassesOver(step, x, c, b);
      RunIgnoresLineNumber(step, x.(lineNum := x.lineNum + 1), x, b);
    }
  }

  /** Runs that agree give parses that agree. */
  lemma ParsesAgreeOfRuns(x: seq<string>, y: seq<string>)
    requires RunsAgree(RunScan(Start, x), RunScan(Start, y))
    ensures ParsesAgree(ParseLines(x), ParseLines(y))
  {
  }

  /** A blank line, or a comment that does not mention `indirect`, can be
      dropped from a file without changing what it parses to. */
  lemma SkippedLineIgnored(a: seq<string>, c: string, b: seq<string>)
    requires Skipped(TrimSpace(c))
    ensures ParsesAgree(ParseLines(a + [c] + b), ParseLines(a + b))
  {
    StepRelabels();
    StepPassesOver(c);
    RunDropsLine(Step, Start, a, c, b);
    ParsesAgreeOfRuns(a + [c] + b, a + b);
  }

  /** Step passes over a skipped line in every state. */
  lemma StepPassesOver(c: string)
    requires Skipped(TrimSpace(c))
    ensures forall x: Scan :: Step(x, c) == Ok(x.(lineNum := x.lineNum + 1))
  {
    forall x: Scan
      ensures Step(x, c) == Ok(x.(lineNum := x.lineNum + 1))
    {
    }
  }

  // ---------------------------------------------------------------------
  // What one line does

  /** Inside a block, a line that is `)` once trimmed closes the block. */
  lemma CloseEndsBlock(s: Scan, raw: string)
    requires s.inBlock && BasicParser.IsBlockEnd(raw)
    ensures Step(s, raw) == Ok(s.(lineNum := s.lineNum + 1, inBlock := false))
  {
  }

  /** Outside a block, `)` is no declaration: it is an unrecognized line. */
  lemma CloseOutsideBlockFails(s: Scan, raw: string)
    requires !s.inBlock && BasicParser.IsBlockEnd(raw)
    ensures Step(s, raw) == Err(LineFailure(s.lineNum + 1, Error(UnrecognizedLine(")"))))
  {
    CloseLine(TrimSpace(raw));
    OtherFirstCharUnrecognized(s.data, TrimSpace(raw));
    UnrecognizedAtTopLevel(s, raw);
  }

  /** `)` is neither skipped nor an opening line, and starts with none of
      the keywords' letters. */
  lemma CloseLine(line: string)
    requires line == ")"
    ensures !Skipped(line) && !Opens(line) && line != [] && line[0] == ')'
  {
    FirstCharNotPrefix(line, "//");
    assert line[|line| - 1..] == line;
  }

  /** A line that ends in `(` once trimmed, and is not skipped, opens a
      block, whatever state the loop is in. */
  lemma OpensBlock(s: Scan, raw: string)
    requires Opens(TrimSpace(raw)) && !Skipped(TrimSpace(raw))
    ensures Step(s, raw) == Ok(s.(lineNum := s.lineNum + 1, inBlock := true, blockType := BlockKind(TrimSpace(raw))))
  {
  }

  /** `kw (` is an opening line whose block type is `kw`. */
  lemma OpeningLine(kw: string, w: string)
    requires Word(kw) && !HasPrefix(kw, "//") && AllSpace(w)
    ensures var line := kw + (w + "(");
            TrimSpace(line) == line && Opens(line) && !Skipped(line) && BlockKind(line) == kw
  {
    var line := kw + (w + "(");
    assert line[0] == kw[0] && line[|line| - 1] == '(';
    TrimSpaceOfTrimmed(line);
    assert line[..|line| - 1] == [] + kw + w;
    TrimSpacePadded([], kw, w);
    assert !HasPrefix(line, "//") by {
      if |kw| >= 2 { assert line[..2] == kw[..2]; } else { assert line[1] != '/'; }
    }
  }

  /** A word followed by `(` opens a block of that kind, inside a block as
      well as outside one: an inner opening line replaces the block type. */
  lemma OpenStartsBlock(s: Scan, kw: string, w: string)
    requires Word(kw) && !HasPrefix(kw, "//") && AllSpace(w)
    ensures Step(s, kw + (w + "(")) == Ok(s.(lineNum := s.lineNum + 1, inBlock := true, blockType := kw))
  {
    OpeningLine(kw, w);
    OpensBlock(s, kw + (w + "("));
  }

  /** A trimmed line the loop hands to a handler: not skipped, not an
      opening line, and not `)` (which would close a block). */
  predicate Content(line: string) {
    !Skipped(line) && !Opens(line) && line != ")"
  }

  /** Outside a block, a line that is neither skipped nor an opening line
      and that no declaration form matches is an unrecognized line. */
  lemma UnrecognizedAtTopLevel(s: Scan, raw: string)
    requires !s.inBlock && !Skipped(TrimSpace(raw)) && !Opens(TrimSpace(raw)) && SingleLine(s.data, TrimSpace(raw)).Err?
    ensures Step(s, raw) == Err(LineFailure(s.lineNum + 1, Error(UnrecognizedLine(TrimSpace(raw)))))
  {
  }

  /** Inside a block of a kind no handler knows, every content line fails
      with the block type. */
  lemma UnknownBlockFails(s: Scan, raw: string)
    requires s.inBlock && Content(TrimSpace(raw))
    requires s.blockType != "require" && s.blockType != "replace" && s.blockType != "exclude" && s.blockType != "retract"
    ensures Step(s, raw) == Err(LineFailure(s.lineNum + 1, Error(UnknownBlockType(s.blockType))))
  {
  }

  /** The four block keywords are four different words. */
  lemma KindsDiffer()
    ensures "require" != "replace" && "require" != "exclude" && "require" != "retract"
    ensures "replace" != "exclude" && "replace" != "retract" && "exclude" != "retract"
  {
    assert "require"[2] == 'q' && "replace"[2] == 'p' && "retract"[2] == 't' && "exclude"[0] == 'e';
  }

  /** Inside a require block, a content line that reads as a Require
      appends it. */
  lemma RequireBlockAppends(s: Scan, raw: string, r: Require)
    requires s.inBlock && s.blockType == "require" && Content(TrimSpace(raw))
    requires RequireHandler.BlockLine(TrimSpace(raw)) == Add(r)
    ensures Step(s, raw) ==
              Ok(s.(data := s.data.(requirements := s.data.requirements + [r]), lineNum := s.lineNum + 1))
  {
  }

  /** Inside a replace block, a content line that reads as a Replace
      appends it. */
  lemma ReplaceBlockAppends(s: Scan, raw: string, r: Replace)
    requires s.inBlock && s.blockType == "replace" && Content(TrimSpace(raw))
    requires ReplaceHandler.BlockLine(TrimSpace(raw)) == Add(r)
    ensures Step(s, raw) ==
              Ok(s.(data := s.data.(replacements := s.data.replacements + [r]), lineNum := s.lineNum + 1))
  {
    KindsDiffer();
  }

  /** Inside an exclude block, a content line that reads as an Exclude
      appends it. */
  lemma ExcludeBlockAppends(s: Scan, raw: string, e: Exclude)
    requires s.inBlock && s.blockType == "exclude" && Content(TrimSpace(raw))
    requires ExcludeHandler.BlockLine(TrimSpace(raw)) == Add(e)
    ensures Step(s, raw) ==
              Ok(s.(data := s.data.(exclusions := s.data.exclusions + [e]), lineNum := s.lineNum + 1))
  {
    KindsDiffer();
  }

  /** Inside a retract block, a content line that reads as a Retract
      appends it. */
  lemma RetractBlockAppends(s: Scan, raw: string, r: Retract)
    requires s.inBlock && s.blockType == "retract" && Content(TrimSpace(raw))
    requires RetractHandler.BlockLine(TrimSpace(raw)) == Add(r)
    ensures Step(s, raw) ==
              Ok(s.(data := s.data.(retractions := s.data.retractions + [r]), lineNum := s.lineNum + 1))
  {
    KindsDiffer();
  }

  /** A pattern that starts with a literal fails on a line that differs
      from the literal at some index of both. */
  lemma LiteralMismatch(p: seq<Piece>, line: string, k: nat)
    requires p != [] && p[0].Lit? && k < |p[0].text| && k < |line| && p[0].text[k] != line[k]
    ensures Match(p, line) == None
  {
    if |p[0].text| <= |line| {
      assert line[..|p[0].text|][k] == line[k];
    }
  }

  /** Every declaration form starts with `module`, `go`, `require`,
      `replace`, `exclude` or `retract`: a line whose first character
      starts none of them is unrecognized. */
  lemma OtherFirstCharUnrecognized(data: ModuleData, line: string)
    requires line != [] && line[0] != 'm' && line[0] != 'g' && line[0] != 'r' && line[0] != 'e'
    ensures SingleLine(data, line).Err?
  {
    LiteralMismatch(ModulePattern, line, 0);
    LiteralMismatch(GoPattern, line, 0);
    LiteralMismatch(RequirePattern, line, 0);
    LiteralMismatch(ReplacePattern, line, 0);
    LiteralMismatch(ExcludePattern, line, 0);
    LiteralMismatch(RetractVersionPattern, line, 0);
    LiteralMismatch(RetractRangePattern, line, 0);
  }

  /** `// indirect` is a content line: the comment mentions `indirect`, so
      the loop does not skip it. */
  lemma IndirectCommentIsContent(mark: string, word: string)
    requires mark == "//" && word == "indirect"
    ensures var line := mark + (" " + word); TrimSpace(line) == line && Content(line)
  {
    var line := mark + (" " + word);
    assert line[0] == '/' && line[|line| - 1] == 't';
    TrimSpaceOfTrimmed(line);
    assert OccursAt(line, "indirect", 3) by { assert line[3..] == word; }
  }

  /** A `// indirect` comment on a line of its own is not skipped like other
      comments: outside a block it is an unrecognized line. */
  lemma IndirectCommentAtTopLevel(s: Scan, mark: string, word: string)
    requires !s.inBlock && mark == "//" && word == "indirect"
    ensures Step(s, mark + (" " + word)) ==
              Err(LineFailure(s.lineNum + 1, Error(UnrecognizedLine(mark + (" " + word)))))
  {
    IndirectCommentIsContent(mark, word);
    OtherFirstCharUnrecognized(s.data, mark + (" " + word));
    UnrecognizedAtTopLevel(s, mark + (" " + word));
  }

  /** Inside a require block the same comment becomes a requirement of
      path `//` and version `indirect`. */
  lemma IndirectCommentInRequireBlock(s: Scan, mark: string, word: string)
    requires s.inBlock && s.blockType == "require" && mark == "//" && word == "indirect"
    ensures Step(s, mark + (" " + word)) ==
              Ok(s.(data := s.data.(requirements := s.data.requirements + [Require(mark, word, false)]),
                    lineNum := s.lineNum + 1))
  {
    IndirectCommentIsContent(mark, word);
    RequireHandler.CommentLineInBlock(mark, " ", word);
    RequireBlockAppends(s, mark + (" " + word), Require(mark, word, false));
  }

  // ---------------------------------------------------------------------
  // The scanner

  /** Lines written out, each ended by a newline. */
  function Terminated(lines: seq<string>): string
    decreases |lines|
  {
    if lines == [] then "" else lines[0] + ("\n" + Terminated(lines[1..]))
  }

  /** A line the scanner can give back as it is: one line, not ending in a
      carriage return. */
  predicate PlainLine(line: string) {
    '\n' !in line && (line == [] || line[|line| - 1] != '\r')
  }

  /** Cutting lines joined with line ends gives the lines back, then what
      follows the last line end. */
  lemma {:induction false} SplitTerminated(lines: seq<string>, last: string)
    requires forall i :: 0 <= i < |lines| ==> '\n' !in lines[i]
    requires '\n' !in last
    ensures Split(Terminated(lines) + last, "\n") == lines + [last]
    decreases |lines|
  {
    if lines == [] {
      assert Terminated(lines) + last == last;
      NotContainsChar(last, "\n");
      SplitWithout(last, "\n");
    } else {
      NotContainsChar(lines[0], "\n");
      assert Terminated(lines) + last == lines[0] + ("\n" + (Terminated(lines[1..]) + last));
      SplitAfter(lines[0], "\n", Terminated(lines[1..]) + last);
      SplitTerminated(lines[1..], last);
      assert [lines[0]] + (lines[1..] + [last]) == lines + [last];
    }
  }

  /** Plain lines keep their carriage-return-free form. */
  lemma DropCRPlain(lines: seq<string>)
    requires forall i :: 0 <= i < |lines| ==> PlainLine(lines[i])
    ensures seq(|lines|, i requires 0 <= i < |lines| => DropCR(lines[i])) == lines
  {
  }

  /** A text whose pieces between newlines end with an empty one scans to
      the other pieces. */
  lemma ScanLinesOfPieces(text: string, lines: seq<string>)
    requires forall i :: 0 <= i < |lines| ==> PlainLine(lines[i])
    requires Split(text, "\n") == lines + [""]
    ensures ScanLines(text) == lines
  {
    var parts := lines + [""];
    assert parts[..|parts| - 1] == lines;
    DropCRPlain(lines);
  }

  /** A text whose last piece is not empty scans to all its pieces. */
  lemma ScanLinesOfLastPiece(text: string, lines: seq<string>, last: string)
    requires forall i :: 0 <= i < |lines| ==> PlainLine(lines[i])
    requires last != [] && PlainLine(last) && Split(text, "\n") == lines + [last]
    ensures ScanLines(text) == lines + [last]
  {
    var more := lines + [last];
    assert more[|more| - 1] == last;
    forall i | 0 <= i < |more| ensures DropCR(more[i]) == more[i] {
      if i < |lines| { assert more[i] == lines[i]; }
    }
  }

  /** The scanner gives back the lines of a text whose every line ends in
      a newline. */
  lemma ScanLinesOfTerminated(lines: seq<string>)
    requires forall i :: 0 <= i < |lines| ==> PlainLine(lines[i])
    ensures ScanLines(Terminated(lines)) == lines
  {
    SplitTerminated(lines, "");
    assert Terminated(lines) + "" == Terminated(lines);
    ScanLinesOfPieces(Terminated(lines), lines);
  }

  /** A last line without a newline is given back too. */
  lemma ScanLinesOfUnterminated(lines: seq<string>, last: string)
    requires forall i :: 0 <= i < |lines| ==> PlainLine(lines[i])
    requires last != [] && PlainLine(last)
    ensures ScanLines(Terminated(lines) + last) == lines + [last]
  {
    SplitTerminated(lines, last);
    ScanLinesOfLastPiece(Terminated(lines) + last, lines, last);
  }

  /** Lines each ended by a carriage return, as a CRLF text has them. */
  function WithCR(lines: seq<string>): (r: seq<string>)
    ensures |r| == |lines| && forall i :: 0 <= i < |r| ==> r[i] == lines[i] + "\r"
  {
    seq(|lines|, i requires 0 <= i < |lines| => lines[i] + "\r")
  }

  /** The scanner drops the carriage return of every line of a CRLF text. */
  lemma ScanLinesOfCRLF(lines: seq<string>)
    requires forall i :: 0 <= i < |lines| ==> PlainLine(lines[i])
    ensures ScanLines(Terminated(WithCR(lines))) == lines
  {
    var crs := WithCR(lines);
    forall i | 0 <= i < |crs| ensures '\n' !in crs[i] {
      assert crs[i] == lines[i] + "\r";
    }
    SplitTerminated(crs, "");
    var text := Terminated(crs);
    assert text + "" == text;
    var parts := crs + [""];
    assert parts[..|parts| - 1] == crs;
    forall i | 0 <= i < |crs| ensures DropCR(crs[i]) == lines[i] {
      assert crs[i] == lines[i] + "\r";
    }
  }

  /** ParseFromString reads a CRLF text as the same lines with LF ends. */
  lemma ParseTextOfCRLF(lines: seq<string>)
    requires forall i :: 0 <= i < |lines| ==> PlainLine(lines[i])
    ensures ParseText(Terminated(WithCR(lines))) == ParseText(Terminated(lines))
  {
    ScanLinesOfCRLF(lines);
    ScanLinesOfTerminated(lines);
  }

  /** ParseFromString reads a text line by line. */
  lemma ParseTextOfTerminated(lines: seq<string>)
    requires forall i :: 0 <= i < |lines| ==> PlainLine(lines[i])
    ensures ParseText(Terminated(lines)) == ParseLines(lines)
  {
    ScanLinesOfTerminated(lines);
  }
}
