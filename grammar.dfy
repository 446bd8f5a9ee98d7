/**
  The nine regular expressions of pkg/parser/regexp.go, written as
  hand-made matchers.  Seven of them are anchored (`^…$`) and are built
  from four kinds of piece: a literal, a run of blanks (`\s+` or `\s*`),
  a capturing token (`([class]+)`) and a capturing tail (`(.*)`).  The
  generic matcher `Match` reads a pattern greedily, left to right, as
  Go's RE2 does; `Shape` says declaratively what it means for a line to
  have the pattern's shape, and the lemmas `MatchSound` and
  `MatchComplete` prove the two agree.  The two unanchored comment
  patterns (`//\s*indirect` and `//\s*(.+)`) have matchers of their own.
*/
module Grammar {
  import opened Wrappers
  import opened Text

  /** RE2's `\s`, the class [\t\n\f\r ]; unlike unicode.IsSpace it leaves out \v. */
  predicate IsBlank(c: char) {
    c == ' ' || c == '\t' || c == '\n' || c == '\r' || c == 12 as char
  }

  predicate AllBlank(s: string) {
    forall i :: 0 <= i < |s| ==> IsBlank(s[i])
  }

  /** The negated classes the patterns capture with. */
  datatype CharClass =
    | NonBlank             // [^\s]
    | NonBlankBracket      // [^\s\[\]]
    | NonBlankComma        // [^\s,]
    | NonBlankCommaClose   // [^\s,\]]

  predicate InClass(c: char, k: CharClass) {
    !IsBlank(c) &&
    match k
    case NonBlank => true
    case NonBlankBracket => c != '[' && c != ']'
    case NonBlankComma => c != ','
    case NonBlankCommaClose => c != ',' && c != ']'
  }

  predicate AllInClass(s: string, k: CharClass) {
    forall i :: 0 <= i < |s| ==> InClass(s[i], k)
  }

  /** One element of an anchored pattern. */
  datatype Piece =
    | Lit(text: string)         // the literal text itself
    | Blanks(atLeastOne: bool)  // `\s+` when atLeastOne, else `\s*`
    | Token(cls: CharClass)     // a capturing group `([class]+)`
    | Rest                      // the capturing group `(.*)`: `.` is any character but '\n'

  /** Number of capturing groups of a pattern. */
  function Groups(p: seq<Piece>): nat {
    if p == [] then 0 else (if p[0].Token? || p[0].Rest? then 1 else 0) + Groups(p[1..])
  }

  /** Length of the leading run of blanks. */
  function BlankSpan(s: string): (n: nat)
    ensures n <= |s| && AllBlank(s[..n])
    ensures n < |s| ==> !IsBlank(s[n])
  {
    if s != [] && IsBlank(s[0]) then 1 + BlankSpan(s[1..]) else 0
  }

  /** Length of the leading run of characters of class `k`. */
  function ClassSpan(s: string, k: CharClass): (n: nat)
    ensures n <= |s| && AllInClass(s[..n], k)
    ensures n < |s| ==> !InClass(s[n], k)
  {
    if s != [] && InClass(s[0], k) then 1 + ClassSpan(s[1..], k) else 0
  }

  /** The greedy matcher: the captured groups when the whole of `s` matches `p`. */
  function Match(p: seq<Piece>, s: string): (r: Option<seq<string>>)
    ensures r.Some? ==> |r.value| == Groups(p)
    decreases |p|
  {
    if p == [] then (if s == [] then Some([]) else None)
    else
      match p[0]
      case Lit(t) =>
        if HasPrefix(s, t) then Match(p[1..], s[|t|..]) else None
      case Blanks(one) =>
        var n := BlankSpan(s);
        if one && n == 0 then None else Match(p[1..], s[n..])
      case Token(k) =>
        var n := ClassSpan(s, k);
        if n == 0 then None
        else
          (match Match(p[1..], s[n..])
           case None => None
           case Some(cs) => Some([s[..n]] + cs))
      case Rest =>
        if '\n' in s then None
        else
          match Match(p[1..], [])
          case None => None
          case Some(cs) => Some([s] + cs)
  }

  /** `s` splits into consecutive pieces that fit `p`, the captured pieces
      being `caps`; a token is as long as it can be, which is the choice a
      greedy `+` makes. */
  ghost predicate Shape(p: seq<Piece>, s: string, caps: seq<string>)
    decreases |p|
  {
    if p == [] then s == [] && caps == []
    else
      match p[0]
      case Lit(t) =>
        HasPrefix(s, t) && Shape(p[1..], s[|t|..], caps)
      case Blanks(one) =>
        exists n :: (if one then 1 else 0) <= n <= |s| && AllBlank(s[..n]) && Shape(p[1..], s[n..], caps)
      case Token(k) =>
        caps != [] && caps[0] != [] && HasPrefix(s, caps[0]) && AllInClass(caps[0], k)
        && (|caps[0]| == |s| || !InClass(s[|caps[0]|], k))
        && Shape(p[1..], s[|caps[0]|..], caps[1..])
      case Rest =>
        caps != [] && caps[0] == s && '\n' !in s && Shape(p[1..], [], caps[1..])
  }

  /** A word in the sense of strings.Fields is a token of the class [^\s]. */
  lemma WordInClass(w: string)
    requires Word(w)
    ensures w != [] && AllInClass(w, NonBlank)
  {
  }

  /** A piece that can only match text starting with a non-blank character. */
  predicate StartsSolid(x: Piece) {
    x.Token? || (x.Lit? && x.text != [] && !IsBlank(x.text[0]))
  }

  /** Every run of blanks is followed by a piece that starts solid, so the
      boundary where the blanks end is forced. */
  predicate Deterministic(p: seq<Piece>) {
    forall i :: 0 <= i < |p| && p[i].Blanks? ==> i + 1 < |p| && StartsSolid(p[i + 1])
  }

  lemma {:induction false} MatchSound(p: seq<Piece>, s: string)
    requires Match(p, s).Some?
    ensures Shape(p, s, Match(p, s).value)
    decreases |p|
  {
    if p != [] {
      match p[0]
      case Lit(t) =>
        MatchSound(p[1..], s[|t|..]);
      case Blanks(one) =>
        var n := BlankSpan(s);
        MatchSound(p[1..], s[n..]);
      case Token(k) =>
        var n := ClassSpan(s, k);
        MatchSound(p[1..], s[n..]);
        var caps := Match(p, s).value;
        assert caps[0] == s[..n] && caps[1..] == Match(p[1..], s[n..]).value;
      case Rest =>
        MatchSound(p[1..], []);
        var caps := Match(p, s).value;
        assert caps[1..] == Match(p[1..], []).value;
    }
  }

  /** Text fitting a solid piece starts with a non-blank character. */
  lemma SolidStart(p: seq<Piece>, s: string, caps: seq<string>)
    requires p != [] && StartsSolid(p[0]) && Shape(p, s, caps)
    ensures s != [] && !IsBlank(s[0])
  {
    match p[0]
    case Lit(t) =>
      assert s[0] == s[..|t|][0];
    case Token(k) =>
      assert s[0] == caps[0][0];
      assert InClass(caps[0][0], k);
  }

  lemma BlankSpanExact(s: string, n: nat)
    requires n <= |s| && AllBlank(s[..n]) && (n == |s| || !IsBlank(s[n]))
    ensures BlankSpan(s) == n
    decreases n
  {
    if n > 0 {
      assert s[1..][..n - 1] == s[1..n];
      BlankSpanExact(s[1..], n - 1);
    }
  }

  lemma ClassSpanExact(s: string, k: CharClass, n: nat)
    requires n <= |s| && AllInClass(s[..n], k) && (n == |s| || !InClass(s[n], k))
    ensures ClassSpan(s, k) == n
    decreases n
  {
    if n > 0 {
      assert s[1..][..n - 1] == s[1..n];
      ClassSpanExact(s[1..], k, n - 1);
    }
  }

  lemma {:induction false} MatchComplete(p: seq<Piece>, s: string, caps: seq<string>)
    requires Deterministic(p) && Shape(p, s, caps)
    ensures Match(p, s) == Some(caps)
    decreases |p|
  {
    if p != [] {
      assert Deterministic(p[1..]) by {
        forall i | 0 <= i < |p[1..]| && p[1..][i].Blanks?
          ensures i + 1 < |p[1..]| && StartsSolid(p[1..][i + 1])
        {
          assert p[i + 1] == p[1..][i];
        }
      }
      match p[0]
      case Lit(t) =>
        MatchComplete(p[1..], s[|t|..], caps);
      case Blanks(one) =>
        var n :| (if one then 1 else 0) <= n <= |s| && AllBlank(s[..n]) && Shape(p[1..], s[n..], caps);
        assert p[0].Blanks?;
        SolidStart(p[1..], s[n..], caps);
        BlankSpanExact(s, n);
        MatchComplete(p[1..], s[n..], caps);
      case Token(k) =>
        ClassSpanExact(s, k, |caps[0]|);
        assert s[..|caps[0]|] == caps[0];
        MatchComplete(p[1..], s[|caps[0]|..], caps[1..]);
        assert caps == [caps[0]] + caps[1..];
      case Rest =>
        MatchComplete(p[1..], [], caps[1..]);
        assert caps == [caps[0]] + caps[1..];
    }
  }

  // ---------------------------------------------------------------------
  // The patterns of regexp.go

  /** `^module\s+([^\s]+)$` */
  const ModulePattern: seq<Piece> := [Lit("module"), Blanks(true), Token(NonBlank)]

  /** `^go\s+([^\s]+)$` */
  const GoPattern: seq<Piece> := [Lit("go"), Blanks(true), Token(NonBlank)]

  /** `^require\s+([^\s]+)\s+([^\s]+)(.*)$` */
  const RequirePattern: seq<Piece> :=
    [Lit("require"), Blanks(true), Token(NonBlank), Blanks(true), Token(NonBlank), Rest]

  /** `^replace\s+([^\s]+)\s+=>\s+([^\s]+)\s+([^\s]+)$` */
  const ReplacePattern: seq<Piece> :=
    [Lit("replace"), Blanks(true), Token(NonBlank), Blanks(true), Lit("=>"),
     Blanks(true), Token(NonBlank), Blanks(true), Token(NonBlank)]

  /** `^exclude\s+([^\s]+)\s+([^\s]+)$` */
  const ExcludePattern: seq<Piece> :=
    [Lit("exclude"), Blanks(true), Token(NonBlank), Blanks(true), Token(NonBlank)]

  /** `^retract\s+([^\s\[\]]+)(.*)$` */
  const RetractVersionPattern: seq<Piece> :=
    [Lit("retract"), Blanks(true), Token(NonBlankBracket), Rest]

  /** `^retract\s+\[\s*([^\s,]+)\s*,\s*([^\s,\]]+)\s*\](.*)$` */
  const RetractRangePattern: seq<Piece> :=
    [Lit("retract"), Blanks(true), Lit("["), Blanks(false), Token(NonBlankComma),
     Blanks(false), Lit(","), Blanks(false), Token(NonBlankCommaClose),
     Blanks(false), Lit("]"), Rest]

  // Each anchored pattern fixes its blank runs.

  lemma ModuleDeterministic() ensures Deterministic(ModulePattern) {}
  lemma GoDeterministic() ensures Deterministic(GoPattern) {}
  lemma RequireDeterministic() ensures Deterministic(RequirePattern) {}
  lemma ReplaceDeterministic() ensures Deterministic(ReplacePattern) {}
  lemma ExcludeDeterministic() ensures Deterministic(ExcludePattern) {}
  lemma RetractVersionDeterministic() ensures Deterministic(RetractVersionPattern) {}
  lemma RetractRangeDeterministic() ensures Deterministic(RetractRangePattern) {}

  /** moduleRegexp and goRegexp: the keyword, blanks, then exactly one token. */
  lemma {:induction false} KeywordTokenComplete(kw: string, w: string, token: string)
    requires kw != [] && !IsBlank(kw[0])
    requires w != [] && AllBlank(w) && token != [] && AllInClass(token, NonBlank)
    ensures Match([Lit(kw), Blanks(true), Token(NonBlank)], kw + w + token) == Some([token])
  {
    var p := [Lit(kw), Blanks(true), Token(NonBlank)];
    var s := kw + w + token;
    assert s[|kw|..] == w + token;
    assert (w + token)[|w|..] == token && (w + token)[..|w|] == w;
    assert token[|token|..] == [];
    assert Shape(p[2..], token, [token]);
    assert Shape(p[1..], w + token, [token]);
    assert Shape(p, s, [token]);
    MatchComplete(p, s, [token]);
  }

  // Matching a line piece by piece: each lemma consumes the first piece.

  lemma MatchLit(p: seq<Piece>, t: string, s: string)
    requires p != [] && p[0] == Lit(t)
    ensures Match(p, t + s) == Match(p[1..], s)
  {
    assert (t + s)[..|t|] == t && (t + s)[|t|..] == s;
  }

  lemma MatchBlanks(p: seq<Piece>, w: string, s: string)
    requires p != [] && p[0].Blanks? && AllBlank(w) && (p[0].atLeastOne ==> w != [])
    requires s == [] || !IsBlank(s[0])
    ensures Match(p, w + s) == Match(p[1..], s)
  {
    assert (w + s)[..|w|] == w && (w + s)[|w|..] == s;
    assert s != [] ==> (w + s)[|w|] == s[0];
    BlankSpanExact(w + s, |w|);
  }

  lemma MatchToken(p: seq<Piece>, t: string, s: string, cs: seq<string>)
    requires p != [] && p[0].Token? && t != [] && AllInClass(t, p[0].cls)
    requires s == [] || !InClass(s[0], p[0].cls)
    requires Match(p[1..], s) == Some(cs)
    ensures Match(p, t + s) == Some([t] + cs)
  {
    assert (t + s)[..|t|] == t && (t + s)[|t|..] == s;
    assert s != [] ==> (t + s)[|t|] == s[0];
    ClassSpanExact(t + s, p[0].cls, |t|);
  }

  lemma MatchRest(p: seq<Piece>, s: string)
    requires p == [Rest] && '\n' !in s
    ensures Match(p, s) == Some([s])
  {
    assert p[1..] == [];
    assert [s] + [] == [s];
  }

  /** singleRequireRegexp: the keyword, a path token, a version token and any tail
      that starts with a blank. */
  lemma {:induction false} RequireLineMatches(w1: string, path: string, w2: string, version: string, tail: string)
    requires w1 != [] && AllBlank(w1) && w2 != [] && AllBlank(w2)
    requires path != [] && AllInClass(path, NonBlank) && version != [] && AllInClass(version, NonBlank)
    requires (tail == [] || IsBlank(tail[0])) && '\n' !in tail
    ensures Match(RequirePattern, "require" + (w1 + (path + (w2 + (version + tail))))) == Some([path, version, tail])
  {
    var p := RequirePattern;
    var s4 := version + tail;
    var s3 := w2 + s4;
    var s2 := path + s3;
    var s1 := w1 + s2;
    MatchRest(p[5..], tail);
    assert p[4..][1..] == p[5..];
    MatchToken(p[4..], version, tail, [tail]);
    assert [version] + [tail] == [version, tail];
    assert s4[0] == version[0];
    assert p[3..][1..] == p[4..];
    MatchBlanks(p[3..], w2, s4);
    assert s3[0] == w2[0];
    assert p[2..][1..] == p[3..];
    MatchToken(p[2..], path, s3, [version, tail]);
    assert [path] + [version, tail] == [path, version, tail];
    assert s2[0] == path[0];
    assert p[1..][1..] == p[2..];
    MatchBlanks(p[1..], w1, s2);
    MatchLit(p, "require", s1);
  }

  /** The two tokens at the end of singleExcludeRegexp and singleReplaceRegexp. */
  lemma {:induction false} TwoTokensAtEnd(p: seq<Piece>, w1: string, t1: string, w2: string, t2: string)
    requires p == [Blanks(true), Token(NonBlank), Blanks(true), Token(NonBlank)]
    requires w1 != [] && AllBlank(w1) && w2 != [] && AllBlank(w2)
    requires t1 != [] && AllInClass(t1, NonBlank) && t2 != [] && AllInClass(t2, NonBlank)
    ensures Match(p, w1 + (t1 + (w2 + t2))) == Some([t1, t2])
  {
    var s3 := w2 + t2;
    var s2 := t1 + s3;
    assert Match(p[4..], []) == Some([]);
    assert t2 + [] == t2 && [t2] + [] == [t2];
    MatchToken(p[3..], t2, [], []);
    assert t2[0] == t2[0];
    MatchBlanks(p[2..], w2, t2);
    assert s3[0] == w2[0];
    MatchToken(p[1..], t1, s3, [t2]);
    assert [t1] + [t2] == [t1, t2];
    assert s2[0] == t1[0];
    MatchBlanks(p, w1, s2);
  }

  /** singleExcludeRegexp: the keyword, a path token and a version token. */
  lemma {:induction false} ExcludeLineMatches(w1: string, path: string, w2: string, version: string)
    requires w1 != [] && AllBlank(w1) && w2 != [] && AllBlank(w2)
    requires path != [] && AllInClass(path, NonBlank) && version != [] && AllInClass(version, NonBlank)
    ensures Match(ExcludePattern, "exclude" + (w1 + (path + (w2 + version)))) == Some([path, version])
  {
    TwoTokensAtEnd(ExcludePattern[1..], w1, path, w2, version);
    MatchLit(ExcludePattern, "exclude", w1 + (path + (w2 + version)));
  }

  /** singleReplaceRegexp: the keyword, the old path, `=>`, the new path and its version. */
  lemma {:induction false} ReplaceLineMatches(w1: string, oldPath: string, w2: string, arrowTail: string,
                                                w3: string, newPath: string, w4: string, newVersion: string)
    requires w1 != [] && AllBlank(w1) && w2 != [] && AllBlank(w2) && w3 != [] && AllBlank(w3) && w4 != [] && AllBlank(w4)
    requires oldPath != [] && AllInClass(oldPath, NonBlank)
    requires newPath != [] && AllInClass(newPath, NonBlank) && newVersion != [] && AllInClass(newVersion, NonBlank)
    requires arrowTail == "=>" + (w3 + (newPath + (w4 + newVersion)))
    ensures Match(ReplacePattern, "replace" + (w1 + (oldPath + (w2 + arrowTail)))) == Some([oldPath, newPath, newVersion])
  {
    var p := ReplacePattern;
    var s3 := w2 + arrowTail;
    var s2 := oldPath + s3;
    TwoTokensAtEnd(p[5..], w3, newPath, w4, newVersion);
    assert p[4..][1..] == p[5..];
    MatchLit(p[4..], "=>", w3 + (newPath + (w4 + newVersion)));
    assert arrowTail[0] == '=';
    assert p[3..][1..] == p[4..];
    MatchBlanks(p[3..], w2, arrowTail);
    assert s3[0] == w2[0];
    assert p[2..][1..] == p[3..];
    MatchToken(p[2..], oldPath, s3, [newPath, newVersion]);
    assert [oldPath] + [newPath, newVersion] == [oldPath, newPath, newVersion];
    assert s2[0] == oldPath[0];
    assert p[1..][1..] == p[2..];
    MatchBlanks(p[1..], w1, s2);
    MatchLit(p, "replace", w1 + s2);
  }

  lemma MatchTokenNone(p: seq<Piece>, t: string, s: string)
    requires p != [] && p[0].Token? && t != [] && AllInClass(t, p[0].cls)
    requires s == [] || !InClass(s[0], p[0].cls)
    requires Match(p[1..], s) == None
    ensures Match(p, t + s) == None
  {
    assert (t + s)[..|t|] == t && (t + s)[|t|..] == s;
    assert s != [] ==> (t + s)[|t|] == s[0];
    ClassSpanExact(t + s, p[0].cls, |t|);
  }

  /** singleReplaceRegexp has no slot for a version of the old path: a second
      token before `=>` makes the line fail to match. */
  lemma {:induction false} ReplaceLineWithOldVersionFails(w1: string, oldPath: string, w2: string, oldVersion: string, rest: string)
    requires w1 != [] && AllBlank(w1) && w2 != [] && AllBlank(w2)
    requires oldPath != [] && AllInClass(oldPath, NonBlank)
    requires oldVersion != [] && AllInClass(oldVersion, NonBlank) && oldVersion[0] != '='
    ensures Match(ReplacePattern, "replace" + (w1 + (oldPath + (w2 + (oldVersion + rest))))) == None
  {
    var p := ReplacePattern;
    var s4 := oldVersion + rest;
    var s3 := w2 + s4;
    var s2 := oldPath + s3;
    assert s4[0] == oldVersion[0];
    assert p[4] == Lit("=>");
    assert !HasPrefix(s4, "=>") by { if |s4| >= 2 { assert s4[..2][0] == s4[0]; } }
    assert Match(p[4..], s4) == None;
    assert p[3..][1..] == p[4..];
    MatchBlanks(p[3..], w2, s4);
    assert s3[0] == w2[0];
    assert p[2..][1..] == p[3..];
    MatchTokenNone(p[2..], oldPath, s3);
    assert s2[0] == oldPath[0];
    assert p[1..][1..] == p[2..];
    MatchBlanks(p[1..], w1, s2);
    MatchLit(p, "replace", w1 + s2);
  }

  /** singleRetractVersionRegexp: the keyword, a version token without brackets,
      and a tail that starts with a blank or a bracket. */
  lemma {:induction false} RetractVersionLineMatches(w: string, version: string, tail: string)
    requires w != [] && AllBlank(w)
    requires version != [] && AllInClass(version, NonBlankBracket)
    requires (tail == [] || !InClass(tail[0], NonBlankBracket)) && '\n' !in tail
    ensures Match(RetractVersionPattern, "retract" + (w + (version + tail))) == Some([version, tail])
  {
    var p := RetractVersionPattern;
    MatchRest(p[3..], tail);
    assert p[2..][1..] == p[3..];
    MatchToken(p[2..], version, tail, [tail]);
    assert [version] + [tail] == [version, tail];
    assert (version + tail)[0] == version[0];
    assert p[1..][1..] == p[2..];
    MatchBlanks(p[1..], w, version + tail);
    MatchLit(p, "retract", w + (version + tail));
  }

  /** singleRetractVersionRegexp does not take a `[` for a version. */
  lemma RetractVersionRejectsBracket(w: string, rest: string)
    requires w != [] && AllBlank(w) && rest != [] && rest[0] == '['
    ensures Match(RetractVersionPattern, "retract" + (w + rest)) == None
  {
    var p := RetractVersionPattern;
    assert ClassSpan(rest, NonBlankBracket) == 0;
    assert Match(p[2..], rest) == None;
    assert p[1..][1..] == p[2..];
    MatchBlanks(p[1..], w, rest);
    MatchLit(p, "retract", w + rest);
  }

  /** The end of singleRetractVersionRangeRegexp: `,`, the upper bound, `]` and the tail. */
  lemma {:induction false} RangeHighMatches(p: seq<Piece>, b3: string, high: string, b4: string, tail: string)
    requires p == [Lit(","), Blanks(false), Token(NonBlankCommaClose), Blanks(false), Lit("]"), Rest]
    requires AllBlank(b3) && AllBlank(b4)
    requires high != [] && AllInClass(high, NonBlankCommaClose)
    requires '\n' !in tail
    ensures Match(p, "," + (b3 + (high + (b4 + ("]" + tail))))) == Some([high, tail])
  {
    var s3 := b4 + ("]" + tail);
    MatchRest(p[5..], tail);
    assert p[4..][1..] == p[5..];
    MatchLit(p[4..], "]", tail);
    assert ("]" + tail)[0] == ']';
    assert p[3..][1..] == p[4..];
    MatchBlanks(p[3..], b4, "]" + tail);
    assert s3 != [] && (s3[0] == ']' || IsBlank(s3[0])) by {
      if b4 != [] { assert s3[0] == b4[0]; } else { assert s3 == "]" + tail; }
    }
    assert p[2..][1..] == p[3..];
    MatchToken(p[2..], high, s3, [tail]);
    assert [high] + [tail] == [high, tail];
    assert (high + s3)[0] == high[0];
    assert p[1..][1..] == p[2..];
    MatchBlanks(p[1..], b3, high + s3);
    MatchLit(p, ",", b3 + (high + s3));
  }

  /** The bracketed range of singleRetractVersionRangeRegexp, from `[` on. */
  lemma {:induction false} RangeMatches(p: seq<Piece>, b1: string, low: string, b2: string, highPart: string,
                                          b3: string, high: string, b4: string, tail: string)
    requires p == [Lit("["), Blanks(false), Token(NonBlankComma), Blanks(false),
                   Lit(","), Blanks(false), Token(NonBlankCommaClose), Blanks(false), Lit("]"), Rest]
    requires AllBlank(b1) && AllBlank(b2) && AllBlank(b3) && AllBlank(b4)
    requires low != [] && AllInClass(low, NonBlankComma) && high != [] && AllInClass(high, NonBlankCommaClose)
    requires '\n' !in tail
    requires highPart == "," + (b3 + (high + (b4 + ("]" + tail))))
    ensures Match(p, "[" + (b1 + (low + (b2 + highPart)))) == Some([low, high, tail])
  {
    var s3 := b2 + highPart;
    RangeHighMatches(p[4..], b3, high, b4, tail);
    assert highPart[0] == ',';
    assert p[3..][1..] == p[4..];
    MatchBlanks(p[3..], b2, highPart);
    assert s3 != [] && (s3[0] == ',' || IsBlank(s3[0])) by {
      if b2 != [] { assert s3[0] == b2[0]; } else { assert s3 == highPart; }
    }
    assert p[2..][1..] == p[3..];
    MatchToken(p[2..], low, s3, [high, tail]);
    assert [low] + [high, tail] == [low, high, tail];
    assert (low + s3)[0] == low[0];
    assert p[1..][1..] == p[2..];
    MatchBlanks(p[1..], b1, low + s3);
    MatchLit(p, "[", b1 + (low + s3));
  }

  /** singleRetractVersionRangeRegexp: `retract [ LOW , HIGH ]` with optional blanks
      inside the brackets, and any tail. */
  lemma {:induction false} RetractRangeLineMatches(w: string, b1: string, low: string, b2: string, highPart: string,
                                                     b3: string, high: string, b4: string, tail: string)
    requires w != [] && AllBlank(w) && AllBlank(b1) && AllBlank(b2) && AllBlank(b3) && AllBlank(b4)
    requires low != [] && AllInClass(low, NonBlankComma) && high != [] && AllInClass(high, NonBlankCommaClose)
    requires '\n' !in tail
    requires highPart == "," + (b3 + (high + (b4 + ("]" + tail))))
    ensures Match(RetractRangePattern, "retract" + (w + ("[" + (b1 + (low + (b2 + highPart)))))) == Some([low, high, tail])
  {
    var p := RetractRangePattern;
    var s1 := "[" + (b1 + (low + (b2 + highPart)));
    RangeMatches(p[2..], b1, low, b2, highPart, b3, high, b4, tail);
    assert s1[0] == '[';
    assert p[1..][1..] == p[2..];
    MatchBlanks(p[1..], w, s1);
    MatchLit(p, "retract", w + s1);
  }

  /** Examples from the tests of parseGoVersion. */
  lemma GoVersionAccepted()
    ensures Match(GoPattern, "go 1.21.0") == Some(["1.21.0"])
  {
    KeywordTokenComplete("go", " ", "1.21.0");
    assert "go" + " " + "1.21.0" == "go 1.21.0";
  }

  lemma GoVersionWithoutBlankRejected()
    ensures Match(GoPattern, "go1.21") == None
  {
    assert "go1.21"[2..] == "1.21";
    assert BlankSpan("1.21") == 0;
  }

  lemma GoVersionWithExtraTokenRejected()
    ensures Match(GoPattern, "go 1.21 extra") == None
  {
    var p, w, v, rest := GoPattern, " ", "1.21", " extra";
    assert "go" + (w + (v + rest)) == "go 1.21 extra";
    assert p[1..][1..] == p[2..] && p[2..][1..] == [];
    assert AllInClass(v, NonBlank) by {
      forall i | 0 <= i < |v| ensures InClass(v[i], NonBlank) {
        assert v[i] in {'1', '.', '2'};
      }
    }
    assert AllBlank(w) && (v + rest)[0] == '1';
    MatchTokenNone(p[2..], v, rest);
    MatchBlanks(p[1..], w, v + rest);
    MatchLit(p, "go", w + (v + rest));
  }

  // ---------------------------------------------------------------------
  // The two comment patterns

  /** indirectCommentRegexp `//\s*indirect`, searched anywhere in `s`. */
  predicate HasIndirectMarker(s: string)
    ensures HasIndirectMarker(s) ==> |s| >= |"//indirect"|
    decreases |s|
  {
    |s| >= 2 &&
    ((s[..2] == "//" && HasPrefix(s[2..][BlankSpan(s[2..])..], "indirect")) || HasIndirectMarker(s[1..]))
  }

  /** The marker starts at index `i`, with `k` blanks between `//` and `indirect`. */
  ghost predicate IndirectAt(s: string, i: int, k: int) {
    0 <= i && 0 <= k && i + 2 + k <= |s| && s[i..i + 2] == "//"
    && AllBlank(s[i + 2..i + 2 + k]) && HasPrefix(s[i + 2 + k..], "indirect")
  }

  /** Any occurrence of the marker is found. */
  lemma {:induction false} IndirectMarkerFound(s: string, i: int, k: int)
    requires IndirectAt(s, i, k)
    ensures HasIndirectMarker(s)
    decreases i
  {
    if i == 0 {
      var rest := s[2..];
      assert rest[..k] == s[2..2 + k];
      assert rest[k..] == s[2 + k..];
      assert rest[k] == 'i';
      BlankSpanExact(rest, k);
    } else {
      assert s[1..][i - 1..i + 1] == s[i..i + 2];
      assert s[1..][i + 1..i + 1 + k] == s[i + 2..i + 2 + k];
      assert s[1..][i + 1 + k..] == s[i + 2 + k..];
      IndirectMarkerFound(s[1..], i - 1, k);
    }
  }

  /** The marker is found only where it occurs. */
  lemma {:induction false} IndirectMarkerOccurs(s: string)
    requires HasIndirectMarker(s)
    ensures exists i, k :: IndirectAt(s, i, k)
    decreases |s|
  {
    var rest := s[2..];
    var k := BlankSpan(rest);
    if s[..2] == "//" && HasPrefix(rest[k..], "indirect") {
      assert rest[..k] == s[2..2 + k];
      assert rest[k..] == s[2 + k..];
      assert IndirectAt(s, 0, k);
    } else {
      IndirectMarkerOccurs(s[1..]);
      var i, j :| IndirectAt(s[1..], i, j);
      assert s[1..][i..i + 2] == s[i + 1..i + 3];
      assert s[1..][i + 2..i + 2 + j] == s[i + 3..i + 3 + j];
      assert s[1..][i + 2 + j..] == s[i + 3 + j..];
      assert IndirectAt(s, i + 1, j);
    }
  }

  /** The marker matcher finds a marker exactly when there is one. */
  lemma IndirectMarkerIff(s: string)
    ensures HasIndirectMarker(s) <==> exists i, k :: IndirectAt(s, i, k)
  {
    forall i, k | IndirectAt(s, i, k) ensures HasIndirectMarker(s) {
      IndirectMarkerFound(s, i, k);
    }
    if HasIndirectMarker(s) { IndirectMarkerOccurs(s); }
  }

  /** The marker spells out `indirect`, so a text without one of its letters has no marker. */
  lemma IndirectMarkerHasWord(s: string)
    requires HasIndirectMarker(s)
    ensures forall c :: c in "indirect" ==> c in s
  {
    IndirectMarkerOccurs(s);
    var i, k :| IndirectAt(s, i, k);
    var j := i + 2 + k;
    forall c | c in "indirect" ensures c in s {
      var n :| 0 <= n < 8 && "indirect"[n] == c;
      assert s[j..][..8][n] == s[j + n];
    }
  }

  /** Length of the text before the first line break. */
  function LineLength(s: string): (n: nat)
    ensures n <= |s| && '\n' !in s[..n]
    ensures n < |s| ==> s[n] == '\n'
  {
    if s != [] && s[0] != '\n' then 1 + LineLength(s[1..]) else 0
  }

  /** The rationale a retraction keeps from its comment text: the group of
      rationaleRegexp `//\s*(.+)` after strings.TrimSpace, or "" when the
      pattern does not match.  The leftmost match starts at the first `//`;
      `\s*` takes every blank after it and `.+` the rest of that line.  When
      only blanks follow, the group is blanks or there is no match, and the
      trimmed text is "" either way. */
  function Rationale(s: string): (r: string)
    ensures Trimmed(r)
    ensures !Contains(s, "//") ==> r == ""
  {
    match IndexOf(s, "//")
    case None => ""
    case Some(i) =>
      var rest := s[i + 2..];
      var body := rest[BlankSpan(rest)..];
      TrimSpace(body[..LineLength(body)])
  }

  /** The rationale of `pre // text` is the trimmed text. */
  lemma RationaleOfComment(pre: string, w: string, text: string)
    requires !Contains(pre, "//") && (pre == [] || pre[|pre| - 1] != '/')
    requires AllBlank(w) && '\n' !in text && (text == [] || !IsBlank(text[0]))
    ensures Rationale(pre + "//" + w + text) == TrimSpace(text)
  {
    var s := pre + "//" + w + text;
    FirstOccurrence(pre, "//", w + text);
    assert s == pre + "//" + (w + text);
    assert s[|pre| + 2..] == w + text;
    assert (w + text)[..|w|] == w;
    BlankSpanExact(w + text, |w|);
    assert (w + text)[|w|..] == text;
    LineLengthOfLine(text);
    assert text[..|text|] == text;
  }

  lemma LineLengthOfLine(s: string)
    requires '\n' !in s
    ensures LineLength(s) == |s|
    decreases |s|
  {
    if s != [] { LineLengthOfLine(s[1..]); }
  }

  /** `//` right after a text without `//` that does not end in `/` is the first one. */
  lemma FirstOccurrence(pre: string, sep: string, tail: string)
    requires sep == "//"
    requires !Contains(pre, sep) && (pre == [] || pre[|pre| - 1] != '/')
    ensures IndexOf(pre + sep + tail, sep) == Some(|pre|)
  {
    var s := pre + sep + tail;
    assert OccursAt(s, sep, |pre|) by { assert s[|pre|..|pre| + 2] == sep; }
    forall j | 0 <= j < |pre| ensures !OccursAt(s, sep, j) {
      if j + 2 <= |pre| {
        assert s[j..j + 2] == pre[j..j + 2];
        assert !OccursAt(pre, sep, j);
      } else {
        assert s[j..j + 2][0] == pre[|pre| - 1];
      }
    }
    match IndexOf(s, sep)
    case None =>
    case Some(k) =>
      assert !(k < |pre|);
      assert !(k > |pre|) by { assert !OccursAt(s, sep, k) || k <= |pre|; }
  }
}
