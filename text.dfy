/**
  The parts of Go's `strings` package the parser relies on, over `string`
  (a sequence of characters): TrimSpace, Fields, Split, Join, Index,
  HasPrefix, HasSuffix, Contains, and Go's `<=` on strings.
  Go works on UTF-8 bytes; since UTF-8 encoding preserves code-point order,
  comparing characters by code point gives the same answers as Go's
  byte-wise comparison on well-formed text.
*/
module Text {
  import opened Wrappers

  /** The ASCII part of unicode.IsSpace, used by TrimSpace and Fields. */
  predicate IsSpace(c: char) {
    c == ' ' || c == '\t' || c == '\n' || c == '\r' || c == 11 as char || c == 12 as char
  }

  predicate AllSpace(s: string) {
    forall i :: 0 <= i < |s| ==> IsSpace(s[i])
  }

  predicate NoSpace(s: string) {
    forall i :: 0 <= i < |s| ==> !IsSpace(s[i])
  }

  /** A field as strings.Fields yields it: non-empty, without white space. */
  predicate Word(s: string) {
    s != [] && NoSpace(s)
  }

  /** A string with no surrounding white space, as TrimSpace leaves it. */
  predicate Trimmed(s: string) {
    s == [] || (!IsSpace(s[0]) && !IsSpace(s[|s| - 1]))
  }

  /** Number of leading white-space characters. */
  function LeadingSpace(s: string): (n: nat)
    ensures n <= |s| && AllSpace(s[..n])
    ensures n < |s| ==> !IsSpace(s[n])
  {
    if s != [] && IsSpace(s[0]) then 1 + LeadingSpace(s[1..]) else 0
  }

  /** Number of trailing white-space characters. */
  function TrailingSpace(s: string): (n: nat)
    ensures n <= |s| && AllSpace(s[|s| - n..])
    ensures n < |s| ==> !IsSpace(s[|s| - 1 - n])
  {
    if s != [] && IsSpace(s[|s| - 1]) then 1 + TrailingSpace(s[..|s| - 1]) else 0
  }

  /** Length of the leading run of non-space characters. */
  function WordLength(s: string): (n: nat)
    ensures n <= |s| && NoSpace(s[..n])
    ensures n < |s| ==> IsSpace(s[n])
  {
    if s != [] && !IsSpace(s[0]) then 1 + WordLength(s[1..]) else 0
  }

  /** strings.TrimSpace: the text between the leading and trailing white space. */
  function TrimSpace(s: string): (r: string)
    ensures Trimmed(r)
    ensures |r| <= |s|
  {
    var a := LeadingSpace(s);
    if a == |s| then "" else
      var b := TrailingSpace(s);
      assert a < |s| - b by { assert !IsSpace(s[a]); }
      s[a..|s| - b]
  }

  /** strings.HasPrefix */
  predicate HasPrefix(s: string, p: string) {
    |p| <= |s| && s[..|p|] == p
  }

  /** A text whose first character differs from the prefix's lacks the prefix. */
  lemma FirstCharNotPrefix(s: string, p: string)
    requires s != [] && p != [] && s[0] != p[0]
    ensures !HasPrefix(s, p)
  {
    assert |p| > |s| || s[..|p|][0] == s[0];
  }

  /** strings.HasSuffix */
  predicate HasSuffix(s: string, p: string) {
    |p| <= |s| && s[|s| - |p|..] == p
  }

  /** `pat` occurs in `s` starting at index `i`. */
  predicate OccursAt(s: string, pat: string, i: int) {
    0 <= i && i + |pat| <= |s| && s[i..i + |pat|] == pat
  }

  /** strings.Index: the first occurrence of `pat` in `s`, if any. */
  function IndexOf(s: string, pat: string): (r: Option<nat>)
    ensures r.Some? ==> OccursAt(s, pat, r.value)
    ensures r.Some? ==> forall j :: 0 <= j < r.value ==> !OccursAt(s, pat, j)
    ensures r.None? ==> forall j :: !OccursAt(s, pat, j)
    decreases |s|
  {
    if |s| < |pat| then None
    else if s[..|pat|] == pat then Some(0)
    else
      match IndexOf(s[1..], pat)
      case None =>
        assert forall j :: OccursAt(s, pat, j) ==> j == 0 || OccursAt(s[1..], pat, j - 1);
        None
      case Some(k) =>
        assert forall j :: OccursAt(s, pat, j) ==> j == 0 || OccursAt(s[1..], pat, j - 1);
        assert s[1..][k..k + |pat|] == s[k + 1..k + 1 + |pat|];
        Some(k + 1)
  }

  /** strings.Contains */
  predicate Contains(s: string, pat: string) {
    IndexOf(s, pat).Some?
  }

  /** strings.Join */
  function Join(xs: seq<string>, sep: string): string
    decreases |xs|
  {
    if |xs| == 0 then "" else if |xs| == 1 then xs[0] else xs[0] + sep + Join(xs[1..], sep)
  }

  /** strings.Fields: the maximal runs of non-space characters, in order. */
  function Fields(s: string): seq<string>
    decreases |s|
  {
    if s == [] then []
    else if IsSpace(s[0]) then Fields(s[1..])
    else
      var n := WordLength(s);
      [s[..n]] + Fields(s[n..])
  }

  /** strings.Split with a non-empty separator: the pieces between the
      successive non-overlapping occurrences of `sep`, from left to right. */
  function Split(s: string, sep: string): (r: seq<string>)
    requires sep != []
    ensures |r| >= 1
    ensures forall i :: 0 <= i < |r| ==> !Contains(r[i], sep)
    decreases |s|
  {
    match IndexOf(s, sep)
    case None => [s]
    case Some(i) =>
      var head := s[..i];
      assert !Contains(head, sep) by {
        forall j | OccursAt(head, sep, j) ensures false {
          assert s[j..j + |sep|] == head[j..j + |sep|];
          assert OccursAt(s, sep, j);
        }
      }
      [head] + Split(s[i + |sep|..], sep)
  }

  /** Go's `a <= b` on strings: lexicographic order by character code. */
  predicate LessEq(a: string, b: string)
    decreases |a|
  {
    a == [] || (b != [] && (a[0] < b[0] || (a[0] == b[0] && LessEq(a[1..], b[1..]))))
  }

  // ---------------------------------------------------------------------
  // Properties of the string operations

  /** Splitting and re-joining with the same separator gives back the text. */
  lemma {:induction false} JoinSplit(s: string, sep: string)
    requires sep != []
    ensures Join(Split(s, sep), sep) == s
    decreases |s|
  {
    match IndexOf(s, sep)
    case None =>
    case Some(i) =>
      var rest := s[i + |sep|..];
      var tail := Split(rest, sep);
      JoinSplit(rest, sep);
      assert Split(s, sep) == [s[..i]] + tail;
      assert ([s[..i]] + tail)[1..] == tail;
      assert s == s[..i] + sep + rest by { assert OccursAt(s, sep, i); }
  }

  /** The white space around a trimmed text is exactly what TrimSpace removes. */
  lemma {:induction false} TrimSpacePadded(w1: string, t: string, w2: string)
    requires AllSpace(w1) && AllSpace(w2) && Trimmed(t)
    ensures TrimSpace(w1 + t + w2) == t
  {
    var s := w1 + t + w2;
    LeadingSpaceOfPadded(w1, t + w2);
    assert s == w1 + (t + w2);
    if t == [] {
      assert s[|w1|..] == w2;
      LeadingSpaceAll(w2);
    } else {
      assert (t + w2)[0] == t[0];
      LeadingSpaceStops(t + w2);
      TrailingSpaceOfPadded(w1 + t, w2);
      assert s == (w1 + t) + w2;
      assert (w1 + t)[|w1 + t| - 1] == t[|t| - 1];
      TrailingSpaceStops(w1 + t);
      assert s[|w1|..|s| - |w2|] == t;
    }
  }

  /** TrimSpace leaves a trimmed text as it is. */
  lemma TrimSpaceOfTrimmed(s: string)
    requires Trimmed(s)
    ensures TrimSpace(s) == s
  {
    TrimSpacePadded([], s, []);
    assert [] + s + [] == s;
  }

  lemma {:induction false} LeadingSpaceAll(s: string)
    requires AllSpace(s)
    ensures LeadingSpace(s) == |s|
    decreases |s|
  {
    if s != [] { LeadingSpaceAll(s[1..]); }
  }

  lemma LeadingSpaceStops(s: string)
    requires s != [] && !IsSpace(s[0])
    ensures LeadingSpace(s) == 0
  {
  }

  lemma TrailingSpaceStops(s: string)
    requires s != [] && !IsSpace(s[|s| - 1])
    ensures TrailingSpace(s) == 0
  {
  }

  lemma {:induction false} LeadingSpaceOfPadded(w: string, s: string)
    requires AllSpace(w)
    ensures LeadingSpace(w + s) == |w| + LeadingSpace(s)
    decreases |w|
  {
    if w != [] {
      assert (w + s)[1..] == w[1..] + s;
      LeadingSpaceOfPadded(w[1..], s);
    } else {
      assert w + s == s;
    }
  }

  lemma {:induction false} TrailingSpaceOfPadded(s: string, w: string)
    requires AllSpace(w)
    ensures TrailingSpace(s + w) == |w| + TrailingSpace(s)
    decreases |w|
  {
    if w != [] {
      assert (s + w)[..|s + w| - 1] == s + w[..|w| - 1];
      TrailingSpaceOfPadded(s, w[..|w| - 1]);
    } else {
      assert s + w == s;
    }
  }

  /** A word followed by white space (or nothing) is exactly one field. */
  lemma WordLengthOfWord(word: string, s: string)
    requires NoSpace(word) && (s == [] || IsSpace(s[0]))
    ensures WordLength(word + s) == |word|
    decreases |word|
  {
    if word != [] {
      assert (word + s)[1..] == word[1..] + s;
      WordLengthOfWord(word[1..], s);
    } else {
      assert word + s == s;
    }
  }

  /** Leading white space does not change the fields. */
  lemma {:induction false} FieldsOfPadded(w: string, s: string)
    requires AllSpace(w)
    ensures Fields(w + s) == Fields(s)
    decreases |w|
  {
    if w != [] {
      assert (w + s)[0] == w[0];
      assert (w + s)[1..] == w[1..] + s;
      FieldsOfPadded(w[1..], s);
    } else {
      assert w + s == s;
    }
  }

  /** Fields distributes over a concatenation cut at white space. */
  lemma {:induction false} FieldsAppend(a: string, b: string)
    requires a == [] || b == [] || IsSpace(a[|a| - 1]) || IsSpace(b[0])
    ensures Fields(a + b) == Fields(a) + Fields(b)
    decreases |a|
  {
    if a == [] {
      assert a + b == b;
    } else if IsSpace(a[0]) {
      assert (a + b)[0] == a[0];
      assert (a + b)[1..] == a[1..] + b;
      FieldsAppend(a[1..], b);
    } else {
      var n := WordLength(a);
      var w, r := a[..n], a[n..];
      assert a == w + r;
      assert a + b == w + (r + b);
      FieldsOfWordThen(w, r);
      if r == [] {
        assert a[|a| - 1] == w[n - 1];
        assert r + b == b;
      } else {
        assert (r + b)[0] == r[0];
        FieldsAppend(r, b);
      }
      FieldsOfWordThen(w, r + b);
    }
  }

  /** A word followed by white space (or nothing) is the first field. */
  lemma FieldsOfWordThen(w: string, r: string)
    requires w != [] && NoSpace(w) && (r == [] || IsSpace(r[0]))
    ensures Fields(w + r) == [w] + Fields(r)
  {
    WordLengthOfWord(w, r);
    assert (w + r)[0] == w[0];
    assert (w + r)[..|w|] == w;
    assert (w + r)[|w|..] == r;
  }

  /** Every field is a word. */
  lemma {:induction false} FieldsAreWords(s: string)
    ensures forall i :: 0 <= i < |Fields(s)| ==> Word(Fields(s)[i])
    decreases |s|
  {
    if s == [] {
    } else if IsSpace(s[0]) {
      FieldsAreWords(s[1..]);
    } else {
      var n := WordLength(s);
      FieldsAreWords(s[n..]);
      assert Fields(s) == [s[..n]] + Fields(s[n..]);
    }
  }

  /** A single non-empty word is its own only field. */
  lemma FieldsOfWord(word: string)
    requires word != [] && NoSpace(word)
    ensures Fields(word) == [word]
  {
    WordLengthOfWord(word, "");
    assert word + "" == word;
    assert word[|word|..] == [];
  }

  /** Fields undoes joining words with single spaces. */
  lemma {:induction false} FieldsOfJoin(words: seq<string>)
    requires forall i :: 0 <= i < |words| ==> words[i] != [] && NoSpace(words[i])
    ensures Fields(Join(words, " ")) == words
    decreases |words|
  {
    if |words| == 0 {
    } else if |words| == 1 {
      FieldsOfWord(words[0]);
    } else {
      var rest := Join(words[1..], " ");
      FieldsOfJoin(words[1..]);
      FieldsOfWord(words[0]);
      assert Join(words, " ") == words[0] + (" " + rest);
      FieldsAppend(words[0], " " + rest);
      FieldsOfPadded(" ", rest);
      assert words == [words[0]] + words[1..];
    }
  }

  /** `path version<comment>` splits into the two words and the comment's fields. */
  lemma FieldsOfWordsLine(path: string, version: string, comment: string)
    requires Word(path) && Word(version) && (comment == [] || IsSpace(comment[0]))
    ensures Fields(path + (" " + (version + comment))) == [path, version] + Fields(comment)
  {
    var rest := version + comment;
    assert Fields(path + (" " + rest)) == [path] + Fields(" " + rest) by {
      assert (" " + rest)[0] == ' ';
      FieldsOfWordThen(path, " " + rest);
    }
    assert Fields(" " + rest) == Fields(rest) by {
      assert AllSpace(" ");
      FieldsOfPadded(" ", rest);
    }
    assert Fields(rest) == [version] + Fields(comment) by {
      FieldsOfWordThen(version, comment);
    }
    assert [path] + ([version] + Fields(comment)) == [path, version] + Fields(comment);
  }

  /** White space alone has no fields. */
  lemma FieldsOfAllSpace(w: string)
    requires AllSpace(w)
    ensures Fields(w) == []
  {
    FieldsOfPadded(w, "");
    assert w + "" == w;
  }

  /** White space around a text does not change its fields. */
  lemma FieldsOfSurrounded(w1: string, m: string, w2: string)
    requires AllSpace(w1) && AllSpace(w2)
    ensures Fields(w1 + (m + w2)) == Fields(m)
  {
    FieldsOfPadded(w1, m + w2);
    FieldsAppend(m, w2);
    FieldsOfAllSpace(w2);
    assert Fields(m) + [] == Fields(m);
  }

  /** Trimming does not change the fields. */
  lemma FieldsOfTrimSpace(s: string)
    ensures Fields(TrimSpace(s)) == Fields(s)
  {
    var a := LeadingSpace(s);
    if a == |s| {
      assert s[..a] == s;
      FieldsOfAllSpace(s);
    } else {
      var b := TrailingSpace(s);
      var m := s[a..|s| - b];
      assert TrimSpace(s) == m;
      assert s == s[..a] + (m + s[|s| - b..]);
      FieldsOfSurrounded(s[..a], m, s[|s| - b..]);
    }
  }

  /** A separator of one character, or of two different ones, cannot start
      inside the text before it: the case of `,` and `=>`. */
  predicate SimpleSeparator(sep: string) {
    |sep| == 1 || (|sep| == 2 && sep[0] != sep[1])
  }

  /** The first occurrence of `sep` in `a + sep + rest` ends `a`. */
  lemma IndexAfter(a: string, sep: string, rest: string)
    requires SimpleSeparator(sep) && !Contains(a, sep)
    ensures IndexOf(a + (sep + rest), sep) == Some(|a|)
  {
    var s := a + (sep + rest);
    assert s[|a|..|a| + |sep|] == sep;
    assert OccursAt(s, sep, |a|);
    forall j | 0 <= j < |a| ensures !OccursAt(s, sep, j) {
      if j + |sep| <= |a| {
        assert s[j..j + |sep|] == a[j..j + |sep|];
        assert !OccursAt(a, sep, j);
      } else {
        assert |sep| == 2 && j == |a| - 1;
        assert s[j..j + 2][1] == s[|a|] == sep[0];
      }
    }
    match IndexOf(s, sep)
    case None =>
    case Some(k) =>
      assert !(k < |a|);
      assert !(k > |a|);
  }

  /** Splitting at the first separator. */
  lemma SplitAfter(a: string, sep: string, rest: string)
    requires SimpleSeparator(sep) && !Contains(a, sep)
    ensures Split(a + (sep + rest), sep) == [a] + Split(rest, sep)
  {
    var s := a + (sep + rest);
    IndexAfter(a, sep, rest);
    assert s[..|a|] == a;
    assert s[|a| + |sep|..] == rest;
  }

  /** A text without the separator is one piece. */
  lemma SplitWithout(s: string, sep: string)
    requires sep != [] && !Contains(s, sep)
    ensures Split(s, sep) == [s]
  {
  }

  /** An occurrence of a separator without white space cannot cross white space. */
  lemma NotContainsAround(a: string, w: string, b: string, sep: string)
    requires !Contains(a, sep) && !Contains(b, sep) && NoSpace(sep)
    requires w != [] && AllSpace(w)
    ensures !Contains(a + (w + b), sep)
  {
    var s := a + (w + b);
    forall j | 0 <= j ensures !OccursAt(s, sep, j) {
      if j + |sep| > |s| {
      } else if j + |sep| <= |a| {
        assert s[j..j + |sep|] == a[j..j + |sep|];
        assert !OccursAt(a, sep, j);
      } else if j >= |a| + |w| {
        assert s[|a| + |w|..] == b;
        assert s[j..j + |sep|] == s[|a| + |w|..][j - |a| - |w|..j - |a| - |w| + |sep|];
        assert !OccursAt(b, sep, j - |a| - |w|);
      } else if sep != [] {
        var k := if j < |a| then |a| else j;
        assert s[k] == w[k - |a|];
        assert s[j..j + |sep|][k - j] == s[k];
        assert !IsSpace(sep[k - j]);
      } else {
        assert false;
      }
    }
  }

  /** White space contains no separator without white space. */
  lemma AllSpaceNotContains(w: string, sep: string)
    requires AllSpace(w) && sep != [] && NoSpace(sep)
    ensures !Contains(w, sep)
  {
    forall j | 0 <= j && j + |sep| <= |w| ensures !OccursAt(w, sep, j) {
      assert w[j..j + |sep|][0] == w[j];
    }
  }

  /** White space on either side adds no occurrence of such a separator. */
  lemma NotContainsPadded(a: string, w: string, sep: string)
    requires !Contains(a, sep) && sep != [] && NoSpace(sep)
    requires w != [] && AllSpace(w)
    ensures !Contains(a + w, sep) && !Contains(w + a, sep)
  {
    AllSpaceNotContains("", sep);
    NotContainsAround(a, w, "", sep);
    NotContainsAround("", w, a, sep);
    assert a + (w + "") == a + w;
    assert "" + (w + a) == w + a;
  }

  /** Words joined by spaces contain a white-space-free separator only where a word does. */
  lemma {:induction false} JoinNotContains(words: seq<string>, sep: string)
    requires forall i :: 0 <= i < |words| ==> !Contains(words[i], sep)
    requires sep != [] && NoSpace(sep)
    ensures !Contains(Join(words, " "), sep)
    decreases |words|
  {
    if |words| >= 2 {
      JoinNotContains(words[1..], sep);
      assert AllSpace(" ");
      NotContainsAround(words[0], " ", Join(words[1..], " "), sep);
      assert Join(words, " ") == words[0] + (" " + Join(words[1..], " "));
    }
  }

  /** A pattern in a prefix of a text is in the text. */
  lemma ContainsOfPrefix(s: string, pat: string, n: nat)
    requires n <= |s|
    ensures Contains(s[..n], pat) ==> Contains(s, pat)
  {
    forall j | OccursAt(s[..n], pat, j) ensures OccursAt(s, pat, j) {
      assert s[..n][j..j + |pat|] == s[j..j + |pat|];
    }
  }

  /** A one-character pattern occurs only where its character does. */
  lemma NotContainsChar(s: string, pat: string)
    requires |pat| == 1 && pat[0] !in s
    ensures !Contains(s, pat)
  {
    forall j | 0 <= j && j + 1 <= |s| ensures !OccursAt(s, pat, j) {
      assert s[j..j + 1][0] == s[j];
    }
  }

  /** Joining with spaces adds no character but the space. */
  lemma {:induction false} JoinAvoids(words: seq<string>, c: char)
    requires c != ' ' && forall i :: 0 <= i < |words| ==> c !in words[i]
    ensures c !in Join(words, " ")
    decreases |words|
  {
    if |words| >= 2 {
      JoinAvoids(words[1..], c);
    }
  }

  /** Words joined by single spaces make a trimmed, single-line text that
      is empty only when there are no words. */
  lemma {:induction false} JoinOfWords(words: seq<string>)
    requires forall i :: 0 <= i < |words| ==> Word(words[i])
    ensures Trimmed(Join(words, " ")) && '\n' !in Join(words, " ")
    ensures Join(words, " ") == [] <==> words == []
    decreases |words|
  {
    if |words| == 1 {
      assert words[0][0] == words[0][0];
      assert '\n' !in words[0] by {
        forall k | 0 <= k < |words[0]| ensures words[0][k] != '\n' {
          assert !IsSpace(words[0][k]);
        }
      }
    } else if |words| >= 2 {
      var rest := Join(words[1..], " ");
      JoinOfWords(words[1..]);
      var s := Join(words, " ");
      assert s == words[0] + " " + rest;
      assert s[0] == words[0][0];
      assert s[|s| - 1] == rest[|rest| - 1];
      assert '\n' !in words[0] by {
        forall k | 0 <= k < |words[0]| ensures words[0][k] != '\n' {
          assert !IsSpace(words[0][k]);
        }
      }
    }
  }

  /** LessEq is a total order: reflexive, ... */
  lemma {:induction false} LessEqReflexive(a: string)
    ensures LessEq(a, a)
    decreases |a|
  {
    if a != [] { LessEqReflexive(a[1..]); }
  }

  /** ... antisymmetric, ... */
  lemma {:induction false} LessEqAntisymmetric(a: string, b: string)
    requires LessEq(a, b) && LessEq(b, a)
    ensures a == b
    decreases |a|
  {
    if a != [] && b != [] {
      LessEqAntisymmetric(a[1..], b[1..]);
      assert a == [a[0]] + a[1..] && b == [b[0]] + b[1..];
    }
  }

  /** ... transitive ... */
  lemma {:induction false} LessEqTransitive(a: string, b: string, c: string)
    requires LessEq(a, b) && LessEq(b, c)
    ensures LessEq(a, c)
    decreases |a|
  {
    if a != [] && b != [] && c != [] && a[0] == b[0] && b[0] == c[0] {
      LessEqTransitive(a[1..], b[1..], c[1..]);
    }
  }

  /** ... and total. */
  lemma {:induction false} LessEqTotal(a: string, b: string)
    ensures LessEq(a, b) || LessEq(b, a)
    decreases |a|
  {
    if a != [] && b != [] && a[0] == b[0] { LessEqTotal(a[1..], b[1..]); }
  }

  /** LessEq is decided by the first character where the two differ. */
  lemma {:induction false} LessEqAtDifference(a: string, b: string, k: nat)
    requires k < |a| && k < |b| && a[..k] == b[..k] && a[k] != b[k]
    ensures LessEq(a, b) <==> a[k] < b[k]
    decreases k
  {
    if k > 0 {
      assert a[0] == a[..k][0] && b[0] == b[..k][0];
      assert a[1..][..k - 1] == a[..k][1..] && b[1..][..k - 1] == b[..k][1..];
      LessEqAtDifference(a[1..], b[1..], k - 1);
    }
  }
}
