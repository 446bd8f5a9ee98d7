# A verified model of the go-mod-parser core

This project is a Dafny model of the parser of go-mod-parser, a Go library
that reads a `go.mod` file line by line. It fills a `Module` with:

- the module name and the Go version;
- its `require`, `replace`, `exclude` and `retract` directives;

and answers lookups on the result.

Modules of the model, following the program's files:

| Dafny module | file | what it holds |
|---|---|---|
| `GoMod` | `gomod.dfy` | The entities `Require`, `ReplaceItem`, `Replace`, `Exclude` and `Retract` as datatypes. The parsed `Module` is a class whose lists the handlers append to in place. `Module.Data()` is its contents as a `ModuleData` value. |
| `ParseErrors` | `errors.dfy` | The error values of the parser. A `Halt` is an error value returned or Go's index-out-of-range panic. A `LineOutcome` says what a block-line handler does with one line. A `LineFailure` is a 1-based line number and its `Halt`. |
| `Text` | `text.dfy` | The parts of Go's `strings` package the parser uses: `TrimSpace`, `Fields`, `Split`, `Join`, `Index`, `Contains`, `HasPrefix`/`HasSuffix`, and the byte-wise `<=` on strings (`LessEq`). Each comes with its lemmas. |
| `Grammar` | `grammar.dfy` | The regular expressions of `regexp.go` as small patterns of literals, blank runs, maximal tokens and a rest-of-line piece. `Match` is one matcher for all of them. It is proved sound and complete against a declarative description of what a line that fits the pattern looks like. The two unanchored comment patterns have matchers of their own. |
| `BasicParser`, `RequireHandler`, `ReplaceHandler`, `ExcludeHandler`, `RetractHandler` | `basic.dfy` … `retract.dfy` | One module per handler file. Each way a handler reads a line is a pure function. The Go function itself is a method that appends to the `Module` and is proved to append what that function says. |
| `Driver` | `driver.dfy` | `ParseFromReader`'s loop. `Step` is one turn. `Run`, `RunScan` and `ParseLines` are the loop over the scanned lines. `ScanLines` is `bufio.ScanLines`. `ParseFromLines` is the loop as a method on a `Module`, proved to end as `ParseLines` does. The lemmas say how the loop behaves. |
| `Lookup` | `lookup.dfy` | `helper_functions.go`: `GetRequire`, `HasRequire`, `GetReplace`, `HasReplace`, `HasExclude`, `HasRetract`, as functions on `ModuleData`. |
| `Api` | `api.dfy` | `pkg/api.go`: the same lookups written as loops over the `Module`. Each loop is proved to compute the `Lookup` function of the same name. |
| `RoundTrip` | `roundtrip.dfy` | Declarations and blocks written out as lines, and read back through `Step` and `ParseLines`. The four kinds of block share one generic proof over the kind, the text of an entry and the list it is appended to. |
| `RetractRationales` | `rationales.dfy` | The example program `examples/05_retract_versions`: `isVersionInRange`, `uniqueStrings` and `getRetractRationales`. |

The model follows the code where it behaves unexpectedly:

- **The `// indirect` comment line is read as content.** A trimmed line is
  passed over only when it is empty, or when it is a `//` comment that does
  not contain `indirect`. So a `// indirect` line is handed to a handler.
  - At top level it is an unrecognized line.
  - In a `require` block it becomes a requirement with path `//` and
    version `indirect`.
  - See `Driver.IndirectCommentAtTopLevel` and
    `Driver.IndirectCommentInRequireBlock`.
  - The comment at `pkg/parser/api_wrapper.go:31` speaks of skipping
    comments, but the test on the next line skips only the comments
    without `indirect`. The model follows the test.
- **Any line ending in `(` opens a block.** It does so inside a block too.
  The block type is whatever precedes the `(`, and an unknown type fails
  on the block's first content line. The test at
  `pkg/parser/api_wrapper.go:43` looks only at the final `(`
  (`Driver.OpensBlock`, `Driver.UnknownBlockFails`).
- **`)` outside a block is an unrecognized line**, and a block still open
  at the end of the text is accepted (`RoundTrip.RequireBlockRoundTrip`).
- **A `replace` block line with nothing before `=>` panics.** The Go code
  indexes the first field of the old side without checking that there is
  one. This is the `IndexPanic` halt (`ReplaceHandler.BlockLineWithoutOldPathPanics`).
- **A bracketed comment breaks a `retract` block line.** The handler
  checks for `[` and `]` on the whole line, so a single-version line whose
  comment holds both is read as a range: the text between the comment's
  brackets.
  - Without a comma there, the line fails as a malformed range. The same
    declaration on a single line is accepted
    (`RetractHandler.BracketedCommentBreaksBlockVersion`).
  - With exactly one comma, the line appends the range taken from the
    comment, and the declared version is lost
    (`RetractHandler.BracketedCommentReplacesBlockVersion`).
- **Ranges compare versions as strings, byte by byte, not as semantic
  versions** (`Lookup.CoversExamples`, `RetractRationales.NotSemanticVersioning`).

## Model

| member | source | states |
|---|---|---|
| GoMod.Module.constructor | pkg/parser/api_wrapper.go:15-20 | A new Module holds the empty name, Go version and lists. |
| Text.TrimSpace | pkg/parser/api_wrapper.go:29 | The result is trimmed and no longer than the input. |
| Text.TrimSpaceOfTrimmed | pkg/parser/api_wrapper.go:29 | A trimmed text is its own TrimSpace. |
| Text.TrimSpacePadded | pkg/parser/api_wrapper.go:29 | White space around a trimmed text is removed, and the text is kept. |
| Text.FieldsAreWords | pkg/parser/require_handler.go:30 | Every field is a non-empty run without white space. |
| Text.FieldsOfJoin | pkg/parser/require_handler.go:30 | The fields of words joined by blanks are those words. |
| Text.FieldsOfTrimSpace | pkg/parser/replace_handler.go:33-34 | Trimming a text does not change its fields. |
| Text.FieldsAppend | pkg/parser/require_handler.go:30 | The fields of two texts split at white space are the fields of each, in order. |
| Text.Split | pkg/parser/replace_handler.go:28 | There is at least one part, and no part contains the separator. |
| Text.JoinSplit | pkg/parser/replace_handler.go:28 | Joining the parts with the separator gives back the text. |
| Text.IndexOf | pkg/parser/retract_handler.go:57-58 | None exactly when the pattern occurs nowhere. Otherwise the pattern occurs at the index and at no earlier one. |
| Text.LessEqReflexive | pkg/parser/helper_functions.go:57 | Every string is `<=` itself. |
| Text.LessEqAntisymmetric | pkg/parser/helper_functions.go:57 | Two strings each `<=` the other are equal. |
| Text.LessEqTransitive | pkg/parser/helper_functions.go:57 | The string order is transitive. |
| Text.LessEqTotal | pkg/parser/helper_functions.go:57 | Any two strings are ordered one way or the other. |
| Text.LessEqAtDifference | pkg/parser/helper_functions.go:57 | Strings that agree up to a position and differ there are ordered by the characters at that position. |
| Grammar.Match | pkg/parser/regexp.go:6-24 | An accepted line yields one capture per token and rest piece of the pattern. The seven anchored patterns are the constants `ModulePattern` … `RetractRangePattern`, one per expression. |
| Grammar.HasIndirectMarker | pkg/parser/regexp.go:27 | A text with the marker is at least as long as `//indirect`. |
| Grammar.MatchSound | pkg/parser/regexp.go:6-24 | When the matcher accepts a line, the line splits into consecutive parts that fit the pattern's pieces, with maximal tokens, and the captures are the token and rest parts. |
| Grammar.MatchComplete | pkg/parser/regexp.go:6-24 | For a pattern whose blank runs are fixed, every split of a line that fits the pattern is the one the matcher finds, with the same captures. |
| Grammar.KeywordTokenComplete | pkg/parser/regexp.go:6-9 | `module`/`go`, blanks and one non-blank token match, capturing the token. |
| Grammar.RequireLineMatches | pkg/parser/regexp.go:12 | `require`, a path, a version and a tail that starts with a blank (or is empty) match, capturing path, version and tail. |
| Grammar.ReplaceLineMatches | pkg/parser/regexp.go:15 | `replace old => new version` matches, capturing the old path, the new path and the new version. |
| Grammar.ReplaceLineWithOldVersionFails | pkg/parser/regexp.go:15 | The single-line replace pattern has no place for an old version: a token after the old path that is not `=>` makes the line fail to match. |
| Grammar.ExcludeLineMatches | pkg/parser/regexp.go:18 | `exclude path version` matches, capturing both tokens. |
| Grammar.RetractVersionLineMatches | pkg/parser/regexp.go:21 | `retract`, a version without brackets and any tail match, capturing version and tail. |
| Grammar.RetractVersionRejectsBracket | pkg/parser/regexp.go:21 | The single-version retract pattern does not match a line whose version starts with `[`. |
| Grammar.RetractRangeLineMatches | pkg/parser/regexp.go:24 | `retract [low, high] tail`, with optional blanks inside the brackets, matches, capturing low, high and tail. |
| Grammar.GoVersionAccepted | pkg/parser/basic_parser_test.go:69 | `go 1.21.0` matches with version `1.21.0`. |
| Grammar.GoVersionWithoutBlankRejected | pkg/parser/basic_parser_test.go:75 | `go1.21` does not match. |
| Grammar.GoVersionWithExtraTokenRejected | pkg/parser/basic_parser_test.go:81 | `go 1.21 extra` does not match. |
| Grammar.IndirectMarkerIff | pkg/parser/regexp.go:27 | The marker matcher holds exactly when `//`, a run of blanks and `indirect` occur at some position of the text. |
| Grammar.IndirectMarkerHasWord | pkg/parser/regexp.go:27 | A text with the marker contains every letter of `indirect`, so a text lacking one has no marker. |
| Grammar.Rationale | pkg/parser/regexp.go:30 | The rationale capture, trimmed, is a trimmed text, and it is empty when the text has no `//`. |
| Grammar.RationaleOfComment | pkg/parser/regexp.go:30 | For `pre // text` with no `//` in `pre`, the trimmed rationale is the trimmed text up to the line end. |
| BasicParser.ParseModuleName | pkg/parser/basic_parser.go:10-16 | Handled exactly when the module pattern matches. The name becomes the captured token, and it is unchanged otherwise. Nothing else changes. |
| BasicParser.ParseGoVersion | pkg/parser/basic_parser.go:19-25 | Handled exactly when the go pattern matches. The Go version becomes the captured token, and it is unchanged otherwise. |
| BasicParser.IsIndirect | pkg/parser/basic_parser.go:28-30 | True exactly when the indirect marker occurs somewhere in the line. |
| BasicParser.BlockStartsWithPadded | pkg/parser/basic_parser.go:33-35 | Around a trimmed text, white space does not matter: the line starts a block of the keyword exactly when the text starts with the keyword and ends with `(`. |
| BasicParser.IsBlockEndPadded | pkg/parser/basic_parser.go:38-40 | A trimmed text with white space around it ends a block exactly when it is `)`. |
| BasicParser.BlockStartsWith | pkg/parser/basic_parser.go:33-35 | A line that starts a block is not blank once trimmed, and it does not end a block. |
| BasicParser.IsBlockEnd | pkg/parser/basic_parser.go:38-40 | A line that ends a block has `)` as its only field. |
| BasicParser.IndirectExamples | pkg/parser/basic_parser_test.go:112-117 | The test lines ending in `// indirect` and `// indirect comment` are indirect. |
| BasicParser.BlockStartExample | pkg/parser/basic_parser_test.go:155 | `  require  (` starts a require block. |
| BasicParser.EmptyLineStartsNoBlock | pkg/parser/basic_parser_test.go:173 | The empty line starts no block, whatever the keyword. |
| BasicParser.BlockEndExample | pkg/parser/basic_parser_test.go:200 | `  )  ` ends a block. |
| BasicParser.CommentedCloseIsNoBlockEnd | pkg/parser/basic_parser_test.go:205 | `) // comment` does not end a block. |
| RequireHandler.SingleLine | pkg/parser/require_handler.go:10-26 | Only a line starting with `require` reads as a Require. |
| RequireHandler.IndirectFrom | pkg/parser/require_handler.go:37-42 | The flag is set only when some field from the start index on contains `//`. |
| RequireHandler.ParseRequireSingleLine | pkg/parser/require_handler.go:10-26 | Handled exactly when the single-line form reads a Require. Exactly that Require is appended to the requirements, and nothing is appended otherwise. |
| RequireHandler.BlockLine | pkg/parser/require_handler.go:29-51 | A block line is never skipped. Its only error is InvalidRequire, and an appended entry has a one-word path and version. |
| RequireHandler.ParseRequireBlockLine | pkg/parser/require_handler.go:29-51 | The error returned and the requirements appended are exactly the block line's outcome. |
| RequireHandler.SingleLineReadsDeclaration | pkg/parser/require_handler.go:10-26 | `require path version`, with ` // indirect` when indirect, reads back as the same Require. |
| RequireHandler.BlockLineReadsEntry | pkg/parser/require_handler.go:29-51 | A written-out block entry reads back as the same Require, `indirect` included. |
| RequireHandler.CommentLineInBlock | pkg/parser/require_handler.go:30-48 | Inside a block, `// word` is a Require with path `//` and version `word`, not indirect. |
| RequireHandler.BlockLineNeedsVersion | pkg/parser/require_handler.go:30-33 | A block line of one word or none fails with InvalidRequire. |
| RequireHandler.OtherCommentIsNotIndirect | pkg/parser/require_handler.go:13-16 | A declaration followed by any tail without the marker reads as a direct requirement: only the marker sets `indirect`. |
| RequireHandler.SomeCommentHasNoMarker | pkg/parser/require_handler_test.go:40 | The comment `// some comment` of the tests has no marker. |
| ReplaceHandler.SingleLine | pkg/parser/replace_handler.go:10-24 | Only a line starting with `replace` reads as a Replace, and its old version is empty. |
| ReplaceHandler.ParseReplaceSingleLine | pkg/parser/replace_handler.go:10-24 | Handled exactly when the single-line form reads a Replace, which is appended. Nothing is appended otherwise. |
| ReplaceHandler.BlockLine | pkg/parser/replace_handler.go:27-63 | A block line is never skipped. It stops with InvalidReplace or the panic. An appended entry comes from a line that contains `=>`, and both of its sides are well formed. |
| ReplaceHandler.ParseReplaceBlockLine | pkg/parser/replace_handler.go:27-63 | The error returned and the replacements appended are exactly the block line's outcome. |
| ReplaceHandler.SingleLineReadsDeclaration | pkg/parser/replace_handler.go:10-24 | `replace old => new version` reads back as the same Replace, its old version empty. |
| ReplaceHandler.SingleLineRejectsOldVersion | pkg/parser/replace_handler.go:11 | A single line that gives the old module a version is not recognized. |
| ReplaceHandler.BlockLineOfSides | pkg/parser/replace_handler.go:28-44 | A line with one `=>` is read from the fields of its two sides. |
| ReplaceHandler.BlockLineReadsWords | pkg/parser/replace_handler.go:33-62 | A line of words around one `=>` appends the first one or two words of each side. Any further words are dropped. |
| ReplaceHandler.BlockLineReadsEntry | pkg/parser/replace_handler.go:27-63 | A written-out block entry reads back as the same Replace, with or without either version. |
| ReplaceHandler.BlockLineNeedsOneArrow | pkg/parser/replace_handler.go:28-31 | A line with no `=>`, or with two, fails with InvalidReplace. |
| ReplaceHandler.BlockLineWithoutOldPathPanics | pkg/parser/replace_handler.go:33-36 | A line with nothing but white space before `=>` stops with the index-out-of-range panic. |
| ReplaceHandler.BlockLineWithoutNewPathFails | pkg/parser/replace_handler.go:42-44 | A line with nothing after `=>` fails with InvalidReplace. |
| ExcludeHandler.SingleLine | pkg/parser/exclude_handler.go:10-19 | Only a line starting with `exclude` reads as an Exclude. |
| ExcludeHandler.ParseExcludeSingleLine | pkg/parser/exclude_handler.go:10-19 | Handled exactly when the single-line form reads an Exclude, which is appended. Nothing is appended otherwise. |
| ExcludeHandler.BlockLine | pkg/parser/exclude_handler.go:22-32 | A block line fails, with InvalidExclude, exactly when it has fewer than two fields. It is never skipped, and an entry has a one-word path and version. |
| ExcludeHandler.ParseExcludeBlockLine | pkg/parser/exclude_handler.go:22-32 | The error returned and the exclusions appended are exactly the block line's outcome. |
| ExcludeHandler.SingleLineReadsDeclaration | pkg/parser/exclude_handler.go:10-19 | `exclude path version` reads back as the same Exclude. |
| ExcludeHandler.SingleLineNeedsVersion | pkg/parser/exclude_handler.go:11 | `exclude path` without a version is not recognized. |
| ExcludeHandler.BlockLineReadsWords | pkg/parser/exclude_handler.go:23-30 | A line of two or more words appends its first two words, whatever follows. |
| ExcludeHandler.BlockLineReadsEntry | pkg/parser/exclude_handler.go:22-32 | A written-out block entry reads back as the same Exclude. |
| ExcludeHandler.BlockLineNeedsVersion | pkg/parser/exclude_handler.go:23-26 | A line of one word or only white space fails with InvalidExclude. |
| RetractHandler.SingleLine | pkg/parser/retract_handler.go:10-43 | A retraction read from a single line has a trimmed rationale, and a single-version retraction has no bounds. |
| RetractHandler.ParseRetractSingleLine | pkg/parser/retract_handler.go:10-43 | Handled exactly when the single-version form, or failing that the range form, reads a Retract, which is appended. Nothing is appended otherwise. |
| RetractHandler.SingleLineReadsDeclaration | pkg/parser/retract_handler.go:10-43 | A written-out single-line retraction, single version or range, with or without a rationale, reads back as the same Retract. |
| RetractHandler.SingleLineRetractsSomething | pkg/parser/retract_handler.go:12-40 | A retraction read from a single line names a version or a lower bound. |
| RetractHandler.RationaleFrom | pkg/parser/retract_handler.go:102-111 | The rationale gathered from the fields is trimmed, and it is empty when no field from the start index on begins with `//`. |
| RetractHandler.RangeLine | pkg/parser/retract_handler.go:55-84 | A line with both brackets stops only with InvalidRetract. An entry is a range: empty version, trimmed bounds, trimmed rationale. |
| RetractHandler.RangeBetween | pkg/parser/retract_handler.go:59-84 | The same for the text between the first `[` and the first `]` after it. |
| RetractHandler.VersionLine | pkg/parser/retract_handler.go:86-115 | A line without both brackets stops only with InvalidRetract. An entry has the first field as its version, starting with `v` or `V`, and has no bounds. |
| RetractHandler.BlockLine | pkg/parser/retract_handler.go:46-116 | A line is skipped exactly when it is blank or a `//` comment once trimmed. Its only error is InvalidRetract. An entry is a single version without bounds or a range with an empty version, and its rationale is trimmed. |
| RetractHandler.ParseRetractBlockLine | pkg/parser/retract_handler.go:46-116 | The error returned and the retractions appended are exactly the block line's outcome. |
| RetractHandler.ParseRetractRange | pkg/parser/retract_handler.go:55-84 | The range branch as a method: its error and appended retraction are RangeLine's outcome. |
| RetractHandler.ParseRetractBetween | pkg/parser/retract_handler.go:59-81 | The branch after locating the brackets: its error and appended retraction are RangeBetween's outcome. |
| RetractHandler.ParseRetractVersion | pkg/parser/retract_handler.go:86-115 | The single-version branch, with its loop over the fields for a comment: its error and appended retraction are VersionLine's outcome. |
| RetractHandler.CommentRationale | pkg/parser/retract_handler.go:18-19 | The rationale of a written-out ` // text` comment is the text. |
| RetractHandler.BlockLineReadsVersionEntry | pkg/parser/retract_handler.go:86-115 | A written-out single-version block entry, with a rationale of words, reads back as the same Retract. |
| RetractHandler.BlockLineReadsRangeEntry | pkg/parser/retract_handler.go:55-84 | A written-out `[low, high]` block entry, with or without a rationale, reads back as the same Retract. |
| RetractHandler.BlockLineNeedsVersionPrefix | pkg/parser/retract_handler.go:92-95 | A block line whose first word does not start with `v` or `V` fails with InvalidRetract. |
| RetractHandler.BlockLineRangeNeedsComma | pkg/parser/retract_handler.go:60-62 | `[v]` without a comma fails with InvalidRetract. |
| RetractHandler.BracketedCommentBreaksBlockVersion | pkg/parser/retract_handler.go:55 | In a block, a version whose comment holds `[…]` without a comma fails with InvalidRetract. The same single-line declaration is accepted with that rationale. |
| RetractHandler.BracketedCommentReplacesBlockVersion | pkg/parser/retract_handler.go:55-70 | In a block, a version whose comment holds `[low,high]` appends the range of the trimmed low and high, with no version and no rationale. |
| Driver.SingleLine | pkg/parser/api_wrapper.go:80-124 | A top-level line either fails as unrecognized, naming the line, or only appends to the module's lists and sets its name or version. |
| Driver.BlockLine | pkg/parser/api_wrapper.go:127-140 | A block line stops only with a halt that its block's kind allows, unknown kinds included, or it only appends to the module. |
| Driver.HandleSingleLine | pkg/parser/api_wrapper.go:80-124 | The module afterwards and the error returned are those SingleLine gives. On an error the module is unchanged. |
| Driver.HandleBlockLine | pkg/parser/api_wrapper.go:127-140 | The module afterwards and the error returned are those BlockLine gives. On an error the module is unchanged. |
| Driver.Step | pkg/parser/api_wrapper.go:28-59 | One line moves the line number on by one and only appends, or fails naming that line. It is never a module or go error, and a skipped line changes nothing but the line number. |
| Driver.ParseFromLines | pkg/parser/api_wrapper.go:14-67 | The loop returns a new module holding exactly what ParseLines computes, or nil and the error of the first line that fails, tagged with its line number. A replace-block halt is returned the same way (see Left out). |
| Driver.ParseFromString | pkg/parser/api_wrapper.go:70-72 | The text cut into scanner lines and parsed: the module or the failure ParseText gives. |
| Driver.ParseGoModContent | pkg/parser/api_wrapper.go:162-164 | The same as ParseFromString. |
| Driver.RunAppend | pkg/parser/api_wrapper.go:27-60 | Running the loop over two stretches of lines is running it over the first, then over the second from where the first ended. |
| Driver.RunProgress | pkg/parser/api_wrapper.go:27-60 | A run ends one line number per line further on and has only appended. Otherwise it fails on one of its lines, never with a module or go error. |
| Driver.RunFailsAtLine | pkg/parser/api_wrapper.go:49-59 | A failure is that of the line it names: the lines before it go through, and the lines after it are never read. |
| Driver.ParseLinesProgress | pkg/parser/api_wrapper.go:14-67 | A parse never fails with a module or go error. |
| Driver.ParseLinesFailsAtLine | pkg/parser/api_wrapper.go:49-59 | The line number in an error counts from one, and it is the first line that fails. |
| Driver.RunIgnoresLineNumber | pkg/parser/api_wrapper.go:23-59 | The line counter only labels errors: two runs that differ only in it end alike. |
| Driver.RunDropsLine | pkg/parser/api_wrapper.go:31-34 | A line the loop always passes over can be removed without changing how a run ends, bar error labels. |
| Driver.SkippedLineIgnored | pkg/parser/api_wrapper.go:31-34 | Removing a blank line, or a comment that does not mention `indirect`, does not change what a file parses to, bar the line an error names. |
| Driver.CloseEndsBlock | pkg/parser/api_wrapper.go:36-40 | Inside a block, `)` leaves the block and changes nothing else. |
| Driver.CloseOutsideBlockFails | pkg/parser/api_wrapper.go:36-59 | Outside a block, `)` fails as an unrecognized line. |
| Driver.OpensBlock | pkg/parser/api_wrapper.go:42-47 | A line ending in `(` that is not skipped opens a block in any state, with the text before `(`, trimmed, as its type. |
| Driver.OpenStartsBlock | pkg/parser/api_wrapper.go:42-47 | `word (` opens a block of kind `word`, inside a block as well as outside. |
| Driver.UnrecognizedAtTopLevel | pkg/parser/api_wrapper.go:56-59 | Outside a block, a content line that no declaration form matches fails, naming the trimmed line. |
| Driver.UnknownBlockFails | pkg/parser/api_wrapper.go:137-138 | Inside a block of a kind no handler knows, every content line fails with that block type. |
| Driver.RequireBlockAppends | pkg/parser/api_wrapper.go:49-54 | Inside a require block, a content line that reads as a Require appends exactly it. |
| Driver.ReplaceBlockAppends | pkg/parser/api_wrapper.go:49-54 | Inside a replace block, a content line that reads as a Replace appends exactly it. |
| Driver.ExcludeBlockAppends | pkg/parser/api_wrapper.go:49-54 | Inside an exclude block, a content line that reads as an Exclude appends exactly it. |
| Driver.RetractBlockAppends | pkg/parser/api_wrapper.go:49-54 | Inside a retract block, a content line that reads as a Retract appends exactly it. |
| Driver.LiteralMismatch | pkg/parser/api_wrapper.go:80-124 | A line whose text differs from a pattern's leading keyword at some position does not match that pattern. |
| Driver.ParseLines | pkg/parser/api_wrapper.go:14-67 | The line number of a failure lies between one and the number of lines. |
| Driver.ScanLines | pkg/parser/api_wrapper.go:22-27 | No scanned line contains a newline. |
| Driver.DropCR | pkg/parser/api_wrapper.go:22-27 | A line ending in a carriage return loses that one character; any other line is kept. No newline is added. |
| Driver.ParseText | pkg/parser/api_wrapper.go:70-72 | The line number of a failure lies between one and the number of scanned lines. |
| Driver.OtherFirstCharUnrecognized | pkg/parser/api_wrapper.go:80-124 | A line starting with none of the keywords' first letters is not recognized. |
| Driver.IndirectCommentAtTopLevel | pkg/parser/api_wrapper.go:31-34 | A `// indirect` line is not skipped: at top level it fails as an unrecognized line. |
| Driver.IndirectCommentInRequireBlock | pkg/parser/api_wrapper.go:31-54 | Inside a require block, a `// indirect` line appends a requirement with path `//` and version `indirect`. |
| Driver.ScanLinesOfTerminated | pkg/parser/api_wrapper.go:22-27 | The scanner gives back the lines of a text whose every line ends in a newline. |
| Driver.ScanLinesOfUnterminated | pkg/parser/api_wrapper.go:22-27 | A last line without a newline is given back too. |
| Driver.ScanLinesOfCRLF | pkg/parser/api_wrapper.go:22-27 | A text whose lines each end in a carriage return and a newline scans to the lines without either. |
| Driver.ParseTextOfCRLF | pkg/parser/api_wrapper.go:70-72 | A text with CRLF line ends parses as the same text with LF line ends. |
| Driver.ParseTextOfTerminated | pkg/parser/api_wrapper.go:70-72 | Parsing a text of newline-ended lines is parsing those lines. |
| RoundTrip.SingleLineModule | pkg/parser/api_wrapper.go:80-86 | `module name` reaches the module name handler and sets the name. |
| RoundTrip.SingleLineGo | pkg/parser/api_wrapper.go:88-93 | `go version` gets past the module pattern and sets the Go version. |
| RoundTrip.SingleLineRequire | pkg/parser/api_wrapper.go:95-100 | A written-out `require` declaration gets past the module and go patterns and appends the same Require. |
| RoundTrip.SingleLineReplace | pkg/parser/api_wrapper.go:102-107 | A written-out `replace` declaration gets past the earlier patterns and appends the same Replace. |
| RoundTrip.SingleLineExclude | pkg/parser/api_wrapper.go:109-114 | A written-out `exclude` declaration gets past the earlier patterns and appends the same Exclude. |
| RoundTrip.SingleLineRetract | pkg/parser/api_wrapper.go:116-121 | A written-out `retract` declaration gets past the other five patterns and appends the same Retract. |
| RoundTrip.DeclarationStep | pkg/parser/api_wrapper.go:27-59 | Outside a block, a trimmed content line not ending in `(` is handed to the single-line dispatch, and the loop goes on with its result. |
| RoundTrip.ModuleStep | pkg/parser/api_wrapper.go:27-59 | Outside a block, one `module name` line sets the name. |
| RoundTrip.GoStep | pkg/parser/api_wrapper.go:27-59 | Outside a block, one `go version` line sets the Go version. |
| RoundTrip.StepOpens | pkg/parser/api_wrapper.go:42-47 | `kind (` opens a block of that kind, for each of the four kinds. |
| RoundTrip.StepCloses | pkg/parser/api_wrapper.go:36-40 | Inside any block, `)` closes it. |
| RoundTrip.EntriesRun | pkg/parser/api_wrapper.go:27-54 | In a block whose every well-formed entry line appends that entry, the entry lines of a list append the whole list in order. |
| RoundTrip.BlockRun | pkg/parser/api_wrapper.go:36-54 | An opening line, the lines the block reads and `)` run as the opening, then the lines, then the close. |
| RoundTrip.EntryBlockRun | pkg/parser/api_wrapper.go:27-54 | For any kind, a block of well-formed entries, closed or not, appends the entries in order and ends in or out of the block. |
| RoundTrip.StepReadsRequires | pkg/parser/api_wrapper.go:49-54 | In a require block, each written-out well-formed entry line appends that Require. |
| RoundTrip.StepReadsReplaces | pkg/parser/api_wrapper.go:49-54 | In a replace block, each written-out well-formed entry line appends that Replace. |
| RoundTrip.StepReadsExcludes | pkg/parser/api_wrapper.go:49-54 | In an exclude block, each written-out well-formed entry line appends that Exclude. |
| RoundTrip.StepReadsRetracts | pkg/parser/api_wrapper.go:49-54 | In a retract block, each written-out well-formed entry line appends that Retract. |
| RoundTrip.RequireBlockRun | pkg/parser/api_wrapper.go:14-67 | From any state, a written-out require block appends its entries in order. |
| RoundTrip.ReplaceBlockRun | pkg/parser/api_wrapper.go:14-67 | From any state, a written-out replace block appends its entries in order. |
| RoundTrip.ExcludeBlockRun | pkg/parser/api_wrapper.go:14-67 | From any state, a written-out exclude block appends its entries in order. |
| RoundTrip.RetractBlockRun | pkg/parser/api_wrapper.go:14-67 | From any state, a written-out retract block appends its entries in order. |
| RoundTrip.RequireBlockRoundTrip | pkg/parser/api_wrapper.go:14-67 | A require block of well-formed entries parses to a module requiring exactly those entries in order, and so does the same block left unclosed. |
| RoundTrip.ReplaceBlockRoundTrip | pkg/parser/api_wrapper.go:14-67 | The same for a replace block and the module's replacements. |
| RoundTrip.ExcludeBlockRoundTrip | pkg/parser/api_wrapper.go:14-67 | The same for an exclude block and the module's exclusions. |
| RoundTrip.RetractBlockRoundTrip | pkg/parser/api_wrapper.go:14-67 | The same for a retract block and the module's retractions. |
| RoundTrip.BlocksRun | pkg/parser/api_wrapper.go:14-67 | A require, a replace, an exclude and a retract block in a row append each block's entries, in order, to the matching list. |
| RoundTrip.FileRun | pkg/parser/api_wrapper.go:14-67 | A `module` line, a `go` line and the four blocks run to a state holding exactly that name, version and those lists. |
| RoundTrip.FileRoundTrip | pkg/parser/api_wrapper.go:14-67 | Such a file parses to the module of that name, version and lists, each list in the order of the file. |
| RoundTrip.StepOfTrimmed | pkg/parser/api_wrapper.go:29 | Two lines that trim to the same text take the same step. |
| RoundTrip.StepReadsTrimmed | pkg/parser/api_wrapper.go:29-34 | Every step depends on the trimmed line alone, and passes over blank lines and comments without `indirect`. |
| RoundTrip.LaidOutRuns | pkg/parser/api_wrapper.go:27-60 | With such a step, lines given other white space around them, with blank and comment lines put in between, run as the lines do, bar line numbers. |
| RoundTrip.LaidOutParses | pkg/parser/api_wrapper.go:14-67 | Such a laid-out text parses as its lines do, bar the line an error names. |
| RoundTrip.LaidOutFileRoundTrip | pkg/parser/api_wrapper_test.go:404-439 | A file of such declarations, with indented entries, blank lines and comment lines, as in the test's complex file, parses to the module holding exactly those declarations, in order. |
| Lookup.FindRequire | pkg/parser/helper_functions.go:13-20 | None exactly when no requirement has the path. Otherwise it is the requirement at the first index with that path. |
| Lookup.FindReplace | pkg/parser/helper_functions.go:28-35 | None exactly when no replacement replaces the path. Otherwise it is the first one that does. |
| Lookup.GetRequire | pkg/parser/helper_functions.go:13-20 | None exactly when no requirement has the path. Otherwise it is the first requirement of the module with that path. |
| Lookup.HasRequire | pkg/parser/helper_functions.go:8-10 | True exactly when some requirement has the path. |
| Lookup.GetReplace | pkg/parser/helper_functions.go:28-35 | None exactly when no replacement's old path is the path. Otherwise it is the first of the module's replacements of it. |
| Lookup.HasReplace | pkg/parser/helper_functions.go:23-25 | True exactly when some replacement's old path is the path. |
| Lookup.AnyExclude | pkg/parser/helper_functions.go:38-45 | True exactly when the pair (path, version) is among the exclusions. |
| Lookup.HasExclude | pkg/parser/helper_functions.go:38-45 | True exactly when the exact pair is excluded. |
| Lookup.AnyRetract | pkg/parser/helper_functions.go:48-63 | True exactly when some retraction covers the version. |
| Lookup.HasRetract | pkg/parser/helper_functions.go:48-63 | True exactly when some retraction has the version, or has both bounds with the version between them in string order. |
| Lookup.Covers | pkg/parser/helper_functions.go:51-58 | A retraction that covers another version than its own has bounds in string order. |
| Lookup.HasIffGet | pkg/parser/helper_functions.go:8-35 | HasRequire and HasReplace hold exactly when GetRequire and GetReplace find something. |
| Lookup.GetRequireFirst | pkg/parser/helper_functions.go:14-18 | The first match wins: the earliest requirement on a path is the one returned. |
| Lookup.GetReplaceFirst | pkg/parser/helper_functions.go:29-33 | Only the old path is compared: the earliest replacement of the path is returned, whatever its version. |
| Lookup.EmptyQueryCoversRange | pkg/parser/helper_functions.go:50-58 | A range retraction has the empty version, so the empty query is covered by it. |
| Lookup.RangeCoversBounds | pkg/parser/helper_functions.go:55-58 | A range covers its own bounds. |
| Lookup.RangeIsInterval | pkg/parser/helper_functions.go:55-58 | Whatever lies between two covered versions in string order is covered too. |
| Lookup.CoversExamples | pkg/parser/helper_functions_test.go:29-32 | The range [v2.0.0, v2.9.9] covers v2.5.0 and not v3.0.0. |
| Lookup.HasRetractExamples | pkg/parser/helper_functions_test.go:62-64 | The module of the tests retracts v1.0.0 and v2.5.0, not v3.0.0. |
| Api.ParseGoModContent | pkg/api.go:15-17 | The module or failure of parsing the text. |
| Api.HasRequire | pkg/api.go:36-43 | The loop computes Lookup.HasRequire on the module. |
| Api.GetRequire | pkg/api.go:46-53 | The loop computes Lookup.GetRequire on the module. |
| Api.HasReplace | pkg/api.go:56-63 | The loop computes Lookup.HasReplace on the module. |
| Api.GetReplace | pkg/api.go:66-73 | The loop computes Lookup.GetReplace on the module. |
| Api.HasExclude | pkg/api.go:76-83 | The loop computes Lookup.HasExclude on the module. |
| Api.HasRetract | pkg/api.go:86-101 | The loop computes Lookup.HasRetract on the module. |
| RetractRationales.IsVersionInRange | examples/05_retract_versions/main.go:116-124 | A version is in range only when the bounds, without their `v`, are in string order. |
| RetractRationales.TrimPrefixV | examples/05_retract_versions/main.go:118-120 | The input is the result with at most one leading `v` put back. |
| RetractRationales.VersionPrefixOptional | examples/05_retract_versions/main.go:116-124 | A leading `v` on the version or either bound does not change the answer. |
| RetractRationales.OneVRemoved | examples/05_retract_versions/main.go:118-120 | Only one `v` is removed. |
| RetractRationales.RangeIncludesEnds | examples/05_retract_versions/main.go:123 | Both ends of a range are in it. |
| RetractRationales.EmptyRange | examples/05_retract_versions/main.go:116-124 | With empty bounds, only a version that is empty once its `v` is removed is in range. |
| RetractRationales.NotSemanticVersioning | examples/05_retract_versions/main.go:122-123 | v1.10.0 does not lie between v1.2.0 and v1.20.0. |
| RetractRationales.Unique | examples/05_retract_versions/main.go:127-137 | The same strings as the input, none twice. |
| RetractRationales.UniqueStrings | examples/05_retract_versions/main.go:127-137 | The loop with its set of seen keys returns Unique of the input. |
| RetractRationales.FirstIndex | examples/05_retract_versions/main.go:127-137 | The index of the first occurrence: the string is there and not before it. |
| RetractRationales.UniqueKeepsOrder | examples/05_retract_versions/main.go:127-137 | The strings kept are in the order of their first occurrences. |
| RetractRationales.UniqueExample | examples/05_retract_versions/main.go:127-137 | [a, b, a] becomes [a, b]. |
| RetractRationales.Collected | examples/05_retract_versions/main.go:97-108 | A string is collected exactly when it is the rationale of a retraction that concerns the version. |
| RetractRationales.GetRetractRationales | examples/05_retract_versions/main.go:94-112 | The loop then uniqueStrings return the distinct collected rationales, in order. |
| RetractRationales.Rationales | examples/05_retract_versions/main.go:94-112 | The strings reported are exactly the collected ones, none twice. |
| RetractRationales.RationalesAre | examples/05_retract_versions/main.go:94-112 | A string is reported exactly when it is the rationale of a retraction concerning the version. None is empty and none is repeated. |
| RetractRationales.SingleVersionExact | examples/05_retract_versions/main.go:99 | A single-version retraction concerns that version only. |

## Left out

- Reading from an `io.Reader`: the text is a string. `bufio.Scanner`'s 64 KiB line limit and `scanner.Err()` (pkg/parser/api_wrapper.go:62-64) are not modelled, since a string source cannot fail to read.
- Files and directories: `ParseFromFile`, `ParseGoModFile`, `FindAndParseGoModFile`, `FindAndParseGoModInCurrentDir`, `module.OpenAndProcess` and `pkg/utils/file.go` open files and search the working directory. This is I/O, and it is not part of this model. The `pkg/api.go` wrappers of them are left out for the same reason.
- Error messages: the `fmt.Errorf` texts (`line N: …`, `unrecognized line format: …`, `unknown block type: …`) are modelled as their data. That data is a `LineFailure` with the number and the halt, and the halt carries the line or block type. The wording is not modelled.
- Regular expressions: only the nine patterns of `regexp.go` are modelled, by a matcher made for their shape, not a general RE2 engine.
- White space: only ASCII. `strings.TrimSpace` and `strings.Fields` also treat Unicode spaces such as U+0085 and U+00A0 as white space, and the model does not.
- Strings are sequences of characters, not of UTF-8 bytes. `Text.LessEq`, Go's string order, therefore compares characters. For ASCII text this is the byte order.
- The replace-block panic: `pkg/parser/replace_handler.go:36` panics on a line with nothing before `=>`, and Go's panic unwinds out of `ParseFromReader` (`pkg/parser/api_wrapper.go:50`) without a `line N` wrapper and without a return. The model returns it instead, as the `IndexPanic` halt tagged with its line number like any other failure.
- References: the Module's lists hold values, not `*Require` and the like, so two lists cannot share an entry. The nil module that an error returns is `null`.
- RetractHandler.RangeBetween: the test `rangeStart >= 0` (pkg/parser/retract_handler.go:59) always holds once the line contains `[`, so it is not modelled. RangeLine makes the test `rangeEnd > rangeStart` itself and calls RangeBetween only when it holds, which is RangeBetween's precondition.
- RetractRationales.GetRetractRationales: the printing around the loop in `examples/05_retract_versions/main.go` is output only, and is left out.
- The command-line programs, the other examples, the documentation and the test files: they are not part of the parser. A few test cases are restated as lemmas.
