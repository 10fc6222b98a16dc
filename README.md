# console.log cleaner — a Dafny model of `cleanConsoleLog`

`cleanConsoleLog(content)` removes `console.log` statements from JavaScript source text. It works in three steps:

1. It splits the text on `"\n"`.
2. It walks the lines. It drops every line whose trimmed text starts with `console.log(`. If the parentheses of that statement are still open at the end of the line, it also drops the lines that follow until the statement's parenthesis count is no longer positive. Every other line is kept verbatim.
3. It re-joins the kept lines with `"\n"` and rewrites every match of `/\n\s*\n\s*\n+/g` as `"\n\n"`.

Parentheses are counted by a small character scanner. Its state has five variables: the parenthesis count, whether a `'`/`"` string is open, the delimiter of that string, whether a template literal is open, and the depth of `${...}` slots inside it. Each step also looks at the raw previous character of the same line. A backslash there makes the step a no-op inside a string or template, and a `$` there makes `{` open a slot.

The model has six modules:

- `Text` (`text.dfy`): the JavaScript string primitives the function uses, namely the whitespace class of `trim()` and `\s`, `trim`, `startsWith`, `split("\n")` and `join("\n")`.
- `Lexer` (`lexer.dfy`): the scanner's state, one scanner step (the if/else-if chain of the source), and the per-line `for` loop as a method.
- `BlankLines` (`collapse.dfy`): the regex post-pass, stated as a rewrite of maximal whitespace runs. Its shape is proved: the two newlines left are adjacent, and the whitespace around them stays. Also proved: no match is left, the text changes exactly when the pattern matches, and no non-whitespace character is touched.
- `Cleaner` (`cleaner.dfy`): the outer `while` over `i` and the inner `while` over `j` as methods. Each is proved against a specification function: `Segment` cuts the input into kept lines and removed statements, and `Kept` and `Cleaned` are defined from it.
- `Idempotence` (`idempotence.dfy`): cleaning twice gives the same text as cleaning once.
- `Scenarios` (`scenarios.dfy`): worked concrete inputs, namely a template with a slot, the `"a\\"` escape, a two-line call, a call that is not at the start of a line, and one blank-line run.

The model keeps the scanner's quirks as the code has them, and each is proved by a named member:

- A quote never opens a string inside a template, even inside `${...}`: `Lexer.QuoteInTemplateIsText`.
- A backtick inside a slot closes the template and resets the depth: `Lexer.BacktickClosesTemplate`.
- Any unescaped `}` in a template leaves a slot while the depth is positive: `Lexer.SlotDepthTracksBraces`.
- The escape check looks at the raw previous character, so in `"a\\"` the closing quote is still treated as escaped and the next line is swallowed: `Scenarios.EscapedBackslashHidesQuote` and `Scenarios.EscapedBackslashSwallowsNextLine`.
- The previous character is forgotten at each new line: `Lexer.BackslashEscapesOnlyWithinLine`.
- The statement is complete after its first line when the count is exactly 0. The `while` then runs only while the count is positive, so a count that is negative after the first line also ends the statement there. The effective rule is "the count is at most 0": `Cleaner.SingleLineStatement` and `Cleaner.StatementEndClosesAt`.

## Model

| member | source | states |
|---|---|---|
| Text.IsWs | console-log-cleaner.js:19 | the ECMAScript WhiteSpace and LineTerminator code points, the class that `trim()` removes at line 19 and that `\s` matches at line 143 |
| Text.Split | console-log-cleaner.js:13 | `split("\n")` gives at least one piece, no piece holds a newline, and joining the pieces with `"\n"` gives back the input |
| Text.Join | console-log-cleaner.js:142 | `join("\n")`, with the empty list giving `""`; `Split` and `SplitOfJoin` prove it inverse to `split("\n")` |
| Text.SplitOfLine | console-log-cleaner.js:13 | a text without newlines splits into itself alone |
| Text.SplitAfterLine | console-log-cleaner.js:13 | a line, a newline and more text split into that line followed by the pieces of the rest |
| Text.SplitOfJoin | console-log-cleaner.js:142 | joining newline-free lines with `"\n"` and splitting again gives back exactly those lines |
| Text.TrimStart | console-log-cleaner.js:19 | the leading half of `trim()`; `TrimStartSpec` states what it removes |
| Text.TrimEnd | console-log-cleaner.js:19 | the trailing half of `trim()`; `TrimEndSpec` states what it removes |
| Text.Trim | console-log-cleaner.js:19 | `line.trim()` as both halves; `TrimStartSpec` and `TrimEndSpec` state what it removes |
| Text.StartsWith | console-log-cleaner.js:22 | `startsWith`: the prefix fits and the text's first characters equal it |
| Text.SplitCons | console-log-cleaner.js:13 | a character other than a newline joins the first piece of the split |
| Text.StartsWithCons | console-log-cleaner.js:22 | a text with one character in front starts with a non-empty prefix exactly when that character is the prefix's first and the rest starts with the remainder |
| Text.TrimStartSpec | console-log-cleaner.js:19 | the trimmed-start text is a suffix of the line, everything cut off is whitespace, and it starts with a non-whitespace character or is empty |
| Text.TrimEndSpec | console-log-cleaner.js:19 | the trimmed-end text is a prefix of the line, everything cut off is whitespace, and it ends with a non-whitespace character or is empty |
| Text.TrimEndKeepsPrefix | console-log-cleaner.js:19-22 | trailing whitespace never affects whether a line starts with a prefix that ends in a non-whitespace character |
| Idempotence.CandidateByLeadingWs | console-log-cleaner.js:19-22 | a line is a candidate exactly when its text after the leading whitespace starts with `console.log(` |
| Lexer.Step | console-log-cleaner.js:37-71 | one character of the scan keeps the state well formed: string and template never both open, the delimiter set exactly while a string is open, the slot depth never negative and 0 outside a template |
| Lexer.PrevChar | console-log-cleaner.js:35 | `prevChar`: the raw character before column `k`, and none (the source's `""`) at column 0; used by `AfterChars` and `ScanLine` |
| Lexer.InitIsWf | console-log-cleaner.js:25-29 | the initial values `Init` of the five scanner variables (count 0, no string, empty delimiter, no template, depth 0) are well formed; `Opener` is the literal `console.log(` of line 22 |
| Lexer.CodeQuoteOpensString | console-log-cleaner.js:43-45 | in code, a quote opens a string delimited by that same quote |
| Lexer.BacktickOpensTemplate | console-log-cleaner.js:52-53 | outside strings and templates, a backtick opens a template |
| Lexer.AfterChars | console-log-cleaner.js:33-71 | the state after the first `k` characters of a line, each taken by `Step` with its raw previous character; `AfterCharsKeepsWf` and the inertness lemmas state its properties |
| Lexer.LineScan | console-log-cleaner.js:33-72 | the state after a whole line; `ScanLine` is proved to compute it |
| Lexer.AfterLines | console-log-cleaner.js:83-129 | the state after several lines, carried from line to line with the previous character reset; `AfterLinesKeepsWf` and `AfterLinesExtend` state its properties |
| Lexer.ScanLine | console-log-cleaner.js:33-72 | the character loop over one line ends in the state given by stepping through its characters from column 0, with the previous character reset at the line start |
| Lexer.AfterCharsKeepsWf | console-log-cleaner.js:33-72 | well-formedness holds after any number of characters of a line |
| Lexer.AfterLinesKeepsWf | console-log-cleaner.js:83-129 | well-formedness holds after any number of lines, so `templateDepth` never goes below 0 |
| Lexer.ParenCountMovesOnlyOnLiveParens | console-log-cleaner.js:64-71 | the paren count changes by exactly +1 on a live `(` and -1 on a live `)` (outside strings, outside template text, not escaped), and never otherwise |
| Lexer.StringIsOpaque | console-log-cleaner.js:38-49 | inside a string, a character either does nothing or is the unescaped opening delimiter and closes the string |
| Lexer.EscapedCharIsInert | console-log-cleaner.js:37-40 | after a backslash inside a string or template, the next character changes nothing |
| Lexer.QuoteInTemplateIsText | console-log-cleaner.js:43 | a quote never opens a string while a template is open, even inside a slot |
| Lexer.BacktickClosesTemplate | console-log-cleaner.js:52-55 | an unescaped backtick closes the template from any slot depth and resets the depth to 0 |
| Lexer.SlotDepthTracksBraces | console-log-cleaner.js:58-62 | in a template, `${` raises the slot depth, any unescaped `}` lowers it while it is positive, and `}` at depth 0 is text |
| Lexer.StringBodyIsOpaque | console-log-cleaner.js:43-49 | in an open string, any run of characters without its delimiter leaves the whole state unchanged |
| Lexer.CodeTextIsInert | console-log-cleaner.js:43-71 | outside strings and templates, a run without quotes, backticks or parentheses leaves the state unchanged |
| Lexer.PlainTextIsInert | console-log-cleaner.js:37-71 | in every mode, a run without quotes, backticks, parentheses or braces leaves the state unchanged |
| Lexer.AfterCharsOfPrefix | console-log-cleaner.js:33-35 | scanning a prefix of a line does not depend on what follows it |
| Lexer.BackslashEscapesOnlyWithinLine | console-log-cleaner.js:87-94 | a backslash ending one line does not escape the first character of the next line: a delimiter there closes the string, though it would not on the same line |
| Lexer.OpenerOpensOneParen | console-log-cleaner.js:22-72 | scanning `console.log(` from the initial state leaves exactly one parenthesis open |
| Lexer.ParenInStringIsIgnored | console-log-cleaner.js:43-71 | in `console.log("value)")` the `)` inside the string is not counted, so the count ends at 0 |
| Cleaner.SpanEnd | console-log-cleaner.js:82-129 | the inner loop stops between its start line and the end of the input |
| Cleaner.IsCandidate | console-log-cleaner.js:19-22 | `line.trim().startsWith("console.log(")`; `CandidateByLeadingWs` shows that only the leading whitespace matters |
| Cleaner.StatementEnd | console-log-cleaner.js:24-133 | one past the last line of the statement starting at a candidate; `StatementEndClosesAt` and `ClosesAtIsUnique` characterize it |
| Cleaner.SkipStatement | console-log-cleaner.js:24-133 | the scan of a candidate returns the line where the outer loop resumes: one past the shortest span of lines, scanned in order from the initial state, whose count is at most 0, or the end of the input |
| Cleaner.AfterLinesExtend | console-log-cleaner.js:83-129 | the state after lines `s..j` is the state after `s..j-1`, carried through line `j` |
| Cleaner.SpanEndClosesAt | console-log-cleaner.js:82-129 | from a prefix whose counts are all positive, the inner loop ends at the closing line of the statement |
| Cleaner.StatementEndClosesAt | console-log-cleaner.js:74-133 | the removed span ends at the first line after which no parenthesis is open, or at the end of the input |
| Cleaner.ClosesAtIsUnique | console-log-cleaner.js:74-133 | a statement closes at exactly one line |
| Cleaner.SingleLineStatement | console-log-cleaner.js:74-79 | a statement is one line long exactly when its first line leaves a count of at most 0, or it is the last line |
| Cleaner.Segment | console-log-cleaner.js:17-139 | the outer loop from line `i` visits blocks that lie within lines `i` to the last line |
| Cleaner.SegmentTiles | console-log-cleaner.js:17-139 | the outer loop cuts the lines into consecutive blocks with no gaps: kept non-candidate lines, and removed statements that start at a candidate and end where they close |
| Cleaner.TilesCons | console-log-cleaner.js:17-139 | a fitting block followed by a tiling of the rest is a tiling |
| Cleaner.TilesTail | console-log-cleaner.js:17-139 | the rest of a tiling after its first block tiles the remaining lines |
| Cleaner.TilesEmpty | console-log-cleaner.js:17 | a tiling is empty exactly when it starts at the end of the input |
| Cleaner.TilingIsUnique | console-log-cleaner.js:17-139 | there is only one such tiling, so the kept lines are determined by the input alone |
| Cleaner.KeptIndicesIncrease | console-log-cleaner.js:136-138 | kept line numbers increase strictly, are in range, and name non-candidate lines |
| Cleaner.KeptLinesAtIndices | console-log-cleaner.js:137 | each kept line is the input line at its kept line number, verbatim |
| Cleaner.KeptLinesInOrder | console-log-cleaner.js:17-139 | kept lines are input lines, verbatim and in their original order, none of them a candidate |
| Cleaner.KeptLinesAreInputLines | console-log-cleaner.js:17-139 | every kept line occurs in the input and is not a candidate |
| Cleaner.NoCandidateKeepsAll | console-log-cleaner.js:136-138 | without candidates from line `i` on, all of those lines are kept |
| Cleaner.KeptFromStep | console-log-cleaner.js:17-139 | one turn of the outer loop either skips a whole statement or keeps the line and moves on |
| Cleaner.Kept | console-log-cleaner.js:17-139 | the array `result` at the end of the outer loop; `KeptLinesInOrder`, `KeptLinesAreInputLines` and `TilingIsUnique` characterize it |
| Cleaner.Cleaned | console-log-cleaner.js:12-146 | the function's value: `Kept` joined with `"\n"` and collapsed; `CleanConsoleLog` is proved to compute it, and `CleanedIsIdempotent` is proved about it |
| Cleaner.CleanConsoleLog | console-log-cleaner.js:12-146 | the function returns the collapsed join of exactly the kept lines |
| Cleaner.CleanedWithoutCandidates | console-log-cleaner.js:12-146 | without a candidate line, only the blank-line collapse changes the text |
| Idempotence.CleanedIsIdempotent | console-log-cleaner.js:12-146 | cleaning an already cleaned text changes nothing |
| Idempotence.OpenerWithinLine | console-log-cleaner.js:13-22 | text after a line break never completes `console.log(` at the end of a line |
| Idempotence.NoStartInLine | console-log-cleaner.js:13-22 | a text has no line starting (after indentation) with `console.log(` exactly when neither its first line nor the rest has one |
| Idempotence.NoStartOverWs | console-log-cleaner.js:13-22 | leading whitespace only matters to that test through whether it holds a newline |
| Idempotence.NoStartInJoin | console-log-cleaner.js:13-22 | the joined text has no statement start exactly when none of the joined lines is a candidate |
| Idempotence.CollapseKeepsNoStart | console-log-cleaner.js:142-143 | the blank-line collapse creates no new candidate line |
| BlankLines.FirstNewline | console-log-cleaner.js:143 | the first newline of a run is a newline with none before it |
| BlankLines.LastNewline | console-log-cleaner.js:143 | the last newline of a run is a newline with none after it |
| BlankLines.WsRunLength | console-log-cleaner.js:143 | the maximal whitespace run at the front is all whitespace and is followed by a non-whitespace character or the end |
| BlankLines.MatchAt | console-log-cleaner.js:143 | `/\n\s*\n\s*\n+/` matches at newlines `i < j < k` with only whitespace from `i` through `k`: the reference against which the collapse is proved |
| BlankLines.HasMatch | console-log-cleaner.js:143 | the pattern matches somewhere in the text; `CollapseLeavesNoMatch` and `CollapseChangesIffMatch` are stated against it |
| BlankLines.Collapse | console-log-cleaner.js:143 | `replace(/\n\s*\n\s*\n+/g, "\n\n")`, one maximal whitespace run at a time; `CollapseRun`, `SqueezeRunShape`, `CollapseLeavesNoMatch`, `CollapseChangesIffMatch` and `CollapseKeepsNonWs` characterize it |
| BlankLines.FirstNewlineAt | console-log-cleaner.js:143 | a newline with none before it is the first newline |
| BlankLines.LastNewlineAt | console-log-cleaner.js:143 | a newline with none after it is the last newline |
| BlankLines.NewlinePairShape | console-log-cleaner.js:143 | in `a + "\n\n" + b` with no newline in `a` or `b`, the two newlines are the first and last, with `a` before and `b` after them |
| BlankLines.SqueezeRun | console-log-cleaner.js:143 | the replacement inside one run: the stretch from its first newline to its last becomes `"\n\n"`; `SqueezeRunShape` states its shape |
| BlankLines.SqueezeRunShape | console-log-cleaner.js:143 | the squeezed run's two newlines are adjacent, the whitespace before the run's first newline stays in front of them, and the whitespace after its last newline stays behind them |
| BlankLines.NewlinePairCount | console-log-cleaner.js:143 | two newlines between newline-free texts count two |
| BlankLines.CollapseRun | console-log-cleaner.js:143 | a whitespace run with three or more newlines is squeezed (`SqueezeRun`, shape in `SqueezeRunShape`) into a shorter run with exactly two newlines; a run with fewer is unchanged; a run stays whitespace and non-empty |
| BlankLines.NewlineCountAppend | console-log-cleaner.js:143 | newline counts add over concatenation |
| BlankLines.NewlineCountPositive | console-log-cleaner.js:143 | the count is positive exactly when a newline occurs |
| BlankLines.NoNewlineCount | console-log-cleaner.js:143 | text without newlines counts 0 |
| BlankLines.NewlineCountSplit | console-log-cleaner.js:143 | the count of a text is the count of its two halves at any split point |
| BlankLines.ThreeNewlinesCount | console-log-cleaner.js:143 | three newlines at distinct positions make a count of at least three |
| BlankLines.CountAroundSlice | console-log-cleaner.js:143 | the count splits over a prefix, a middle slice and a suffix |
| BlankLines.CountBetweenNewlines | console-log-cleaner.js:143 | the slice from one newline to another counts two plus the newlines strictly between |
| BlankLines.FirstNewlineIsFirst | console-log-cleaner.js:143 | no newline occurs before the first newline |
| BlankLines.NewlinesBetween | console-log-cleaner.js:143 | the first newline comes no later than the last; they coincide exactly when there is one newline, and otherwise the count is two plus those between them |
| BlankLines.ThreeNewlinesSpread | console-log-cleaner.js:143 | with three or more newlines, another newline lies strictly between the first and the last |
| BlankLines.MatchInSuffix | console-log-cleaner.js:143 | a match in a suffix is a match in the whole text |
| BlankLines.MatchInPrefix | console-log-cleaner.js:143 | a match in a prefix is a match in the whole text |
| BlankLines.MatchAfterTextLiesInTail | console-log-cleaner.js:143 | a match never covers a non-whitespace character, so after one it lies in the tail |
| BlankLines.WsInsideMatch | console-log-cleaner.js:143 | every character a match covers is whitespace |
| BlankLines.ShortRunMatchLiesInText | console-log-cleaner.js:143 | a whitespace run with fewer than three newlines cannot hold or start a match, so any match lies after it |
| BlankLines.AllWsSlice | console-log-cleaner.js:143 | a slice of whitespace is whitespace |
| BlankLines.RunWithThreeNewlinesMatches | console-log-cleaner.js:143 | a whitespace run with three or more newlines matches the pattern |
| BlankLines.LongRunMatches | console-log-cleaner.js:143 | a text starting with such a run matches the pattern |
| BlankLines.CollapseLeavesNoMatch | console-log-cleaner.js:143 | after the replacement, no three-newline whitespace stretch is left |
| BlankLines.CollapseKeepsMatchFreeText | console-log-cleaner.js:143 | a text with no match is returned unchanged |
| BlankLines.CollapseChangesIffMatch | console-log-cleaner.js:143 | the replacement changes the text exactly when the pattern matches |
| BlankLines.CollapseIsIdempotent | console-log-cleaner.js:143 | replacing twice gives the same as replacing once |
| BlankLines.NonWsAppend | console-log-cleaner.js:143 | the non-whitespace characters of a concatenation are those of its parts |
| BlankLines.NonWsOfWs | console-log-cleaner.js:143 | whitespace has no non-whitespace characters |
| BlankLines.NonWsAfterWs | console-log-cleaner.js:143 | leading whitespace contributes no non-whitespace characters |
| BlankLines.NonWsAfterText | console-log-cleaner.js:143 | a leading non-whitespace character is kept in front |
| BlankLines.KeepsNonWsAtText | console-log-cleaner.js:143 | a step past a non-whitespace character keeps the non-whitespace characters |
| BlankLines.NonWsSplit | console-log-cleaner.js:143 | the non-whitespace characters split at any point |
| BlankLines.KeepsNonWsAtRun | console-log-cleaner.js:143 | a step past a whitespace run keeps the non-whitespace characters |
| BlankLines.CollapseKeepsNonWs | console-log-cleaner.js:143 | the replacement removes only whitespace: every other character stays, in order |
| BlankLines.CollapseKeepsHeadKind | console-log-cleaner.js:143 | a non-empty text stays non-empty, and its first character stays whitespace or non-whitespace |
| BlankLines.CollapseKeepsTextPrefix | console-log-cleaner.js:143 | a prefix made only of non-whitespace characters survives the replacement, and the replacement never creates one: the text starts with it after the collapse exactly when it did before |
| Scenarios.TemplateSlotOpens | console-log-cleaner.js:52-71 | in ``console.log(`(${f()}`)`` the `(` in template text is not counted and `${` opens a slot |
| Scenarios.TemplateSlotBalances | console-log-cleaner.js:52-71 | that line ends balanced with no string or template open, so it is a one-line statement |
| Scenarios.EscapedBackslashHidesQuote | console-log-cleaner.js:37-49 | in `console.log("a\\");` the closing quote counts as escaped, so the string and a parenthesis stay open |
| Scenarios.EscapedBackslashSpansNextLine | console-log-cleaner.js:81-133 | the statement therefore extends over the following line `foo();` |
| Scenarios.EscapedBackslashSwallowsNextLine | console-log-cleaner.js:17-139 | and that following line is removed with it |
| Scenarios.MultiLineCallSpansTwoLines | console-log-cleaner.js:81-133 | `console.log(` followed by `  x);` is one two-line statement |
| Scenarios.MultiLineCallKeepsRest | console-log-cleaner.js:17-139 | the line after that statement is kept |
| Scenarios.CallAfterCodeIsKept | console-log-cleaner.js:19-22 | `const x = console.log(1);` is not a candidate and is kept |
| Scenarios.BlankRunRewrites | console-log-cleaner.js:143 | the run `"\n \n\n\t"` is rewritten to `"\n\n\t"`: the text from its first to its last newline becomes two newlines, and the trailing tab stays |

## Left out

- `processFile` (console-log-cleaner.js:148-202) is not modelled. It reads and writes files. It counts matches of `/console\.log\s*\(/g` before and after cleaning and prints a report. It reaches the cleaner only through the call modelled here.
- The command-line entry point (console-log-cleaner.js:205-245) is not modelled. It handles arguments, prints usage and exits the process.
- The `consoleLogContent` variable (console-log-cleaner.js:24, 85) is not modelled as a variable. The first character loop reads it while it still equals `line`, and the model scans `line` directly. The text appended to it at line 85 is never read.
- Characters are Unicode scalar values, not UTF-16 code units. Every comparison the function makes is against an ASCII character or the whitespace class, so the two give the same results, except for unpaired surrogates, which `string` cannot hold.
- The regex engine is not modelled. `BlankLines.Collapse` rewrites each maximal whitespace run directly, from its first newline to its last, as leftmost-greedy matching with backtracking does. `CollapseRun`, `SqueezeRunShape`, `CollapseLeavesNoMatch`, `CollapseChangesIffMatch` and `CollapseKeepsNonWs` are proved about this rewrite. It is not proved equal to a step-by-step execution of the regex.
