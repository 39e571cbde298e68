# Control-block balance checker

A Dafny model of `tools/analyze_template.py`. That script checks an Angular-style template
for balanced control-flow blocks (`@if`, `@for`, `@switch`, `@case`, `@empty`, `@else`).
It reads the template line by line and keeps a stack of `(directive, line)` entries:

- a line that matches the *open pattern* pushes the directive of its leftmost match, with
  the 1-based line number;
- a line that then matches the *close pattern* pops one entry; if the stack is empty, the
  closer is reported as an unmatched closing brace;
- after the last line, the checker either lists the entries still on the stack, bottom
  first, or says that all control blocks are closed.

The project has three modules:

- `TemplatePatterns` (`TemplatePatterns.dfy`) gives the two regular expressions as string
  functions.
  - The open pattern `@(if|for|switch|case|empty|else)\b\s*(\([^\)]*\))?\s*\{` is searched
    anywhere in the line. `OpenAt` is the matcher at one position. `OpenMatch` is the
    leftmost search that `re.search` does.
  - The close pattern `^\s*\}\s*(?:@else|@empty|@case)?` is `IsCloser`.
  - Each matcher is proved equal to a declarative description of the language its regex
    accepts (`OpenSpan`, `CloseSpan`).
- `AnalyzeTemplate` (`AnalyzeTemplate.dfy`) holds the pass itself.
  - `Step` is one iteration of the loop, `Scan` runs it over all lines, and `Output`/`Report`
    give the printed report as a sequence of `Event`s.
  - `Analyze` is the loop as written: a stack updated in place and reports appended as they
    happen. It is proved to produce exactly `Report`.
  - The lemmas state the properties of the pass: the per-line transition, the size and
    order invariants of the stack, when a closer is reported, and the verdict.
- `TemplateExamples` (`TemplateExamples.dfy`) works concrete lines and documents through
  the model.

Some consequences of the script as written:

- It prints "All control blocks closed" whenever the stack is empty at the end
  (`tools/analyze_template.py:22-27`), also after unmatched closers were reported
  (`ReportAllClosed`, `StrayCloserDocument`).
- The open regex needs `{` right after the optional parenthesised group, so `@case 'a' {`
  pushes nothing, although the comment at `tools/analyze_template.py:10` lists `@case 'x' {`
  as an opener (`CaseLabelLine`). The document `@switch (x) {` / `@case 'a' {` / `text` /
  `} @case` / `} ` therefore gives `Unmatched closing brace at 5` and then
  `All control blocks closed`: the first closer pops the switch and the second finds the
  stack empty (`SwitchCaseDocument`, `SwitchCaseText`).
- `@if (f(x)) {` does not push either, because `[^\)]*` stops at the first `)`
  (`NestedParenLine`).
- The word characters of `\b` are ASCII letters, digits and `_` here, where Python uses
  the Unicode set. This never changes a result: in any match the name is followed by a
  blank, `(` or `{`, which is not a word character in either set (`AfterNameNotWord`,
  `NonAsciiAfterNameLine`).

## Model

| member | source | states |
|---|---|---|
| TemplatePatterns.SkipSpaces | tools/analyze_template.py:11 | `\s*` is greedy: the result ends a run of blanks that is followed by a non-blank or the end of the line |
| TemplatePatterns.FindCloseParen | tools/analyze_template.py:11 | `[^\)]*\)` stops at the first `)`: when found there is no `)` before it, otherwise the rest of the line has none |
| TemplatePatterns.NameAtUnique | tools/analyze_template.py:11 | at most one directive name, followed by a word boundary, starts at a position |
| TemplatePatterns.KeywordAtSpec | tools/analyze_template.py:11 | the alternation matcher returns k exactly when k's name followed by `\b` starts at the position |
| TemplatePatterns.KeywordAtSound | tools/analyze_template.py:11 | a directive returned by the alternation is spelled at the position and followed by `\b` |
| TemplatePatterns.KeywordAtFinds | tools/analyze_template.py:11 | if some directive name followed by `\b` starts at the position, the alternation matches |
| TemplatePatterns.TailEndSound | tools/analyze_template.py:11 | an end found for `\s*(\([^\)]*\))?\s*\{` is a real match of that tail |
| TemplatePatterns.TailEndNoGroup | tools/analyze_template.py:11 | blanks then `{` match the tail, ending after that `{` |
| TemplatePatterns.TailEndGroup | tools/analyze_template.py:11 | blanks, a `(...)` group without inner `)`, blanks, then `{` match the tail, ending after that `{` |
| TemplatePatterns.TailEndComplete | tools/analyze_template.py:11 | the tail matches at a position exactly when the matcher finds an end |
| TemplatePatterns.OpenAtSpec | tools/analyze_template.py:11 | the open pattern anchored at p matches with directive k exactly when the line has `@`, k's name, `\b` and a tail there |
| TemplatePatterns.OpenAtSound | tools/analyze_template.py:11 | a directive the anchored matcher returns is an actual match at that position |
| TemplatePatterns.OpenAtFinds | tools/analyze_template.py:11 | an actual match at a position is found by the anchored matcher, with its directive |
| TemplatePatterns.AfterNameNotWord | tools/analyze_template.py:11 | in a match, the character after the directive name is a blank, `(` or `{`, none of them a word character, so `\b` holds there under the ASCII and the Unicode word set alike |
| TemplatePatterns.FirstMatchSpec | tools/analyze_template.py:11 | the search returns the leftmost successful attempt and its position, or none when every attempt fails |
| TemplatePatterns.OpenMatchSpec | tools/analyze_template.py:11-13 | `re.search` finds nothing exactly when the pattern matches nowhere; otherwise `group(1)` is the directive of the leftmost match |
| TemplatePatterns.OpenMatchLeftmost | tools/analyze_template.py:11-13 | if k matches at p and nothing matches before p, the line's open match is k |
| TemplatePatterns.OpenPlain | tools/analyze_template.py:11 | `@k`, blanks and `{` form a match of the open pattern |
| TemplatePatterns.OpenGrouped | tools/analyze_template.py:11 | `@k`, a parenthesised group and `{` with blanks between form a match of the open pattern |
| TemplatePatterns.TailBlockedAfterBlanks | tools/analyze_template.py:11 | after the name, a maximal run of blanks followed by the end of the line or by a character other than `(` and `{` leaves no match |
| TemplatePatterns.TailBlockedAfterGroup | tools/analyze_template.py:11 | after the first `)` of a group, blanks followed by anything but `{` leave no match |
| TemplatePatterns.OpenBlocked | tools/analyze_template.py:11 | a directive name whose tail does not match gives no match of any directive at that `@` |
| TemplatePatterns.OpenMatchAtFirstAt | tools/analyze_template.py:11-13 | a match at the first `@` of the line is the line's open match |
| TemplatePatterns.OpenMatchNone | tools/analyze_template.py:11-12 | a line where no `@` starts a match has no open match |
| TemplatePatterns.IsCloserSpec | tools/analyze_template.py:16 | a line is a closer exactly when `^\s*\}` matches it |
| TemplatePatterns.CloserIgnoresSuffix | tools/analyze_template.py:16 | leading blanks then `}` make a closer, whatever follows (the `@else/@empty/@case` suffix never decides) |
| TemplatePatterns.NonCloserFirstChar | tools/analyze_template.py:16 | a line whose first non-blank character is not `}` is never a closer |
| AnalyzeTemplate.Analyze | tools/analyze_template.py:8-27 | the loop with its in-place stack prints exactly the report of the document: the unmatched closers as found, then the verdict |
| AnalyzeTemplate.ReportVerdict | tools/analyze_template.py:22-27 | after the loop: the header and one line per entry, bottom of the stack first, or "all closed" for an empty stack |
| AnalyzeTemplate.StepCases | tools/analyze_template.py:11-20 | one line pushes at most one entry (its leftmost directive with its line number); a closer removes only the top entry; a closer on an empty stack leaves it empty and is reported with its number; other lines change nothing |
| AnalyzeTemplate.StepBothPatterns | tools/analyze_template.py:11-20 | a line matching both patterns (`} @else {`) pushes then pops its own entry: the stack and the reports are unchanged |
| AnalyzeTemplate.ScanNext | tools/analyze_template.py:9 | the pass over one more line is the loop body applied to that line with its 1-based number |
| AnalyzeTemplate.PushValid | tools/analyze_template.py:12-14 | pushing the new line's entry keeps the stack in opening order and each entry on an opener line |
| AnalyzeTemplate.PopValid | tools/analyze_template.py:17-18 | popping the top entry keeps the rest of the stack valid |
| AnalyzeTemplate.StepWellFormed | tools/analyze_template.py:9-20 | one line keeps the stack and the reports in line order, each at a line of the right kind |
| AnalyzeTemplate.ScanWellFormed | tools/analyze_template.py:8-20 | stack entries have strictly increasing line numbers in 1..n, each on a line whose open match is that directive; reports are strictly increasing, one per line at most, each a closer that opens nothing |
| AnalyzeTemplate.ScanCounts | tools/analyze_template.py:8-20 | the stack size is the number of open matches minus the closers that found a non-empty stack, and never negative |
| AnalyzeTemplate.ScanUnmatchedPrefix | tools/analyze_template.py:16-20 | reports made on a prefix of the lines are never changed; later reports carry later line numbers |
| AnalyzeTemplate.UnmatchedExactly | tools/analyze_template.py:16-20 | line n is reported exactly when it is a closer, opens nothing, and the lines before it left the stack empty |
| AnalyzeTemplate.ScanOrdered | tools/analyze_template.py:9-14 | the stack is in strictly increasing line order |
| AnalyzeTemplate.ReportAllClosed | tools/analyze_template.py:22-27 | "All control blocks closed" is printed exactly when the stack ends empty, exactly when opens plus unmatched closers equal closers; it is then the last line printed and follows only the unmatched closers |
| AnalyzeTemplate.BalancedExactly | tools/analyze_template.py:16-27 | the report is "All control blocks closed" alone exactly when no closer was unmatched and the document has as many closers as lines that open a block |
| AnalyzeTemplate.OutputUnclosed | tools/analyze_template.py:22-25 | with blocks left open, the output is the reports, the header, then one line per entry in stack order with increasing line numbers, and nothing else |
| AnalyzeTemplate.ReportUnclosed | tools/analyze_template.py:22-25 | the report of a document with blocks left open lists them after the header, earliest opened first, and nothing else |
| AnalyzeTemplate.ReportUnmatchedFirst | tools/analyze_template.py:16-27 | unmatched closers are printed first, in strictly increasing line order, each at a closer line of the document, and none is printed after the verdict starts |
| AnalyzeTemplate.ClassifyLanguages | tools/analyze_template.py:11-16 | a line opens a block exactly when the open pattern matches somewhere in it, and closes exactly when the close pattern matches at its start |
| AnalyzeTemplate.ValidOnLines | tools/analyze_template.py:9-20 | a valid stack names lines whose open match is its directive, and valid reports name closer lines without an open match |
| AnalyzeTemplate.ScanProvenance | tools/analyze_template.py:9-20 | each block left open names a line whose leftmost open match is that directive; each reported closer names a closer line that opens nothing |
| TemplateExamples.IfLine | tools/analyze_template.py:11-16 | `@if (x) {` opens an `if` block and is not a closer |
| TemplateExamples.SwitchLine | tools/analyze_template.py:11-16 | `@switch (x) {` opens a `switch` block and is not a closer |
| TemplateExamples.CaseLabelLine | tools/analyze_template.py:10-16 | `@case 'a' {` opens nothing, although the comment lists this form |
| TemplateExamples.NestedParenLine | tools/analyze_template.py:11 | `@if (f(x)) {` opens nothing: the group stops at the first `)` |
| TemplateExamples.WordBoundaryLine | tools/analyze_template.py:11 | `@iffy {` opens nothing: `\b` rejects a longer word |
| TemplateExamples.NonAsciiAfterNameLine | tools/analyze_template.py:11 | `@ifé {` opens nothing, as with Python's Unicode `\b` |
| TemplateExamples.ElseLine | tools/analyze_template.py:11-16 | `} @else {` both opens an `else` block and closes |
| TemplateExamples.CaseCloserLine | tools/analyze_template.py:11-16 | `} @case` closes and opens nothing |
| TemplateExamples.CloserLine | tools/analyze_template.py:11-16 | `}` and `} ` close and open nothing |
| TemplateExamples.TextLine | tools/analyze_template.py:11-16 | `text` and `  text` neither open nor close |
| TemplateExamples.BalancedDocument | tools/analyze_template.py:8-27 | `@if (x) {` / `  text` / `}` gives only "All control blocks closed" |
| TemplateExamples.UnclosedDocument | tools/analyze_template.py:8-27 | `@if (x) {` / `  text` gives the header and `if opened at 1` |
| TemplateExamples.StrayCloserDocument | tools/analyze_template.py:8-27 | `}` alone gives `Unmatched closing brace at 1` and then "All control blocks closed" |
| TemplateExamples.IfElseDocument | tools/analyze_template.py:8-27 | `@if (x) {` / `} @else {` / `}` gives only "All control blocks closed" |
| TemplateExamples.SwitchCaseDocument | tools/analyze_template.py:8-27 | the switch document with a quoted case label gives `Unmatched closing brace at 5` and then "All control blocks closed" |
| TemplateExamples.SwitchCaseScan | tools/analyze_template.py:8-20 | the switch document's lines leave an empty stack and one report, at line 5 |
| TemplateExamples.BalancedText | tools/analyze_template.py:8-27 | the lines `@if (x) {`, `  text`, `}` give only "All control blocks closed" |
| TemplateExamples.UnclosedText | tools/analyze_template.py:8-27 | the lines `@if (x) {`, `  text` give the header and `if opened at 1` |
| TemplateExamples.StrayCloserText | tools/analyze_template.py:8-27 | the line `}` gives `Unmatched closing brace at 1` and then "All control blocks closed" |
| TemplateExamples.IfElseText | tools/analyze_template.py:8-27 | the lines `@if (x) {`, `} @else {`, `}` give only "All control blocks closed" |
| TemplateExamples.SwitchCaseText | tools/analyze_template.py:8-27 | the lines `@switch (x) {`, `@case 'a' {`, `text`, `} @case`, `} ` give `Unmatched closing brace at 5` and then "All control blocks closed" |

## Left out

- Reading the template (`tools/analyze_template.py:2-3`): the hard-coded path and `open(...).read()`. The model takes the lines as a parameter.
- Splitting into lines (`tools/analyze_template.py:7`): the semantics of `str.splitlines()`, including its Unicode line separators, is library behaviour. The lines are taken as already split.
- The unused `pattern` regex (`tools/analyze_template.py:5`) and the unused `sys` import (line 1): they do not affect behaviour.
- Print formatting (`tools/analyze_template.py:20,23,25,27`): each printed line is one `Event` value, not text on standard output.
- The Unicode database behind `\s`: `IsSpace` lists the characters that `str.isspace` accepts as a fixed set rather than deriving them.
