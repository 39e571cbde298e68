/**
 * Concrete documents worked through the model: the shapes the checker is meant for,
 * and the lines where the open pattern behaves differently from what its comment
 * at tools/analyze_template.py:10 suggests.
 */
module TemplateExamples {
  import opened TemplatePatterns
  import opened AnalyzeTemplate

  // ---------------------------------------------------------------------------
  // Single lines
  // ---------------------------------------------------------------------------

  /** `@if (x) {` opens an `if` block and is not a closer. */
  lemma IfLine(s: string)
    requires s == "@if (x) {"
    ensures Classify(s) == LineKind(Some(If), false)
  {
    assert NameAt(s, 1, If);
    OpenGrouped(s, 0, If, 4, 6, 9);
    OpenMatchAtFirstAt(s, 0, If);
    assert SkipSpaces(s, 0) == 0;
  }

  /** `@switch (x) {` opens a `switch` block and is not a closer. */
  lemma SwitchLine(s: string)
    requires s == "@switch (x) {"
    ensures Classify(s) == LineKind(Some(Switch), false)
  {
    assert NameAt(s, 1, Switch);
    OpenGrouped(s, 0, Switch, 8, 10, 13);
    OpenMatchAtFirstAt(s, 0, Switch);
    assert SkipSpaces(s, 0) == 0;
  }

  /**
   * `@case 'a' {` opens nothing: after `case` the pattern needs `(` or `{`, and the
   * quoted label is neither, although the comment on the pattern lists this form.
   */
  lemma CaseLabelLine(s: string)
    requires s == "@case 'a' {"
    ensures Classify(s) == LineKind(None, false)
  {
    assert NameAt(s, 1, Case);
    TailBlockedAfterBlanks(s, 5, 6);
    OpenBlocked(s, 0, Case);
    OpenMatchNone(s);
    assert SkipSpaces(s, 0) == 0;
  }

  /** `@if (f(x)) {` opens nothing: the group stops at the first `)`, and the `)` after it is not `{`. */
  lemma NestedParenLine(s: string)
    requires s == "@if (f(x)) {"
    ensures OpenMatch(s) == None
  {
    assert NameAt(s, 1, If);
    TailBlockedAfterGroup(s, 3, 4, 8, 9);
    OpenBlocked(s, 0, If);
    OpenMatchNone(s);
  }

  /** `@iffy {` opens nothing: `\b` rejects a directive name followed by more word characters. */
  lemma WordBoundaryLine(s: string)
    requires s == "@iffy {"
    ensures OpenMatch(s) == None
  {
    forall k ensures !NameAt(s, 1, k) {
      if k == If {
        assert IsWordChar(s[3]);
      } else {
        assert s[1] != NameChar(k, 0);
      }
    }
    OpenMatchNone(s);
  }

  /**
   * `@ifé {` opens nothing. With ASCII word characters `\b` holds after `if`, but the
   * tail then needs a blank, `(` or `{`, so the line has no match under either word set.
   */
  lemma NonAsciiAfterNameLine(s: string)
    requires s == "@ifé {"
    ensures OpenMatch(s) == None
  {
    assert NameAt(s, 1, If);
    TailBlockedAfterBlanks(s, 3, 3);
    OpenBlocked(s, 0, If);
    OpenMatchNone(s);
  }

  /** `} @else {` both closes and opens an `else` block. */
  lemma ElseLine(s: string)
    requires s == "} @else {"
    ensures Classify(s) == LineKind(Some(Else), true)
  {
    assert NameAt(s, 3, Else);
    OpenPlain(s, 2, Else, 9);
    OpenMatchAtFirstAt(s, 2, Else);
    assert SkipSpaces(s, 0) == 0;
  }

  /** `} @case` is a closer; its `@case` has no `{` after it, so it opens nothing. */
  lemma CaseCloserLine(s: string)
    requires s == "} @case"
    ensures Classify(s) == LineKind(None, true)
  {
    assert NameAt(s, 3, Case);
    TailBlockedAfterBlanks(s, 7, 7);
    OpenBlocked(s, 2, Case);
    OpenMatchNone(s);
    assert SkipSpaces(s, 0) == 0;
  }

  /** A bare `}`, with or without trailing blanks, is a closer. */
  lemma CloserLine(s: string)
    requires s == "}" || s == "} "
    ensures Classify(s) == LineKind(None, true)
  {
    OpenMatchNone(s);
    assert SkipSpaces(s, 0) == 0;
  }

  /** Plain text, indented or not, is neither. */
  lemma TextLine(s: string)
    requires s == "text" || s == "  text"
    ensures Classify(s) == LineKind(None, false)
  {
    OpenMatchNone(s);
    if s == "  text" {
      SkipSpacesExact(s, 0, 2);
    } else {
      SkipSpacesExact(s, 0, 0);
    }
  }

  // ---------------------------------------------------------------------------
  // Whole documents
  //
  // Each document is stated over the classification of its lines, which the
  // single-line lemmas above establish for the lines quoted in its comment.
  // ---------------------------------------------------------------------------

  /** `@if (x) {`, `  text`, `}`: a block opened and closed, so all control blocks are closed. */
  lemma BalancedDocument(lines: seq<string>)
    requires |lines| == 3
    requires Classify(lines[0]) == LineKind(Some(If), false)
    requires Classify(lines[1]) == LineKind(None, false)
    requires Classify(lines[2]) == LineKind(None, true)
    ensures Report(lines) == [AllControlBlocksClosed]
  {
    var kinds := Classified(lines);
    ScanNext(kinds, 0);
    ScanNext(kinds, 1);
    ScanNext(kinds, 2);
    assert kinds[..3] == kinds;
  }

  /** `@if (x) {`, `  text`: a block never closed is listed with its directive and line. */
  lemma UnclosedDocument(lines: seq<string>)
    requires |lines| == 2
    requires Classify(lines[0]) == LineKind(Some(If), false)
    requires Classify(lines[1]) == LineKind(None, false)
    ensures Report(lines) == [UnclosedControlBlocks, OpenedAt(If, 1)]
  {
    var kinds := Classified(lines);
    ScanNext(kinds, 0);
    ScanNext(kinds, 1);
    assert kinds[..2] == kinds;
  }

  /** `}` alone: the closer is reported, and the verdict is still that all blocks are closed. */
  lemma StrayCloserDocument(lines: seq<string>)
    requires |lines| == 1
    requires Classify(lines[0]) == LineKind(None, true)
    ensures Report(lines) == [UnmatchedClosingBrace(1), AllControlBlocksClosed]
  {
    var kinds := Classified(lines);
    ScanNext(kinds, 0);
    assert kinds[..1] == kinds;
  }

  /** `@if (x) {`, `} @else {`, `}`: the middle line pops and pushes, the last pops. */
  lemma IfElseDocument(lines: seq<string>)
    requires |lines| == 3
    requires Classify(lines[0]) == LineKind(Some(If), false)
    requires Classify(lines[1]) == LineKind(Some(Else), true)
    requires Classify(lines[2]) == LineKind(None, true)
    ensures Report(lines) == [AllControlBlocksClosed]
  {
    var kinds := Classified(lines);
    ScanNext(kinds, 0);
    ScanNext(kinds, 1);
    ScanNext(kinds, 2);
    assert kinds[..3] == kinds;
  }

  /**
   * `@switch (x) {`, `@case 'a' {`, `text`, `} @case`, `} `: the label line opens
   * nothing, so the first closer pops the switch and the second finds the stack empty.
   */
  lemma SwitchCaseDocument(lines: seq<string>)
    requires |lines| == 5
    requires Classify(lines[0]) == LineKind(Some(Switch), false)
    requires Classify(lines[1]) == LineKind(None, false) && Classify(lines[2]) == LineKind(None, false)
    requires Classify(lines[3]) == LineKind(None, true) && Classify(lines[4]) == LineKind(None, true)
    ensures Report(lines) == [UnmatchedClosingBrace(5), AllControlBlocksClosed]
  {
    SwitchCaseScan(Classified(lines));
  }

  /** The scan of the switch document, one line at a time. */
  lemma SwitchCaseScan(kinds: seq<LineKind>)
    requires |kinds| == 5
    requires kinds[0] == LineKind(Some(Switch), false)
    requires kinds[1] == LineKind(None, false) && kinds[2] == LineKind(None, false)
    requires kinds[3] == LineKind(None, true) && kinds[4] == LineKind(None, true)
    ensures Scan(kinds) == State([], [5])
  {
    ScanNext(kinds, 0);
    assert Scan(kinds[..1]) == State([Entry(Switch, 1)], []);
    ScanNext(kinds, 1);
    ScanNext(kinds, 2);
    assert Scan(kinds[..3]) == State([Entry(Switch, 1)], []);
    ScanNext(kinds, 3);
    assert Scan(kinds[..4]) == State([], []);
    ScanNext(kinds, 4);
    assert kinds[..5] == kinds;
  }

  // ---------------------------------------------------------------------------
  // The documents as text
  // ---------------------------------------------------------------------------

  lemma BalancedText(lines: seq<string>)
    requires lines == ["@if (x) {", "  text", "}"]
    ensures Report(lines) == [AllControlBlocksClosed]
  {
    IfLine(lines[0]);
    TextLine(lines[1]);
    CloserLine(lines[2]);
    BalancedDocument(lines);
  }

  lemma UnclosedText(lines: seq<string>)
    requires lines == ["@if (x) {", "  text"]
    ensures Report(lines) == [UnclosedControlBlocks, OpenedAt(If, 1)]
  {
    IfLine(lines[0]);
    TextLine(lines[1]);
    UnclosedDocument(lines);
  }

  lemma StrayCloserText(lines: seq<string>)
    requires lines == ["}"]
    ensures Report(lines) == [UnmatchedClosingBrace(1), AllControlBlocksClosed]
  {
    CloserLine(lines[0]);
    StrayCloserDocument(lines);
  }

  lemma IfElseText(lines: seq<string>)
    requires lines == ["@if (x) {", "} @else {", "}"]
    ensures Report(lines) == [AllControlBlocksClosed]
  {
    IfLine(lines[0]);
    ElseLine(lines[1]);
    CloserLine(lines[2]);
    IfElseDocument(lines);
  }

  lemma SwitchCaseText(lines: seq<string>)
    requires lines == ["@switch (x) {", "@case 'a' {", "text", "} @case", "} "]
    ensures Report(lines) == [UnmatchedClosingBrace(5), AllControlBlocksClosed]
  {
    SwitchLine(lines[0]);
    CaseLabelLine(lines[1]);
    TextLine(lines[2]);
    CaseCloserLine(lines[3]);
    CloserLine(lines[4]);
    SwitchCaseDocument(lines);
  }
}
