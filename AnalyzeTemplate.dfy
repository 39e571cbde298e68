/**
 * The control-block balance checker of tools/analyze_template.py.
 *
 * One pass over the lines of a template keeps a stack of open directives:
 * a line matching the open pattern pushes (directive, line number); a line
 * matching the close pattern then pops one entry, or, when the stack is
 * empty, reports an unmatched closing brace. After the last line the checker
 * either lists what is left on the stack or says that all blocks are closed.
 *
 * Scan and Report are the specification of the pass; Analyze is the
 * loop itself, proved to produce exactly Report.
 */
module AnalyzeTemplate {
  import opened TemplatePatterns

  /** A block still open: its directive and the 1-based line that opened it. */
  datatype Entry = Entry(keyword: Keyword, line: nat)

  /** What the pass has built after a prefix of the lines: the stack, and the closers reported so far. */
  datatype State = State(stack: seq<Entry>, unmatched: seq<nat>)

  /** One printed line of the report. */
  datatype Event =
    | UnmatchedClosingBrace(line: nat)       // "Unmatched closing brace at <line>"
    | UnclosedControlBlocks                  // "Unclosed control blocks:"
    | OpenedAt(keyword: Keyword, line: nat)  // "<keyword> opened at <line>"
    | AllControlBlocksClosed                 // "All control blocks closed"

  /** What the two patterns say about one line: the directive it opens, if any, and whether it closes. */
  datatype LineKind = LineKind(opens: Option<Keyword>, closes: bool)

  /** The two regular-expression tests the loop makes on a line. */
  function Classify(line: string): LineKind
  {
    LineKind(OpenMatch(line), IsCloser(line))
  }

  function Classified(lines: seq<string>): seq<LineKind>
  {
    seq(|lines|, i requires 0 <= i < |lines| => Classify(lines[i]))
  }

  /** The body of the loop for line number n: push on an open match, then pop or report on a closer. */
  function Step(st: State, kind: LineKind, n: nat): State
  {
    var pushed := match kind.opens
      case Some(k) => st.stack + [Entry(k, n)]
      case None => st.stack;
    if !kind.closes then State(pushed, st.unmatched)
    else if pushed != [] then State(pushed[..|pushed| - 1], st.unmatched)
    else State(pushed, st.unmatched + [n])
  }

  /** The state after the loop has run over every line, numbering them from 1. */
  function Scan(kinds: seq<LineKind>): State
    decreases |kinds|
  {
    if kinds == [] then State([], [])
    else Step(Scan(kinds[..|kinds| - 1]), kinds[|kinds| - 1], |kinds|)
  }

  /** The number of lines that match the open pattern. */
  function Opens(kinds: seq<LineKind>): nat
    decreases |kinds|
  {
    if kinds == [] then 0
    else Opens(kinds[..|kinds| - 1]) + if kinds[|kinds| - 1].opens.Some? then 1 else 0
  }

  /** The number of lines that match the close pattern. */
  function Closers(kinds: seq<LineKind>): nat
    decreases |kinds|
  {
    if kinds == [] then 0
    else Closers(kinds[..|kinds| - 1]) + if kinds[|kinds| - 1].closes then 1 else 0
  }

  function UnmatchedEvents(unmatched: seq<nat>): seq<Event>
  {
    seq(|unmatched|, i requires 0 <= i < |unmatched| => UnmatchedClosingBrace(unmatched[i]))
  }

  function EntryEvents(stack: seq<Entry>): seq<Event>
  {
    seq(|stack|, i requires 0 <= i < |stack| => OpenedAt(stack[i].keyword, stack[i].line))
  }

  /** The closing part of the report, printed after the loop. */
  function Verdict(stack: seq<Entry>): seq<Event>
  {
    if stack != [] then [UnclosedControlBlocks] + EntryEvents(stack)
    else [AllControlBlocksClosed]
  }

  /** Everything printed for a final state: the closers reported during the loop, then the verdict. */
  function Output(st: State): seq<Event>
  {
    UnmatchedEvents(st.unmatched) + Verdict(st.stack)
  }

  /** Everything the checker prints for a document, in order. */
  function Report(lines: seq<string>): seq<Event>
  {
    Output(Scan(Classified(lines)))
  }

  // ---------------------------------------------------------------------------
  // The checker
  // ---------------------------------------------------------------------------

  /** The pass itself: a loop over the lines with a stack that is pushed and popped in place. */
  method Analyze(lines: seq<string>) returns (events: seq<Event>)
    ensures events == Report(lines)
  {
    ghost var kinds := Classified(lines);
    var stack: seq<Entry> := [];
    events := [];
    for i := 0 to |lines|
      invariant stack == Scan(kinds[..i]).stack
      invariant events == UnmatchedEvents(Scan(kinds[..i]).unmatched)
    {
      ScanNext(kinds, i);
      ghost var st := Scan(kinds[..i]);
      var kind := Classify(lines[i]);
      assert kinds[i] == kind;
      if kind.opens.Some? {
        stack := stack + [Entry(kind.opens.value, i + 1)];
      }
      if kind.closes {
        if stack != [] {
          stack := stack[..|stack| - 1];
        } else {
          UnmatchedEventsNext(st.unmatched, i + 1);
          events := events + [UnmatchedClosingBrace(i + 1)];
        }
      }
    }
    assert kinds[..|lines|] == kinds;
    var verdict := ReportVerdict(stack);
    events := events + verdict;
  }

  /** The report printed after the loop: the blocks left open, bottom of the stack first, or that all are closed. */
  method ReportVerdict(stack: seq<Entry>) returns (events: seq<Event>)
    ensures events == Verdict(stack)
  {
    if stack != [] {
      events := [UnclosedControlBlocks];
      for j := 0 to |stack|
        invariant events == [UnclosedControlBlocks] + EntryEvents(stack[..j])
      {
        EntryEventsNext(stack, j);
        events := events + [OpenedAt(stack[j].keyword, stack[j].line)];
      }
      assert stack[..|stack|] == stack;
    } else {
      events := [AllControlBlocksClosed];
    }
  }

  lemma UnmatchedEventsNext(unmatched: seq<nat>, n: nat)
    ensures UnmatchedEvents(unmatched + [n]) == UnmatchedEvents(unmatched) + [UnmatchedClosingBrace(n)]
  {
  }

  lemma EntryEventsNext(stack: seq<Entry>, j: nat)
    requires j < |stack|
    ensures EntryEvents(stack[..j + 1]) == EntryEvents(stack[..j]) + [OpenedAt(stack[j].keyword, stack[j].line)]
  {
  }

  // ---------------------------------------------------------------------------
  // One line
  // ---------------------------------------------------------------------------

  /**
   * The per-line transition: a line pushes at most one entry, the directive of its
   * leftmost open match with this line's number; a closer removes only the top entry;
   * a closer that finds the stack empty leaves it empty and is reported with its number.
   */
  lemma StepCases(st: State, kind: LineKind, n: nat)
    ensures var r := Step(st, kind, n);
      && (kind.opens.Some? && !kind.closes ==>
            r == State(st.stack + [Entry(kind.opens.value, n)], st.unmatched))
      && (kind.opens.None? && kind.closes && st.stack != [] ==>
            r == State(st.stack[..|st.stack| - 1], st.unmatched))
      && (kind.opens.None? && kind.closes && st.stack == [] ==>
            r == State([], st.unmatched + [n]))
      && (kind.opens.None? && !kind.closes ==> r == st)
  {
  }

  /** A line matching both patterns (`} @else {`) pushes and then pops its own entry: nothing changes. */
  lemma StepBothPatterns(st: State, kind: LineKind, n: nat)
    requires kind.opens.Some? && kind.closes
    ensures Step(st, kind, n) == st
  {
  }

  // ---------------------------------------------------------------------------
  // The whole pass
  // ---------------------------------------------------------------------------

  /** Stack entries are in opening order and each comes from a line that matched the open pattern. */
  predicate EntriesValid(stack: seq<Entry>, kinds: seq<LineKind>)
  {
    (forall i, j :: 0 <= i < j < |stack| ==> stack[i].line < stack[j].line) &&
    (forall i :: 0 <= i < |stack| ==>
       1 <= stack[i].line <= |kinds| && kinds[stack[i].line - 1].opens == Some(stack[i].keyword))
  }

  /** Reported closers are in line order, at most one per line, each a closer line that opens nothing. */
  predicate UnmatchedValid(unmatched: seq<nat>, kinds: seq<LineKind>)
  {
    (forall i, j :: 0 <= i < j < |unmatched| ==> unmatched[i] < unmatched[j]) &&
    (forall i :: 0 <= i < |unmatched| ==>
       1 <= unmatched[i] <= |kinds| && kinds[unmatched[i] - 1].closes &&
       kinds[unmatched[i] - 1].opens.None?)
  }

  /** Scan read one line further: the loop body applied to the next line. */
  lemma ScanNext(kinds: seq<LineKind>, i: nat)
    requires i < |kinds|
    ensures Scan(kinds[..i + 1]) == Step(Scan(kinds[..i]), kinds[i], i + 1)
  {
    assert kinds[..i + 1][..i] == kinds[..i];
  }

  /** Pushing an entry for a new last line that opens that directive keeps the stack in order. */
  lemma PushValid(stack: seq<Entry>, init: seq<LineKind>, kind: LineKind)
    requires EntriesValid(stack, init) && kind.opens.Some?
    ensures EntriesValid(stack + [Entry(kind.opens.value, |init| + 1)], init + [kind])
  {
    var kinds, pushed := init + [kind], stack + [Entry(kind.opens.value, |init| + 1)];
    forall i | 0 <= i < |pushed|
      ensures 1 <= pushed[i].line <= |kinds| && kinds[pushed[i].line - 1].opens == Some(pushed[i].keyword)
    {
      if i < |stack| {
        assert pushed[i] == stack[i];
        assert kinds[stack[i].line - 1] == init[stack[i].line - 1];
      }
    }
  }

  /** Removing the top entry keeps the rest of the stack in order. */
  lemma PopValid(stack: seq<Entry>, kinds: seq<LineKind>)
    requires EntriesValid(stack, kinds) && stack != []
    ensures EntriesValid(stack[..|stack| - 1], kinds)
  {
  }

  /** A stack valid for a prefix of the document stays valid for the longer document. */
  lemma EntriesValidExtend(stack: seq<Entry>, init: seq<LineKind>, kind: LineKind)
    requires EntriesValid(stack, init)
    ensures EntriesValid(stack, init + [kind])
  {
    var kinds := init + [kind];
    forall i | 0 <= i < |stack|
      ensures kinds[stack[i].line - 1] == init[stack[i].line - 1]
    {
    }
  }

  /** Reports valid for a prefix of the document stay valid for the longer one, and may gain the new last line. */
  lemma UnmatchedValidExtend(unmatched: seq<nat>, init: seq<LineKind>, kind: LineKind)
    requires UnmatchedValid(unmatched, init)
    ensures UnmatchedValid(unmatched, init + [kind])
    ensures kind.closes && kind.opens.None? ==> UnmatchedValid(unmatched + [|init| + 1], init + [kind])
  {
    var kinds := init + [kind];
    forall i | 0 <= i < |unmatched|
      ensures kinds[unmatched[i] - 1] == init[unmatched[i] - 1]
    {
    }
  }

  /** One line keeps the order and provenance of the stack and of the reports. */
  lemma StepWellFormed(st: State, init: seq<LineKind>, kind: LineKind)
    requires EntriesValid(st.stack, init) && UnmatchedValid(st.unmatched, init)
    ensures var r, kinds := Step(st, kind, |init| + 1), init + [kind];
      EntriesValid(r.stack, kinds) && UnmatchedValid(r.unmatched, kinds)
  {
    var kinds := init + [kind];
    var pushed := if kind.opens.Some? then st.stack + [Entry(kind.opens.value, |init| + 1)] else st.stack;
    if kind.opens.Some? {
      PushValid(st.stack, init, kind);
    } else {
      EntriesValidExtend(st.stack, init, kind);
    }
    UnmatchedValidExtend(st.unmatched, init, kind);
    if kind.closes && pushed != [] {
      PopValid(pushed, kinds);
    }
  }

  /** The order and provenance invariant of the stack and of the reports. */
  lemma {:induction false} ScanWellFormed(kinds: seq<LineKind>)
    ensures EntriesValid(Scan(kinds).stack, kinds)
    ensures UnmatchedValid(Scan(kinds).unmatched, kinds)
    decreases |kinds|
  {
    if kinds != [] {
      var init := kinds[..|kinds| - 1];
      ScanWellFormed(init);
      assert init + [kinds[|kinds| - 1]] == kinds;
      StepWellFormed(Scan(init), init, kinds[|kinds| - 1]);
    }
  }

  /**
   * The size invariant: every line that matched the open pattern is either still on the
   * stack or was popped by a closer that found the stack non-empty. So the stack holds
   * exactly the opens minus the matched closers, and never goes below empty.
   */
  lemma {:induction false} ScanCounts(kinds: seq<LineKind>)
    ensures |Scan(kinds).unmatched| <= Closers(kinds)
    ensures |Scan(kinds).stack| == Opens(kinds) - (Closers(kinds) - |Scan(kinds).unmatched|)
    decreases |kinds|
  {
    if kinds != [] {
      ScanCounts(kinds[..|kinds| - 1]);
    }
  }

  /** Reports made while reading a prefix are never revised; later reports carry later line numbers. */
  lemma {:induction false} ScanUnmatchedPrefix(kinds: seq<LineKind>, m: nat)
    requires m <= |kinds|
    ensures var u, w := Scan(kinds[..m]).unmatched, Scan(kinds).unmatched;
      |u| <= |w| && w[..|u|] == u && forall i :: |u| <= i < |w| ==> w[i] > m
    decreases |kinds|
  {
    if m < |kinds| {
      var init := kinds[..|kinds| - 1];
      assert init[..m] == kinds[..m];
      ScanUnmatchedPrefix(init, m);
    } else {
      assert kinds[..m] == kinds;
    }
  }

  /**
   * Line n is reported as an unmatched closing brace exactly when it is a closer,
   * opens nothing itself, and the lines before it left the stack empty.
   */
  lemma UnmatchedExactly(kinds: seq<LineKind>, n: nat)
    requires 1 <= n <= |kinds|
    ensures n in Scan(kinds).unmatched <==>
      kinds[n - 1].closes && kinds[n - 1].opens.None? && Scan(kinds[..n - 1]).stack == []
  {
    var before := kinds[..n - 1];
    assert kinds[..n][..n - 1] == before;
    ScanNext(kinds, n - 1);
    var st := Scan(before);
    var u, w := Scan(kinds[..n]).unmatched, Scan(kinds).unmatched;
    assert u == Step(st, kinds[n - 1], n).unmatched;
    ScanWellFormed(before);
    assert n !in st.unmatched;
    assert n in u <==> kinds[n - 1].closes && kinds[n - 1].opens.None? && st.stack == [] by {
      StepCases(st, kinds[n - 1], n);
    }
    ScanUnmatchedPrefix(kinds, n);
    InPrefix(u, w, n);
  }

  /** A value occurs in a sequence that is extended only by larger values exactly when it occurs in the prefix. */
  lemma InPrefix(u: seq<nat>, w: seq<nat>, n: nat)
    requires |u| <= |w| && w[..|u|] == u && forall i :: |u| <= i < |w| ==> w[i] > n
    ensures n in w <==> n in u
  {
    if n in w {
      var i :| 0 <= i < |w| && w[i] == n;
      assert u[i] == w[..|u|][i];
    }
    if n in u {
      var i :| 0 <= i < |u| && u[i] == n;
      assert w[..|u|][i] == w[i];
    }
  }

  // ---------------------------------------------------------------------------
  // The report
  // ---------------------------------------------------------------------------

  /**
   * The verdict: "All control blocks closed" is printed exactly when the stack is empty
   * at the end, that is when every line that opened a block was matched by a closer,
   * even if unmatched closers were reported before it; it is then the last line printed.
   */
  lemma ReportAllClosed(kinds: seq<LineKind>)
    ensures var st, r := Scan(kinds), Output(Scan(kinds));
      && ((AllControlBlocksClosed in r) <==> st.stack == [])
      && ((AllControlBlocksClosed in r) <==> Opens(kinds) + |st.unmatched| == Closers(kinds))
      && ((AllControlBlocksClosed in r) <==> r[|r| - 1] == AllControlBlocksClosed)
      && (st.stack == [] ==> |r| == |st.unmatched| + 1)
  {
    ScanCounts(kinds);
    var st := Scan(kinds);
    var ue, v := UnmatchedEvents(st.unmatched), Verdict(st.stack);
    assert AllControlBlocksClosed !in ue;
    assert (AllControlBlocksClosed in v) <==> st.stack == [];
    assert (ue + v)[|ue + v| - 1] == v[|v| - 1];
  }

  /**
   * The report is the verdict "All control blocks closed" alone exactly when no closer
   * was unmatched and there were as many closers as lines that opened a block.
   */
  lemma BalancedExactly(kinds: seq<LineKind>)
    ensures Output(Scan(kinds)) == [AllControlBlocksClosed] <==>
      Scan(kinds).unmatched == [] && Opens(kinds) == Closers(kinds)
  {
    ScanCounts(kinds);
    var st := Scan(kinds);
    assert |UnmatchedEvents(st.unmatched)| == |st.unmatched|;
    assert st.stack != [] ==> |Verdict(st.stack)| == 1 + |st.stack|;
  }

  /**
   * The layout of the report r when blocks are left open: after the h unmatched closers
   * comes the header, then one line per entry of the stack, bottom first, in increasing
   * line order, and nothing else.
   */
  ghost predicate UnclosedLayout(r: seq<Event>, h: nat, stack: seq<Entry>)
  {
    && |r| == h + 1 + |stack|
    && r[h] == UnclosedControlBlocks
    && (forall i :: h < i < |r| ==> r[i] == OpenedAt(stack[i - h - 1].keyword, stack[i - h - 1].line))
    && (forall i, j :: h < i < j < |r| ==> r[i].line < r[j].line)
  }

  /** The layout of the output for a state with blocks left open, entries in stack order. */
  lemma OutputUnclosed(st: State)
    requires st.stack != []
    requires forall i, j :: 0 <= i < j < |st.stack| ==> st.stack[i].line < st.stack[j].line
    ensures UnclosedLayout(Output(st), |st.unmatched|, st.stack)
  {
    var h, ue, v := |st.unmatched|, UnmatchedEvents(st.unmatched), Verdict(st.stack);
    var r := ue + v;
    forall i | h < i < |r|
      ensures r[i] == OpenedAt(st.stack[i - h - 1].keyword, st.stack[i - h - 1].line)
    {
      assert r[i] == v[i - h];
    }
  }

  /**
   * When blocks are left open, the report gives the header and then each of them once,
   * as its directive and opening line, earliest opened first; nothing else follows.
   */
  lemma ReportUnclosed(kinds: seq<LineKind>)
    requires Scan(kinds).stack != []
    ensures UnclosedLayout(Output(Scan(kinds)), |Scan(kinds).unmatched|, Scan(kinds).stack)
  {
    ScanOrdered(kinds);
    OutputUnclosed(Scan(kinds));
  }

  /** The stack is in opening order. */
  lemma ScanOrdered(kinds: seq<LineKind>)
    ensures var stack := Scan(kinds).stack;
      forall i, j :: 0 <= i < j < |stack| ==> stack[i].line < stack[j].line
  {
    ScanWellFormed(kinds);
  }

  /** The unmatched closers are printed first, in increasing line order, each at a closer line of the document. */
  lemma ReportUnmatchedFirst(kinds: seq<LineKind>)
    ensures var st, r := Scan(kinds), Output(Scan(kinds));
      && (forall i :: 0 <= i < |st.unmatched| ==> r[i] == UnmatchedClosingBrace(st.unmatched[i]))
      && (forall i, j :: 0 <= i < j < |st.unmatched| ==> r[i].line < r[j].line)
      && (forall i :: 0 <= i < |st.unmatched| ==> 1 <= r[i].line <= |kinds| && kinds[r[i].line - 1].closes)
      && (forall i :: |st.unmatched| <= i < |r| ==> !r[i].UnmatchedClosingBrace?)
  {
    var st := Scan(kinds);
    ScanWellFormed(kinds);
    var h, ue, v := |st.unmatched|, UnmatchedEvents(st.unmatched), Verdict(st.stack);
    var r := ue + v;
    forall i | 0 <= i < h
      ensures r[i] == UnmatchedClosingBrace(st.unmatched[i])
      ensures 1 <= r[i].line <= |kinds| && kinds[r[i].line - 1].closes
    {
      assert r[i] == ue[i];
    }
    forall i | h <= i < |r|
      ensures !r[i].UnmatchedClosingBrace?
    {
      assert r[i] == v[i - h];
    }
  }

  /**
   * A line opens a block exactly when the open pattern matches somewhere in it, and
   * closes exactly when the close pattern matches at its start.
   */
  lemma ClassifyLanguages(line: string)
    ensures Classify(line).opens.Some? <==> exists p: nat, k :: OpenSpan(line, p, k)
    ensures Classify(line).closes <==> exists n: nat :: CloseSpan(line, n)
  {
    OpenMatchSpec(line);
    IsCloserSpec(line);
  }

  /** An entry valid against the classified lines names a line whose leftmost open match is its directive. */
  lemma EntryOnLine(e: Entry, lines: seq<string>)
    requires 1 <= e.line <= |lines| && Classified(lines)[e.line - 1].opens == Some(e.keyword)
    ensures OpenMatch(lines[e.line - 1]) == Some(e.keyword)
  {
  }

  /** A report valid against the classified lines names a closer line that opens nothing. */
  lemma CloserOnLine(n: nat, lines: seq<string>)
    requires 1 <= n <= |lines| && Classified(lines)[n - 1].closes && Classified(lines)[n - 1].opens.None?
    ensures IsCloser(lines[n - 1]) && OpenMatch(lines[n - 1]).None?
  {
  }

  /** Validity against the classified lines, read back in terms of the two pattern tests. */
  lemma ValidOnLines(st: State, lines: seq<string>)
    requires EntriesValid(st.stack, Classified(lines)) && UnmatchedValid(st.unmatched, Classified(lines))
    ensures forall e :: e in st.stack ==> 1 <= e.line <= |lines| && OpenMatch(lines[e.line - 1]) == Some(e.keyword)
    ensures forall n :: n in st.unmatched ==>
      1 <= n <= |lines| && IsCloser(lines[n - 1]) && OpenMatch(lines[n - 1]).None?
  {
    forall e | e in st.stack
      ensures 1 <= e.line <= |lines| && OpenMatch(lines[e.line - 1]) == Some(e.keyword)
    {
      EntryOnLine(e, lines);
    }
    forall n | n in st.unmatched
      ensures 1 <= n <= |lines| && IsCloser(lines[n - 1]) && OpenMatch(lines[n - 1]).None?
    {
      CloserOnLine(n, lines);
    }
  }

  /**
   * Each block left open names a line of the document whose leftmost open match is
   * that directive; each unmatched closer names a closer line that opens nothing.
   */
  lemma ScanProvenance(lines: seq<string>)
    ensures var st := Scan(Classified(lines));
      && (forall e :: e in st.stack ==> 1 <= e.line <= |lines| && OpenMatch(lines[e.line - 1]) == Some(e.keyword))
      && (forall n :: n in st.unmatched ==>
            1 <= n <= |lines| && IsCloser(lines[n - 1]) && OpenMatch(lines[n - 1]).None?)
  {
    ScanWellFormed(Classified(lines));
    ValidOnLines(Scan(Classified(lines)), lines);
  }
}
