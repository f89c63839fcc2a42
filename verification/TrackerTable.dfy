/** Reading the marketplace tracker table out of a Markdown document, and why it
    reads back exactly the rows that were printed. */
module TrackerTable {
  import opened Texts
  import opened Sequences
  import opened Counting

  const PIPE: CodePoint := 0x7C
  const SPACE: CodePoint := 0x20
  const LF: CodePoint := 0x0A
  const CR: CodePoint := 0x0D
  const DASHES: Text := [0x2D, 0x2D, 0x2D]
  const HEADING: Text := T("## Tracker")
  const HEADING_MARK: Text := T("## ")
  const SURFACE: Text := T("surface")
  const STATUS: Text := T("status")
  const UNKNOWN: Text := T("unknown")

  predicate IsPipe(c: CodePoint) { c == PIPE }
  predicate IsBacktick(c: CodePoint) { c == 0x60 }

  // ---- lines ----

  /** The line boundaries of `str.splitlines`. */
  predicate LineBreak(c: CodePoint) {
    0x0A <= c <= 0x0D || 0x1C <= c <= 0x1E || c in {0x85, 0x2028, 0x2029}
  }

  function LineLength(t: Text): (n: nat)
    ensures n <= |t| && (n < |t| ==> LineBreak(t[n]))
    ensures forall i :: 0 <= i < n ==> !LineBreak(t[i])
  {
    if t == [] || LineBreak(t[0]) then 0 else 1 + LineLength(t[1..])
  }

  function BreakLength(t: Text): nat
    requires t != []
  {
    if t[0] == CR && |t| > 1 && t[1] == LF then 2 else 1
  }

  function SplitLines(t: Text): seq<Text>
    decreases |t|
  {
    if t == [] then []
    else
      var n := LineLength(t);
      if n == |t| then [t] else [t[..n]] + SplitLines(t[n + BreakLength(t[n..])..])
  }

  predicate OneLine(t: Text) { forall i :: 0 <= i < |t| ==> !LineBreak(t[i]) }

  // ---- the parser ----

  /** `s.split("|")`. */
  function SplitPipes(s: Text): (cells: seq<Text>)
    ensures cells != []
  {
    if s == [] then [[]]
    else
      var rest := SplitPipes(s[1..]);
      if s[0] == PIPE then [[]] + rest else [[s[0]] + rest[0]] + rest[1..]
  }

  function CleanCell(cell: Text): Text {
    Strip(Strip(cell, Whitespace), IsBacktick)
  }

  function Cells(stripped: Text): (cells: seq<Text>)
    ensures cells != []
  {
    var parts := SplitPipes(Strip(stripped, IsPipe));
    seq(|parts|, i requires 0 <= i < |parts| => CleanCell(parts[i]))
  }

  /** `dict(zip(headers, cells))`: of a repeated header the last cell stays. */
  function AsDict(headers: seq<Text>, cells: seq<Text>): map<Text, Text>
    requires |headers| == |cells|
  {
    if headers == [] then map[]
    else map[headers[0] := cells[0]] + AsDict(headers[1..], cells[1..])
  }

  datatype Scan = Scan(rows: seq<map<Text, Text>>, headers: Option<seq<Text>>, inTable: bool, ended: bool)

  const START: Scan := Scan([], None, false, false)

  function ScanLine(s: Scan, line: Text): Scan {
    var stripped := Strip(line, Whitespace);
    if s.ended then s
    else if stripped == HEADING then s.(inTable := true)
    else if s.inTable && HEADING_MARK <= stripped then s.(ended := true)
    else if !s.inTable then s
    else if !([PIPE] <= stripped) || Contains(stripped, DASHES) then s
    else
      var cells := Cells(stripped);
      if cells[0] == SURFACE then s.(headers := Some(cells))
      else if s.headers.Some? && |cells| == |s.headers.value| then
        s.(rows := s.rows + [AsDict(s.headers.value, cells)])
      else s
  }

  function ScanLines(s: Scan, lines: seq<Text>): Scan
    decreases |lines|
  {
    if lines == [] then s else ScanLines(ScanLine(s, lines[0]), lines[1..])
  }

  function ParseRows(text: Text): seq<map<Text, Text>> {
    ScanLines(START, SplitLines(text)).rows
  }

  /** `row.get("status", "unknown") or "unknown"`. */
  function StatusOf(row: map<Text, Text>): Text {
    if STATUS in row && row[STATUS] != [] then row[STATUS] else UNKNOWN
  }

  method ParseTracker(text: Text) returns (rows: seq<map<Text, Text>>, counts: map<Text, nat>)
    ensures rows == ParseRows(text)
    ensures Tallies(counts, rows, StatusOf)
  {
    var lines := SplitLines(text);
    var headers: Option<seq<Text>> := None;
    var inTable := false;
    rows := [];
    var i := 0;
    while i < |lines|
      invariant i <= |lines|
      invariant ScanLines(Scan(rows, headers, inTable, false), lines[i..]) == ScanLines(START, lines)
    {
      assert lines[i..][0] == lines[i] && lines[i..][1..] == lines[i + 1..];
      var stripped := Strip(lines[i], Whitespace);
      i := i + 1;
      if stripped == HEADING {
        inTable := true;
        continue;
      }
      if inTable && HEADING_MARK <= stripped {
        EndedScanStays(Scan(rows, headers, inTable, true), lines[i..]);
        break;
      }
      if !inTable { continue; }
      if !([PIPE] <= stripped) || Contains(stripped, DASHES) { continue; }
      var cells := Cells(stripped);
      if cells[0] == SURFACE {
        headers := Some(cells);
        continue;
      }
      if headers.Some? && |cells| == |headers.value| {
        rows := rows + [AsDict(headers.value, cells)];
      }
    }
    counts := Tally(rows, StatusOf);
  }

  lemma {:induction false} EndedScanStays(s: Scan, lines: seq<Text>)
    requires s.ended
    ensures ScanLines(s, lines) == s
    decreases |lines|
  {
    if lines != [] {
      EndedScanStays(s, lines[1..]);
    }
  }

  // ---- the printer ----

  function Padded(cell: Text): Text { [SPACE] + cell + [SPACE] }

  function Inner(cells: seq<Text>): Text
    requires cells != []
  {
    if |cells| == 1 then Padded(cells[0]) else Padded(cells[0]) + [PIPE] + Inner(cells[1..])
  }

  /** `| a | b |`. */
  function PrintRow(cells: seq<Text>): Text
    requires cells != []
  {
    [PIPE] + Inner(cells) + [PIPE]
  }

  function Separators(n: nat): seq<Text> { seq(n, _ => DASHES) }

  function PrintRows(rows: seq<seq<Text>>): seq<Text>
    requires forall i :: 0 <= i < |rows| ==> rows[i] != []
  {
    if rows == [] then [] else [PrintRow(rows[0])] + PrintRows(rows[1..])
  }

  /** A cell that survives: trimmed, no edge backtick, no bar, no "---" and on one line. */
  predicate PlainCell(cell: Text) {
    && Bare(cell, Whitespace) && Bare(cell, IsBacktick)
    && (forall i :: 0 <= i < |cell| ==> cell[i] != PIPE)
    && !Contains(cell, DASHES) && OneLine(cell)
  }

  predicate PlainRow(cells: seq<Text>) {
    cells != [] && forall i :: 0 <= i < |cells| ==> PlainCell(cells[i])
  }

  // ---- a printed row reads back as its cells ----

  lemma {:induction false} SplitAtPipe(a: Text, b: Text)
    requires forall i :: 0 <= i < |a| ==> a[i] != PIPE
    ensures SplitPipes(a + [PIPE] + b) == [a] + SplitPipes(b)
  {
    if a == [] {
      assert (a + [PIPE] + b)[1..] == b;
    } else {
      SplitAtPipe(a[1..], b);
      assert (a + [PIPE] + b)[1..] == a[1..] + [PIPE] + b;
      assert [a[0]] + a[1..] == a;
    }
  }

  lemma {:induction false} SplitWithoutPipe(a: Text)
    requires forall i :: 0 <= i < |a| ==> a[i] != PIPE
    ensures SplitPipes(a) == [a]
  {
    if a != [] {
      SplitWithoutPipe(a[1..]);
      assert [a[0]] + a[1..] == a;
    }
  }

  lemma {:induction false} InnerSplits(cells: seq<Text>)
    requires PlainRow(cells)
    ensures |SplitPipes(Inner(cells))| == |cells|
    ensures forall i :: 0 <= i < |cells| ==> SplitPipes(Inner(cells))[i] == Padded(cells[i])
  {
    var first := Padded(cells[0]);
    assert PlainCell(cells[0]);
    if |cells| == 1 {
      SplitWithoutPipe(first);
    } else {
      InnerSplits(cells[1..]);
      SplitAtPipe(first, Inner(cells[1..]));
    }
  }

  lemma CleanCellUndoesPadding(cell: Text)
    requires PlainCell(cell)
    ensures CleanCell(Padded(cell)) == cell
  {
    StripPadded(cell, Whitespace, SPACE);
    StripIs(cell, IsBacktick);
  }

  lemma {:induction false} StripWrapped(before: Text, s: Text, after: Text, drop: CodePoint -> bool)
    requires (forall i :: 0 <= i < |before| ==> drop(before[i])) && (forall i :: 0 <= i < |after| ==> drop(after[i]))
    requires Bare(s, drop)
    ensures Strip(before + s + after, drop) == s
    decreases |before| + |after|
  {
    if before != [] {
      assert (before + s + after)[1..] == before[1..] + s + after;
      StripWrapped(before[1..], s, after, drop);
    } else if after != [] {
      var front := after[..|after| - 1];
      assert before + s + after == (before + s + front) + [after[|after| - 1]];
      StripEnds(before + s + front, after[|after| - 1], drop);
      StripWrapped(before, s, front, drop);
    } else {
      assert before + s + after == s;
      StripIs(s, drop);
    }
  }

  /** A cell may stand in any white space and, inside that, in any number of backticks. */
  lemma CleanCellUnwraps(left: Text, ticks: Text, cell: Text, ticks': Text, right: Text)
    requires (forall i :: 0 <= i < |left| ==> Whitespace(left[i])) && (forall i :: 0 <= i < |right| ==> Whitespace(right[i]))
    requires (forall i :: 0 <= i < |ticks| ==> IsBacktick(ticks[i])) && (forall i :: 0 <= i < |ticks'| ==> IsBacktick(ticks'[i]))
    requires Bare(cell, Whitespace) && Bare(cell, IsBacktick)
    ensures CleanCell(left + (ticks + cell + ticks') + right) == cell
  {
    var wrapped := ticks + cell + ticks';
    assert Bare(wrapped, Whitespace) by {
      if wrapped != [] {
        assert wrapped[0] == (if ticks != [] then ticks[0] else if cell != [] then cell[0] else ticks'[0]);
        assert wrapped[|wrapped| - 1] == (if ticks' != [] then ticks'[|ticks'| - 1]
                                          else if cell != [] then cell[|cell| - 1] else ticks[|ticks| - 1]);
      }
    }
    StripWrapped(left, wrapped, right, Whitespace);
    StripWrapped(ticks, cell, ticks', IsBacktick);
  }

  lemma {:induction false} InnerEdges(cells: seq<Text>)
    requires cells != []
    ensures |Inner(cells)| >= 2 && Inner(cells)[0] == SPACE && Inner(cells)[|Inner(cells)| - 1] == SPACE
  {
    if |cells| > 1 {
      InnerEdges(cells[1..]);
    }
  }

  lemma RowReadsBack(cells: seq<Text>)
    requires PlainRow(cells)
    ensures Strip(PrintRow(cells), Whitespace) == PrintRow(cells)
    ensures Cells(PrintRow(cells)) == cells
  {
    var row := PrintRow(cells);
    InnerEdges(cells);
    StripIs(row, Whitespace);
    StripPadded(Inner(cells), IsPipe, PIPE);
    InnerSplits(cells);
    forall i | 0 <= i < |cells| ensures Cells(row)[i] == cells[i] {
      assert PlainCell(cells[i]);
      CleanCellUndoesPadding(cells[i]);
    }
  }

  // ---- no dashes appear between the cells ----

  lemma NoDashesAtStart(a: Text, x: CodePoint, b: Text)
    requires a != [] && !Contains(a, DASHES) && x != 0x2D
    ensures !(DASHES <= a + [x] + b)
  {
    var s := a + [x] + b;
    if |a| >= 3 {
      assert s[..3] == a[..3] && !(DASHES <= a);
    } else {
      assert s[|a|] == x != DASHES[|a|];
    }
  }

  lemma {:induction false} NoDashesAcross(a: Text, x: CodePoint, b: Text)
    requires !Contains(a, DASHES) && !Contains(b, DASHES) && x != 0x2D
    ensures !Contains(a + [x] + b, DASHES)
  {
    var s := a + [x] + b;
    if a == [] {
      assert s[1..] == b && s[0] == x;
    } else {
      NoDashesAcross(a[1..], x, b);
      assert s[1..] == a[1..] + [x] + b;
      NoDashesAtStart(a, x, b);
    }
  }

  lemma {:induction false} InnerWithoutDashes(cells: seq<Text>)
    requires PlainRow(cells)
    ensures !Contains(Inner(cells), DASHES)
  {
    assert PlainCell(cells[0]);
    NoDashesAcross([], SPACE, cells[0]);
    NoDashesAcross([SPACE] + cells[0], SPACE, []);
    assert [] + [SPACE] + cells[0] == [SPACE] + cells[0];
    assert ([SPACE] + cells[0]) + [SPACE] + [] == Padded(cells[0]);
    if |cells| > 1 {
      InnerWithoutDashes(cells[1..]);
      NoDashesAcross(Padded(cells[0]), PIPE, Inner(cells[1..]));
    }
  }

  lemma RowWithoutDashes(cells: seq<Text>)
    requires PlainRow(cells)
    ensures !Contains(PrintRow(cells), DASHES)
  {
    InnerWithoutDashes(cells);
    NoDashesAcross([], PIPE, Inner(cells));
    NoDashesAcross([PIPE] + Inner(cells), PIPE, []);
    assert [] + [PIPE] + Inner(cells) == [PIPE] + Inner(cells);
    assert ([PIPE] + Inner(cells)) + [PIPE] + [] == PrintRow(cells);
  }

  lemma SeparatorHasDashes(n: nat)
    requires n > 0
    ensures Contains(Strip(PrintRow(Separators(n)), Whitespace), DASHES)
    ensures [PIPE] <= Strip(PrintRow(Separators(n)), Whitespace)
  {
    var row := PrintRow(Separators(n));
    InnerEdges(Separators(n));
    StripIs(row, Whitespace);
    assert row[2..][..3] == DASHES;
    assert DASHES <= row[2..] && row[2..] == row[1..][1..];
    assert Contains(row[1..][1..], DASHES);
  }

  // ---- the whole table ----

  /** Rows a table under these headers can hold. */
  predicate TableRows(headers: seq<Text>, rows: seq<seq<Text>>) {
    forall i :: 0 <= i < |rows| ==> |rows[i]| == |headers| && PlainRow(rows[i]) && rows[i][0] != SURFACE
  }

  function Dicts(headers: seq<Text>, rows: seq<seq<Text>>): (r: seq<map<Text, Text>>)
    requires forall i :: 0 <= i < |rows| ==> |rows[i]| == |headers|
  {
    if rows == [] then [] else [AsDict(headers, rows[0])] + Dicts(headers, rows[1..])
  }

  /** The Markdown table: header, separator and rows. */
  function TableLines(headers: seq<Text>, rows: seq<seq<Text>>): seq<Text>
    requires headers != [] && TableRows(headers, rows)
  {
    [PrintRow(headers), PrintRow(Separators(|headers|))] + PrintRows(rows)
  }

  lemma BarIsNoHeading(stripped: Text)
    requires [PIPE] <= stripped
    ensures stripped != HEADING && !(HEADING_MARK <= stripped)
  {
    assert stripped[0] == PIPE && HEADING[0] != PIPE && HEADING_MARK[0] != PIPE;
  }

  lemma ScanRow(s: Scan, headers: seq<Text>, cells: seq<Text>)
    requires s.inTable && !s.ended && s.headers == Some(headers)
    requires PlainRow(cells) && |cells| == |headers| && cells[0] != SURFACE
    ensures ScanLine(s, PrintRow(cells)) == s.(rows := s.rows + [AsDict(headers, cells)])
  {
    RowReadsBack(cells);
    RowWithoutDashes(cells);
    BarIsNoHeading(PrintRow(cells));
  }

  lemma ScanCons(s: Scan, line: Text, lines: seq<Text>)
    ensures ScanLines(s, [line] + lines) == ScanLines(ScanLine(s, line), lines)
  {
    assert ([line] + lines)[1..] == lines;
  }

  lemma {:induction false} ScanRows(s: Scan, headers: seq<Text>, rows: seq<seq<Text>>)
    requires s.inTable && !s.ended && s.headers == Some(headers) && headers != [] && TableRows(headers, rows)
    ensures ScanLines(s, PrintRows(rows)) == s.(rows := s.rows + Dicts(headers, rows))
    decreases |rows|
  {
    if rows != [] {
      ScanRow(s, headers, rows[0]);
      var s1 := ScanLine(s, PrintRow(rows[0]));
      ScanRows(s1, headers, rows[1..]);
      ScanCons(s, PrintRow(rows[0]), PrintRows(rows[1..]));
      Associate(s.rows, [AsDict(headers, rows[0])], Dicts(headers, rows[1..]));
    }
  }

  lemma {:induction false} ScanAppend(s: Scan, a: seq<Text>, b: seq<Text>)
    ensures ScanLines(s, a + b) == ScanLines(ScanLines(s, a), b)
    decreases |a|
  {
    if a == [] {
      assert a + b == b;
    } else {
      assert (a + b)[1..] == a[1..] + b;
      ScanAppend(ScanLine(s, a[0]), a[1..], b);
    }
  }

  lemma ScanOne(s: Scan, line: Text)
    ensures ScanLines(s, [line]) == ScanLine(s, line)
  {
    var lines := [line];
    assert lines[1..] == [];
  }

  lemma ScanHeader(s: Scan, headers: seq<Text>)
    requires s.inTable && !s.ended && PlainRow(headers) && headers[0] == SURFACE
    ensures ScanLine(s, PrintRow(headers)) == s.(headers := Some(headers))
  {
    RowReadsBack(headers);
    RowWithoutDashes(headers);
    BarIsNoHeading(PrintRow(headers));
  }

  /** The line ends the section: a level-two heading, but not "## Tracker" again. */
  predicate EndsSection(line: Text) {
    Strip(line, Whitespace) != HEADING && HEADING_MARK <= Strip(line, Whitespace)
  }

  /** The scan looks at the cells of this line. */
  predicate RowLine(line: Text) {
    [PIPE] <= Strip(line, Whitespace) && !Contains(Strip(line, Whitespace), DASHES)
  }

  /** The row lines, stripped, without the prose, blank lines and separators between them. */
  function RowLines(lines: seq<Text>): seq<Text> {
    if lines == [] then []
    else if RowLine(lines[0]) then [Strip(lines[0], Whitespace)] + RowLines(lines[1..])
    else RowLines(lines[1..])
  }

  /** Lines before the section: anything but another "## Tracker". */
  predicate Preamble(lines: seq<Text>) {
    forall i :: 0 <= i < |lines| ==> Strip(lines[i], Whitespace) != HEADING
  }

  /** Text that is no table, and no heading of another section. */
  predicate Prose(lines: seq<Text>) {
    forall i :: 0 <= i < |lines| ==> !([PIPE] <= Strip(lines[i], Whitespace)) && !EndsSection(lines[i])
  }

  /** Lines after the table: prose up to the end, or up to another level-two heading and then anything. */
  ghost predicate Aftermath(lines: seq<Text>) {
    exists n :: 0 <= n <= |lines| && Prose(lines[..n]) && (n == |lines| || EndsSection(lines[n]))
  }

  lemma {:induction false} PreambleIsSkipped(lines: seq<Text>)
    requires Preamble(lines)
    ensures ScanLines(START, lines) == START
  {
    if lines != [] {
      PreambleIsSkipped(lines[1..]);
    }
  }

  lemma SectionLine(s: Scan, line: Text)
    requires s.inTable && !s.ended && !EndsSection(line)
    ensures ScanLine(s, line).inTable && !ScanLine(s, line).ended
    ensures ScanLine(s, line) == if RowLine(line) then ScanLine(s, Strip(line, Whitespace)) else s
  {
    StripIs(line, Whitespace);
    StripIs(Strip(line, Whitespace), Whitespace);
  }

  /** Within the section only the row lines count. */
  lemma {:induction false} SectionScans(s: Scan, lines: seq<Text>)
    requires s.inTable && !s.ended && forall i :: 0 <= i < |lines| ==> !EndsSection(lines[i])
    ensures ScanLines(s, lines) == ScanLines(s, RowLines(lines))
    decreases |lines|
  {
    if lines != [] {
      var s1 := ScanLine(s, lines[0]);
      SectionLine(s, lines[0]);
      SectionScans(s1, lines[1..]);
      if RowLine(lines[0]) {
        ScanCons(s, Strip(lines[0], Whitespace), RowLines(lines[1..]));
      }
    }
  }

  lemma {:induction false} ProseHasNoRows(lines: seq<Text>)
    requires Prose(lines)
    ensures RowLines(lines) == []
  {
    if lines != [] {
      ProseHasNoRows(lines[1..]);
    }
  }

  lemma AftermathIsSkipped(s: Scan, lines: seq<Text>)
    requires Aftermath(lines) && s.inTable && !s.ended
    ensures ScanLines(s, lines).rows == s.rows
  {
    var n :| 0 <= n <= |lines| && Prose(lines[..n]) && (n == |lines| || EndsSection(lines[n]));
    var front, back := lines[..n], lines[n..];
    ProseHasNoRows(front);
    SectionScans(s, front);
    ScanAppend(s, front, back);
    assert front + back == lines;
    if back != [] {
      EndedScanStays(ScanLine(s, back[0]), back[1..]);
    }
  }

  lemma HeadingOpens()
    ensures ScanLines(START, [HEADING]) == START.(inTable := true)
  {
    assert HEADING[0] == 0x23 && HEADING[|HEADING| - 1] == 'r' as int;
    StripIs(HEADING, Whitespace);
    ScanOne(START, HEADING);
  }

  /** The row lines of a table with these contents. */
  function Rows(headers: seq<Text>, rows: seq<seq<Text>>): seq<Text>
    requires headers != [] && TableRows(headers, rows)
  {
    [PrintRow(headers)] + PrintRows(rows)
  }

  /** A section whose row lines are a printed header and printed rows scans as those rows, whatever
      prose, blank lines and separators stand before, between and after them. */
  lemma TableScans(before: seq<Text>, section: seq<Text>, headers: seq<Text>, rows: seq<seq<Text>>, after: seq<Text>)
    requires Preamble(before) && Aftermath(after)
    requires PlainRow(headers) && headers[0] == SURFACE && TableRows(headers, rows)
    requires RowLines(section) == Rows(headers, rows) && forall i :: 0 <= i < |section| ==> !EndsSection(section[i])
    ensures ScanLines(START, before + ([HEADING] + (section + after))).rows == Dicts(headers, rows)
  {
    var inside := START.(inTable := true);
    ScanAppend(START, before, [HEADING] + (section + after));
    PreambleIsSkipped(before);
    ScanAppend(START, [HEADING], section + after);
    HeadingOpens();
    ScanAppend(inside, section, after);
    SectionScans(inside, section);
    ScanCons(inside, PrintRow(headers), PrintRows(rows));
    ScanHeader(inside, headers);
    ScanRows(inside.(headers := Some(headers)), headers, rows);
    AftermathIsSkipped(ScanLines(inside, section), after);
  }

  /** A row line of another number of cells than the header's changes nothing, nor does any before
      there is a header. */
  lemma OddRowChangesNothing(s: Scan, line: Text)
    requires RowLine(line) && Cells(Strip(line, Whitespace))[0] != SURFACE
    requires s.headers.None? || |Cells(Strip(line, Whitespace))| != |s.headers.value|
    ensures ScanLine(s, line) == s
  {
    BarIsNoHeading(Strip(line, Whitespace));
  }

  // ---- the printed table has these row lines ----

  lemma PrintedRowLine(cells: seq<Text>)
    requires PlainRow(cells)
    ensures Strip(PrintRow(cells), Whitespace) == PrintRow(cells)
    ensures RowLine(PrintRow(cells)) && !EndsSection(PrintRow(cells))
  {
    RowReadsBack(cells);
    RowWithoutDashes(cells);
    BarIsNoHeading(PrintRow(cells));
  }

  lemma {:induction false} PrintedRowLines(headers: seq<Text>, rows: seq<seq<Text>>)
    requires headers != [] && TableRows(headers, rows)
    ensures RowLines(PrintRows(rows)) == PrintRows(rows)
    ensures forall i :: 0 <= i < |PrintRows(rows)| ==> !EndsSection(PrintRows(rows)[i])
    decreases |rows|
  {
    if rows != [] {
      assert PlainRow(rows[0]);
      PrintedRowLine(rows[0]);
      PrintedRowLines(headers, rows[1..]);
      RowLinesCons(PrintRow(rows[0]), PrintRows(rows[1..]));
    }
  }

  lemma RowLinesCons(line: Text, lines: seq<Text>)
    ensures RowLines([line] + lines)
      == (if RowLine(line) then [Strip(line, Whitespace)] else []) + RowLines(lines)
  {
    assert ([line] + lines)[1..] == lines;
  }

  lemma {:induction false} RowLinesAppend(a: seq<Text>, b: seq<Text>)
    ensures RowLines(a + b) == RowLines(a) + RowLines(b)
  {
    if a == [] {
      assert a + b == b;
    } else {
      assert (a + b)[1..] == a[1..] + b;
      RowLinesAppend(a[1..], b);
    }
  }

  lemma PrintedTable(headers: seq<Text>, rows: seq<seq<Text>>)
    requires PlainRow(headers) && TableRows(headers, rows)
    ensures RowLines(TableLines(headers, rows)) == Rows(headers, rows)
    ensures forall i :: 0 <= i < |TableLines(headers, rows)| ==> !EndsSection(TableLines(headers, rows)[i])
  {
    var header, separator := PrintRow(headers), PrintRow(Separators(|headers|));
    PrintedRowLine(headers);
    SeparatorHasDashes(|headers|);
    BarIsNoHeading(Strip(separator, Whitespace));
    PrintedRowLines(headers, rows);
    RowLinesCons(separator, PrintRows(rows));
    RowLinesCons(header, [separator] + PrintRows(rows));
    assert TableLines(headers, rows) == [header] + ([separator] + PrintRows(rows));
  }

  // ---- and as text ----

  function Unlines(lines: seq<Text>): Text {
    if lines == [] then [] else lines[0] + [LF] + Unlines(lines[1..])
  }

  lemma {:induction false} LineLengthIs(line: Text, c: CodePoint, rest: Text)
    requires OneLine(line) && LineBreak(c)
    ensures LineLength(line + [c] + rest) == |line|
  {
    if line == [] {
      assert line + [c] + rest == [c] + rest;
    } else {
      assert (line + [c] + rest)[1..] == line[1..] + [c] + rest;
      LineLengthIs(line[1..], c, rest);
    }
  }

  lemma SplitFirstLine(line: Text, rest: Text)
    requires OneLine(line)
    ensures SplitLines(line + [LF] + rest) == [line] + SplitLines(rest)
  {
    var t := line + [LF] + rest;
    LineLengthIs(line, LF, rest);
    assert t[|line|..] == [LF] + rest;
    assert t[..|line|] == line && t[|line| + 1..] == rest;
    SplitStep(t, |line|, |line| + 1);
  }

  /** A carriage return and a line feed are one line break. */
  lemma SplitAtCrLf(line: Text, rest: Text)
    requires OneLine(line)
    ensures SplitLines(line + [CR, LF] + rest) == [line] + SplitLines(rest)
  {
    var t := line + [CR, LF] + rest;
    assert t == line + [CR] + ([LF] + rest);
    LineLengthIs(line, CR, [LF] + rest);
    assert t[|line|..] == [CR, LF] + rest;
    assert t[..|line|] == line && t[|line| + 2..] == rest;
  }

  lemma {:induction false} SplitUnlines(lines: seq<Text>, rest: Text)
    requires forall i :: 0 <= i < |lines| ==> OneLine(lines[i])
    ensures SplitLines(Unlines(lines) + rest) == lines + SplitLines(rest)
    decreases |lines|
  {
    if lines == [] {
      assert Unlines(lines) + rest == rest;
    } else {
      SplitUnlines(lines[1..], rest);
      SplitFirstLine(lines[0], Unlines(lines[1..]) + rest);
      Associate(lines[0] + [LF], Unlines(lines[1..]), rest);
      ConsAppend(lines, SplitLines(rest));
    }
  }

  lemma {:induction false} LineLengthAppend(a: Text, b: Text)
    requires LineLength(a) < |a|
    ensures LineLength(a + b) == LineLength(a)
  {
    if !LineBreak(a[0]) {
      assert (a + b)[1..] == a[1..] + b;
      LineLengthAppend(a[1..], b);
    }
  }

  lemma {:induction false} EndsWithBreak(a: Text)
    requires a != [] && LineBreak(a[|a| - 1])
    ensures LineLength(a) < |a|
  {
    if !LineBreak(a[0]) {
      EndsWithBreak(a[1..]);
    }
  }

  lemma BreakAppend(a: Text, b: Text)
    requires a != [] && a[|a| - 1] == LF
    ensures BreakLength(a + b) == BreakLength(a) <= |a|
  {
  }

  lemma SplitStep(t: Text, n: nat, m: nat)
    requires n == LineLength(t) < |t| && m == n + BreakLength(t[n..]) && m <= |t|
    ensures SplitLines(t) == [t[..n]] + SplitLines(t[m..])
  {
  }

  /** A text that ends in a line feed splits on its own. */
  lemma {:induction false} SplitAfterLineFeed(a: Text, b: Text)
    requires a == [] || a[|a| - 1] == LF
    ensures SplitLines(a + b) == SplitLines(a) + SplitLines(b)
    decreases |a|
  {
    if a == [] {
      assert a + b == b;
    } else {
      EndsWithBreak(a);
      LineLengthAppend(a, b);
      var n := LineLength(a);
      SliceAppend(a, b, n);
      BreakAppend(a[n..], b);
      var m := n + BreakLength(a[n..]);
      SplitStep(a, n, m);
      SliceAppend(a, b, m);
      SplitStep(a + b, n, m);
      SplitAfterLineFeed(a[m..], b);
      Associate([a[..n]], SplitLines(a[m..]), SplitLines(b));
    }
  }

  lemma {:induction false} InnerOnOneLine(cells: seq<Text>)
    requires cells != [] && forall i :: 0 <= i < |cells| ==> OneLine(cells[i])
    ensures OneLine(Inner(cells))
  {
    assert OneLine(cells[0]);
    if |cells| > 1 {
      InnerOnOneLine(cells[1..]);
    }
  }

  lemma RowOnOneLine(cells: seq<Text>)
    requires cells != [] && forall i :: 0 <= i < |cells| ==> OneLine(cells[i])
    ensures OneLine(PrintRow(cells))
  {
    InnerOnOneLine(cells);
  }

  lemma {:induction false} RowsOnOneLine(headers: seq<Text>, rows: seq<seq<Text>>)
    requires headers != [] && TableRows(headers, rows)
    ensures forall i :: 0 <= i < |PrintRows(rows)| ==> OneLine(PrintRows(rows)[i])
    decreases |rows|
  {
    if rows != [] {
      assert PlainRow(rows[0]);
      forall i | 0 <= i < |rows[0]| ensures OneLine(rows[0][i]) { assert PlainCell(rows[0][i]); }
      RowOnOneLine(rows[0]);
      RowsOnOneLine(headers, rows[1..]);
    }
  }

  lemma TableOnLines(headers: seq<Text>, rows: seq<seq<Text>>)
    requires PlainRow(headers) && TableRows(headers, rows)
    ensures forall i :: 0 <= i < |TableLines(headers, rows)| ==> OneLine(TableLines(headers, rows)[i])
  {
    forall i | 0 <= i < |headers| ensures OneLine(headers[i]) { assert PlainCell(headers[i]); }
    RowOnOneLine(headers);
    RowOnOneLine(Separators(|headers|));
    RowsOnOneLine(headers, rows);
  }

  lemma SectionOnLines(gap: seq<Text>, headers: seq<Text>, rows: seq<seq<Text>>)
    requires PlainRow(headers) && TableRows(headers, rows) && forall i :: 0 <= i < |gap| ==> OneLine(gap[i])
    ensures var lines := [HEADING] + (gap + TableLines(headers, rows));
      forall i :: 0 <= i < |lines| ==> OneLine(lines[i])
  {
    TableOnLines(headers, rows);
    assert OneLine(HEADING);
  }

  /** Printing a table in the section "## Tracker" and parsing the document gives the same rows,
      whatever lines precede the section, whatever prose stands between its heading and the table or
      after the table, and whatever follows the next level-two heading. */
  lemma ParsingUndoesPrinting(before: Text, gap: seq<Text>, headers: seq<Text>, rows: seq<seq<Text>>, after: Text)
    requires before == [] || before[|before| - 1] == LF
    requires Preamble(SplitLines(before)) && Aftermath(SplitLines(after))
    requires Prose(gap) && forall i :: 0 <= i < |gap| ==> OneLine(gap[i])
    requires PlainRow(headers) && headers[0] == SURFACE && TableRows(headers, rows)
    ensures ParseRows(before + (Unlines([HEADING] + (gap + TableLines(headers, rows))) + after)) == Dicts(headers, rows)
  {
    var section := gap + TableLines(headers, rows);
    SectionOnLines(gap, headers, rows);
    SplitAfterLineFeed(before, Unlines([HEADING] + section) + after);
    SplitUnlines([HEADING] + section, after);
    ProseHasNoRows(gap);
    PrintedTable(headers, rows);
    RowLinesAppend(gap, TableLines(headers, rows));
    TableScans(SplitLines(before), section, headers, rows, SplitLines(after));
    Associate([HEADING], section, SplitLines(after));
  }

  /** A row gives every cell back under its header; of cells under one header the last. */
  lemma {:induction false} DictHoldsCells(headers: seq<Text>, cells: seq<Text>, i: nat)
    requires |headers| == |cells| && i < |headers|
    requires forall k :: i < k < |headers| ==> headers[k] != headers[i]
    ensures headers[i] in AsDict(headers, cells) && AsDict(headers, cells)[headers[i]] == cells[i]
  {
    DictKeys(headers[1..], cells[1..]);
    if i > 0 {
      DictHoldsCells(headers[1..], cells[1..], i - 1);
    } else {
      assert forall k :: 0 <= k < |headers| - 1 ==> headers[1..][k] == headers[k + 1];
    }
  }

  lemma {:induction false} DictKeys(headers: seq<Text>, cells: seq<Text>)
    requires |headers| == |cells|
    ensures forall h :: h in AsDict(headers, cells) ==> h in headers
  {
    if headers != [] {
      DictKeys(headers[1..], cells[1..]);
    }
  }

  /** No row counts under the empty status: a missing or empty cell counts as "unknown". */
  lemma StatusMeans(row: map<Text, Text>)
    ensures StatusOf(row) != []
    ensures StatusOf(row) == UNKNOWN || (STATUS in row && row[STATUS] == StatusOf(row))
    ensures STATUS in row && row[STATUS] != [] ==> StatusOf(row) == row[STATUS]
  {
    assert |UNKNOWN| == 7;
  }

  /** The status counts sum to the number of rows. */
  lemma StatusCountsSum(rows: seq<map<Text, Text>>, statuses: seq<Text>)
    requires forall i, j :: 0 <= i < j < |statuses| ==> statuses[i] != statuses[j]
    requires forall r :: r in rows ==> StatusOf(r) in statuses
    ensures Total(statuses, s => CountBy(rows, StatusOf, s)) == |rows|
  {
    CountsSum(rows, StatusOf, statuses);
  }
}
