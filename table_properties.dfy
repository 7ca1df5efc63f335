/**
 * What the reply-table parser promises about the rows it keeps, stated over
 * the fold Run/Scan that specifies the loop of ExtractTable.
 */
module TableProperties {
  import opened PyStr
  import opened ResponseTable

  // ---------------------------------------------------------------------------
  // A declarative description of the rows
  // ---------------------------------------------------------------------------

  /** Some line before position `i` is a header line. */
  ghost predicate HeaderBefore(lines: seq<string>, i: int)
    requires 0 <= i <= |lines|
  {
    exists j :: 0 <= j < i && IsHeader(lines[j])
  }

  /** Line `i` produces a row: a pipe line without the header token, after
      some header line, not a decoration line, with exactly four cells. */
  ghost predicate Emits(lines: seq<string>, i: int)
    requires 0 <= i < |lines|
  {
    HeaderBefore(lines, i) && Kept(lines[i])
  }

  /** A line that adds a row once parsing is on: a pipe line without the
      header token, not a decoration line, with exactly four cells. */
  predicate Kept(line: string) {
    && IsPipeLine(line)
    && !Contains(line, HeaderToken)
    && !IsDecoration(line)
    && |Cells(line)| == 4
  }

  /** For each line, whether it produces a row. */
  ghost function EmitFlags(lines: seq<string>): (flags: seq<bool>)
    ensures |flags| == |lines|
    ensures forall i :: 0 <= i < |lines| ==> flags[i] == Emits(lines, i)
  {
    seq(|lines|, i requires 0 <= i < |lines| => Emits(lines, i))
  }

  /** The positions, in increasing order, of the set flags among the first `n`. */
  function Positions(flags: seq<bool>, n: nat): (idx: seq<nat>)
    requires n <= |flags|
    ensures forall k :: 0 <= k < |idx| ==> idx[k] < n && flags[idx[k]]
    ensures forall k, l :: 0 <= k < l < |idx| ==> idx[k] < idx[l]
    ensures forall i :: 0 <= i < n && flags[i] ==> i in idx
  {
    if n == 0 then []
    else Positions(flags, n - 1) + (if flags[n - 1] then [n - 1] else [])
  }

  /** The positions of the lines among the first `n` that produce a row. */
  ghost function Origins(lines: seq<string>, n: nat): (idx: seq<nat>)
    requires n <= |lines|
    ensures forall k :: 0 <= k < |idx| ==> idx[k] < n && Emits(lines, idx[k])
    ensures forall k, l :: 0 <= k < l < |idx| ==> idx[k] < idx[l]
    ensures forall i :: 0 <= i < n && Emits(lines, i) ==> i in idx
  {
    Positions(EmitFlags(lines), n)
  }

  /** The rows are the cells of the lines at `idx`, in that order. */
  ghost predicate RowsFrom(rows: seq<seq<string>>, lines: seq<string>, idx: seq<nat>) {
    |rows| == |idx| &&
    forall k :: 0 <= k < |idx| ==> idx[k] < |lines| && rows[k] == Cells(lines[idx[k]])
  }

  lemma {:induction false} ScanPrefix(lines: seq<string>, n: nat)
    requires n <= |lines|
    ensures Scan(lines[..n]).startParsing == HeaderBefore(lines, n)
    ensures RowsFrom(Scan(lines[..n]).tableData, lines, Origins(lines, n))
  {
    if n > 0 {
      ScanPrefix(lines, n - 1);
      var prev := Scan(lines[..n - 1]);
      var line := lines[n - 1];
      assert lines[..n][..n - 1] == lines[..n - 1];
      assert Scan(lines[..n]) == Step(prev, line);
      if IsHeader(line) {
        assert HeaderBefore(lines, n);
      } else if HeaderBefore(lines, n) {
        var j :| 0 <= j < n && IsHeader(lines[j]);
        assert j < n - 1 && HeaderBefore(lines, n - 1);
      }
    }
  }

  /** The loop's result, described line by line: the flag is on exactly when
      a header line has been seen, and the rows are the cells of the lines
      that Emits picks, in input order, one row per line. */
  lemma ScanMatchesOrigins(lines: seq<string>)
    ensures Scan(lines).startParsing == HeaderBefore(lines, |lines|)
    ensures RowsFrom(Scan(lines).tableData, lines, Origins(lines, |lines|))
  {
    ScanPrefix(lines, |lines|);
    assert lines[..|lines|] == lines;
  }

  // ---------------------------------------------------------------------------
  // Composing runs
  // ---------------------------------------------------------------------------

  lemma {:induction false} RunAppend(st: ScanState, a: seq<string>, b: seq<string>)
    ensures Run(st, a + b) == Run(Run(st, a), b)
    decreases |b|
  {
    if b == [] {
      assert a + b == a;
    } else {
      var b' := b[..|b| - 1];
      assert (a + b)[..|a + b| - 1] == a + b';
      RunAppend(st, a, b');
    }
  }

  lemma {:induction false} RunWithoutHeader(lines: seq<string>)
    requires forall j :: 0 <= j < |lines| ==> !IsHeader(lines[j])
    ensures Run(Start, lines) == Start
    decreases |lines|
  {
    if lines != [] {
      RunWithoutHeader(lines[..|lines| - 1]);
    }
  }

  /** Later lines never remove or change a row: the rows of a prefix of the
      reply are a prefix of the rows of the whole reply. */
  lemma EarlierRowsKept(a: seq<string>, b: seq<string>)
    ensures var early, all := Scan(a).tableData, Scan(a + b).tableData;
            |early| <= |all| && all[..|early|] == early
  {
    RunAppend(Start, a, b);
  }

  /** A reply without a header line gives no rows. */
  lemma NoHeaderNoRows(lines: seq<string>)
    requires forall j :: 0 <= j < |lines| ==> !IsHeader(lines[j])
    ensures Scan(lines).tableData == []
  {
    RunWithoutHeader(lines);
  }

  /** Lines before the first header line are ignored whatever they hold,
      even pipe lines with four cells. */
  lemma PreambleIgnored(pre: seq<string>, post: seq<string>)
    requires forall j :: 0 <= j < |pre| ==> !IsHeader(pre[j])
    ensures Scan(pre + post) == Scan(post)
  {
    RunAppend(Start, pre, post);
    RunWithoutHeader(pre);
  }

  /** A line without `|` neither adds a row nor changes the flag, wherever it
      stands. */
  lemma NonPipeLineIgnored(a: seq<string>, line: string, b: seq<string>)
    requires !IsPipeLine(line)
    ensures Scan(a + [line] + b) == Scan(a + b)
  {
    RunAppend(Start, a + [line], b);
    RunAppend(Start, a, [line]);
    RunAppend(Start, a, b);
    assert [line][..0] == [];
  }

  /** A line made only of `|`, `-` and spaces, such as `|---|---|---|---|`,
      leaves the state as it is, before or after the header. */
  lemma DecorationLineIgnored(st: ScanState, line: string)
    requires forall k :: 0 <= k < |line| ==> line[k] in DecorationChars
    ensures Step(st, line) == st
  {
    MissingCharNotContained(line, HeaderToken, 'D');
    StripSpec(line, DecorationChars);
  }

  // ---------------------------------------------------------------------------
  // What the kept rows look like
  // ---------------------------------------------------------------------------

  /** No row comes from a header line: no kept cell contains the header
      token, since each cell is a substring of a line that does not. */
  lemma NoRowHoldsHeaderToken(lines: seq<string>)
    ensures forall k, j :: 0 <= k < |Scan(lines).tableData| && 0 <= j < |Scan(lines).tableData[k]| ==>
              !Contains(Scan(lines).tableData[k][j], HeaderToken)
  {
    ScanMatchesOrigins(lines);
    var rows, idx := Scan(lines).tableData, Origins(lines, |lines|);
    forall k, j | 0 <= k < |rows| && 0 <= j < |rows[k]| ensures !Contains(rows[k][j], HeaderToken) {
      var line := lines[idx[k]];
      assert Emits(lines, idx[k]);
      CellsWellFormed(line);
      if Contains(rows[k][j], HeaderToken) {
        ContainsTransitive(line, rows[k][j], HeaderToken);
      }
    }
  }

  /** Every row is the cells of a kept line preceded by a header line, and
      comes from a different line, later than the line of the row before it;
      every kept line after a header line gives a row. */
  lemma RowsFollowHeaderInOrder(lines: seq<string>)
    ensures var rows, idx := Scan(lines).tableData, Origins(lines, |lines|);
            && |rows| == |idx|
            && (forall k :: 0 <= k < |idx| ==>
                  && idx[k] < |lines|
                  && HeaderBefore(lines, idx[k])
                  && Kept(lines[idx[k]])
                  && rows[k] == Cells(lines[idx[k]]))
            && (forall k, l :: 0 <= k < l < |idx| ==> idx[k] < idx[l])
            && (forall i :: 0 <= i < |lines| && HeaderBefore(lines, i) && Kept(lines[i]) ==> i in idx)
  {
    ScanMatchesOrigins(lines);
    var idx := Origins(lines, |lines|);
    forall k | 0 <= k < |idx| ensures Kept(lines[idx[k]]) && HeaderBefore(lines, idx[k]) {
      assert Emits(lines, idx[k]);
    }
    forall i | 0 <= i < |lines| && HeaderBefore(lines, i) && Kept(lines[i]) ensures i in idx {
      assert EmitFlags(lines)[i];
    }
  }

  /** The number of pipe lines among the first `n` that come after a header
      line and are not header lines themselves. */
  ghost function Candidates(lines: seq<string>, n: nat): nat
    requires n <= |lines|
  {
    if n == 0 then 0
    else
      Candidates(lines, n - 1) +
      (if IsPipeLine(lines[n - 1]) && !IsHeader(lines[n - 1]) && HeaderBefore(lines, n - 1) then 1 else 0)
  }

  lemma {:induction false} OriginsBound(lines: seq<string>, n: nat)
    requires n <= |lines|
    ensures |Origins(lines, n)| <= Candidates(lines, n)
  {
    if n > 0 {
      OriginsBound(lines, n - 1);
    }
  }

  /** There are at most as many rows as pipe lines after a header line. */
  lemma RowCountBound(lines: seq<string>)
    ensures |Scan(lines).tableData| <= Candidates(lines, |lines|)
  {
    ScanMatchesOrigins(lines);
    OriginsBound(lines, |lines|);
  }

  // ---------------------------------------------------------------------------
  // A rendered table line round-trips through Cells
  // ---------------------------------------------------------------------------

  /** The pieces of a rendered table line between its pipes. */
  function Padded(cells: seq<string>): (pieces: seq<string>)
    ensures |pieces| == |cells|
  {
    seq(|cells|, k requires 0 <= k < |cells| => [' '] + cells[k] + [' '])
  }

  /** A table line as the language model is asked to write it: `| c1 | c2 | ... |`. */
  function RenderRow(cells: seq<string>): string {
    "|" + RenderCells(cells)
  }

  /** Each cell between two spaces, followed by a pipe. */
  function RenderCells(cells: seq<string>): string {
    if cells == [] then [] else " " + cells[0] + " |" + RenderCells(cells[1..])
  }

  /** A character other than `|` and space that no cell holds is not in the
      rendered line; in particular a line rendered from cells without a line
      break is one line of the reply. */
  lemma {:induction false} RenderedRowAvoids(cells: seq<string>, c: char)
    requires c != '|' && c != ' '
    requires forall k :: 0 <= k < |cells| ==> c !in cells[k]
    ensures c !in RenderRow(cells)
  {
    RenderedCellsAvoid(cells, c);
  }

  lemma {:induction false} RenderedCellsAvoid(cells: seq<string>, c: char)
    requires c != '|' && c != ' '
    requires forall k :: 0 <= k < |cells| ==> c !in cells[k]
    ensures c !in RenderCells(cells)
  {
    if cells != [] {
      RenderedCellsAvoid(cells[1..], c);
      assert RenderCells(cells) == " " + cells[0] + " |" + RenderCells(cells[1..]);
    }
  }

  lemma {:induction false} SplitRenderedCells(cells: seq<string>)
    requires forall k :: 0 <= k < |cells| ==> '|' !in cells[k]
    ensures SplitOn(RenderCells(cells), '|') == Padded(cells) + [[]]
  {
    if cells == [] {
      assert Padded(cells) + [[]] == [[]];
    } else {
      var p := " " + cells[0] + " ";
      var rest := RenderCells(cells[1..]);
      assert RenderCells(cells) == p + ['|'] + rest;
      SplitAfterPiece(p, '|', rest);
      SplitRenderedCells(cells[1..]);
      assert Padded(cells) == [p] + Padded(cells[1..]);
    }
  }

  lemma {:induction false} TrimAndDropPadded(cells: seq<string>)
    requires forall k :: 0 <= k < |cells| ==> WellFormedCell(cells[k])
    ensures TrimAndDropEmpty(Padded(cells) + [[]]) == cells
    decreases |cells|
  {
    if cells == [] {
      assert Padded(cells) + [[]] == [[]];
      assert Trim([]) == [];
    } else {
      var c := cells[0];
      StripSurrounded([' '], c, [' '], Whitespace);
      assert (Padded(cells) + [[]])[0] == [' '] + c + [' '];
      assert (Padded(cells) + [[]])[1..] == Padded(cells[1..]) + [[]];
      TrimAndDropPadded(cells[1..]);
      assert [c] + cells[1..] == cells;
    }
  }

  /** Cells recovers the cells of a rendered line: well-formed cells, written
      as `| c1 | c2 | ... |`, come back exactly and in order. */
  lemma CellsOfRenderedRow(cells: seq<string>)
    requires forall k :: 0 <= k < |cells| ==> WellFormedCell(cells[k])
    ensures Cells(RenderRow(cells)) == cells
  {
    var rest := RenderCells(cells);
    SplitAfterPiece([], '|', rest);
    assert [] + ['|'] + rest == RenderRow(cells);
    SplitRenderedCells(cells);
    var parts := [[]] + (Padded(cells) + [[]]);
    assert SplitOn(RenderRow(cells), '|') == parts;
    assert Trim([]) == [];
    assert parts[1..] == Padded(cells) + [[]];
    TrimAndDropPadded(cells);
  }

  /** A rendered line whose first cell is the header token is a header line. */
  lemma RenderedHeader(cells: seq<string>)
    requires |cells| >= 1 && cells[0] == HeaderToken
    requires forall k :: 0 <= k < |cells| ==> WellFormedCell(cells[k])
    ensures IsHeader(RenderRow(cells))
  {
    CellsOfRenderedRow(cells);
    CellsWellFormed(RenderRow(cells));
    assert Cells(RenderRow(cells))[0] == HeaderToken;
    assert RenderRow(cells)[0] == '|';
  }

  /** After the header, a rendered line of four well-formed cells that is
      not a header line and holds some character besides `|`, `-` and space
      adds exactly its cells, as one row. */
  lemma RenderedRowKept(st: ScanState, cells: seq<string>)
    requires st.startParsing
    requires |cells| == 4 && forall k :: 0 <= k < 4 ==> WellFormedCell(cells[k])
    requires !Contains(RenderRow(cells), HeaderToken)
    requires exists k, i :: 0 <= k < 4 && 0 <= i < |cells[k]| && cells[k][i] !in DecorationChars
    ensures Step(st, RenderRow(cells)) == ScanState(true, st.tableData + [cells])
  {
    var line := RenderRow(cells);
    CellsOfRenderedRow(cells);
    CellsWellFormed(line);
    StripSpec(line, DecorationChars);
    var k, i :| 0 <= k < 4 && 0 <= i < |cells[k]| && cells[k][i] !in DecorationChars;
    ContainedChar(line, cells[k], cells[k][i]);
    assert line[0] == '|';
  }
}
