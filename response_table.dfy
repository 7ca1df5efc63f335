/**
 * The reply-table parser of main.py (`extract_table_from_response`): the
 * free-text reply of the language model is split into lines, the pipe lines
 * after a header line containing "Date" are split into cells, rows of exactly
 * four cells are kept in the column order Date, Concept, Amount (MXN), Type,
 * the amount loses its thousands separators and is then cast to a number.
 *
 * The loop itself is the method ExtractTable. Its specification is the fold
 * Run/Scan of the per-line Step; the lemmas below relate that fold to a
 * declarative description (Origins: which input lines produce a row) and
 * state what the parser promises about the rows it keeps.
 */
module ResponseTable {
  import opened PyStr

  /** The token that marks a header line (main.py:37). */
  const HeaderToken: string := "Date"

  /** The characters stripped off a line to recognise a decoration line such
      as `|---|---|` (main.py:40). */
  const DecorationChars: set<char> := {'|', '-', ' '}

  datatype Option<T> = None | Some(value: T)

  datatype Result<T, E> = Success(value: T) | Failure(error: E)

  /** The failure of the numeric cast of the amount column: the position of
      the first row whose cleaned amount does not parse, and that amount. */
  datatype AmountParseError = AmountParseError(row: nat, cell: string)

  /** One row of the resulting data frame, columns in the fixed order
      Date, Concept, Amount (MXN), Type. */
  datatype Transaction<A> = Transaction(date: string, concept: string, amount: A, category: string)

  /** The loop's variables: the `start_parsing` flag and the `table_data` list. */
  datatype ScanState = ScanState(startParsing: bool, tableData: seq<seq<string>>)

  const Start: ScanState := ScanState(false, [])

  // ---------------------------------------------------------------------------
  // Classifying one line
  // ---------------------------------------------------------------------------

  predicate IsPipeLine(line: string) {
    '|' in line
  }

  predicate IsHeader(line: string) {
    IsPipeLine(line) && Contains(line, HeaderToken)
  }

  /** A line made only of `|`, `-` and spaces. */
  predicate IsDecoration(line: string) {
    Strip(line, DecorationChars) == []
  }

  predicate WellFormedCell(cell: string) {
    cell != [] && '|' !in cell && Trimmed(cell)
  }

  /** Four well-formed cells: the shape of every kept row. */
  predicate WellFormedRow(row: seq<string>) {
    |row| == 4 && forall j :: 0 <= j < 4 ==> WellFormedCell(row[j])
  }

  /** `[t.strip() for t in parts if t.strip()]` */
  function TrimAndDropEmpty(parts: seq<string>): (cells: seq<string>)
    ensures |cells| <= |parts|
  {
    if parts == [] then []
    else
      var t := Trim(parts[0]);
      (if t == [] then [] else [t]) + TrimAndDropEmpty(parts[1..])
  }

  /** Stripping and dropping distributes over a concatenation of piece
      lists: each piece contributes its stripped text, in order, exactly
      when that text is non-empty. */
  lemma {:induction false} TrimAndDropAppend(a: seq<string>, b: seq<string>)
    ensures TrimAndDropEmpty(a + b) == TrimAndDropEmpty(a) + TrimAndDropEmpty(b)
  {
    if a == [] {
      assert a + b == b;
    } else {
      assert (a + b)[0] == a[0];
      assert (a + b)[1..] == a[1..] + b;
      TrimAndDropAppend(a[1..], b);
    }
  }

  /** One piece gives its stripped text, or nothing when that is empty. */
  lemma TrimAndDropOne(piece: string)
    ensures TrimAndDropEmpty([piece]) == (if Trim(piece) == [] then [] else [Trim(piece)])
  {
    assert [piece][1..] == [];
  }

  /** The cells of one table line (main.py:41-43): its `|`-separated pieces,
      each stripped of whitespace, the empty ones dropped. */
  function Cells(line: string): seq<string> {
    TrimAndDropEmpty(SplitOn(line, '|'))
  }

  /** A piece of a line without `|`, stripped of whitespace, is a substring of
      the line without `|` and without surrounding whitespace. */
  lemma TrimmedPiece(line: string, piece: string)
    requires '|' !in piece && Contains(line, piece)
    ensures var t := Trim(piece);
            '|' !in t && Contains(line, t) && Trimmed(t)
  {
    var t := Trim(piece);
    StripSpec(piece, Whitespace);
    ContainsTransitive(line, piece, t);
    if '|' in t {
      ContainedChar(piece, t, '|');
    }
  }

  lemma {:induction false} TrimmedPiecesInLine(line: string, parts: seq<string>)
    requires forall j :: 0 <= j < |parts| ==> '|' !in parts[j] && Contains(line, parts[j])
    ensures forall k :: 0 <= k < |TrimAndDropEmpty(parts)| ==>
              WellFormedCell(TrimAndDropEmpty(parts)[k]) && Contains(line, TrimAndDropEmpty(parts)[k])
  {
    if parts != [] {
      var t := Trim(parts[0]);
      var rest := TrimAndDropEmpty(parts[1..]);
      TrimmedPiecesInLine(line, parts[1..]);
      TrimmedPiece(line, parts[0]);
      if t != [] {
        var cells := [t] + rest;
        assert TrimAndDropEmpty(parts) == cells;
        assert forall k :: 1 <= k < |cells| ==> cells[k] == rest[k - 1];
      }
    }
  }

  /** Every cell of a line is non-empty, has no surrounding whitespace, holds
      no `|` and is a substring of the line. */
  lemma CellsWellFormed(line: string)
    ensures forall k :: 0 <= k < |Cells(line)| ==> WellFormedCell(Cells(line)[k]) && Contains(line, Cells(line)[k])
  {
    SplitOnPieces(line, '|');
    TrimmedPiecesInLine(line, SplitOn(line, '|'));
  }

  /** A line is a decoration line exactly when it is made only of `|`, `-`
      and spaces. */
  lemma DecorationExactly(line: string)
    ensures IsDecoration(line) <==> forall k :: 0 <= k < |line| ==> line[k] in DecorationChars
  {
    StripSpec(line, DecorationChars);
  }

  // ---------------------------------------------------------------------------
  // The loop, as a fold over the lines
  // ---------------------------------------------------------------------------

  /** One iteration of the loop of main.py:35-45. A header line turns parsing
      on; after that a non-decoration pipe line with exactly four cells
      appends those cells; every other line leaves the state as it is. */
  function Step(st: ScanState, line: string): (next: ScanState)
    ensures next.startParsing == (st.startParsing || IsHeader(line))
    ensures next.tableData == st.tableData || next.tableData == st.tableData + [Cells(line)]
    ensures |next.tableData| > |st.tableData| ==> |Cells(line)| == 4 && !IsHeader(line)
  {
    if !IsPipeLine(line) then st
    else if IsHeader(line) then ScanState(true, st.tableData)
    else if st.startParsing && !IsDecoration(line) then
      var row := Cells(line);
      if |row| == 4 then ScanState(st.startParsing, st.tableData + [row]) else st
    else st
  }

  /** The loop run over `lines` from state `st`. It only appends, and every
      row it appends has four well-formed cells. */
  function Run(st: ScanState, lines: seq<string>): (end: ScanState)
    ensures |st.tableData| <= |end.tableData| && end.tableData[..|st.tableData|] == st.tableData
    decreases |lines|
  {
    if lines == [] then st
    else
      var prev := Run(st, lines[..|lines| - 1]);
      var next := Step(prev, lines[|lines| - 1]);
      assert next.tableData[..|st.tableData|] == prev.tableData[..|st.tableData|];
      next
  }

  /** Every row the loop appends has four well-formed cells. */
  lemma {:induction false} RunRowsWellFormed(st: ScanState, lines: seq<string>)
    ensures forall k :: |st.tableData| <= k < |Run(st, lines).tableData| ==> WellFormedRow(Run(st, lines).tableData[k])
    decreases |lines|
  {
    if lines != [] {
      var prev := Run(st, lines[..|lines| - 1]);
      var line := lines[|lines| - 1];
      RunRowsWellFormed(st, lines[..|lines| - 1]);
      CellsWellFormed(line);
    }
  }

  /** The loop from its initial state, over all lines. */
  function Scan(lines: seq<string>): (end: ScanState)
    ensures forall k :: 0 <= k < |end.tableData| ==> WellFormedRow(end.tableData[k])
  {
    RunRowsWellFormed(Start, lines);
    Run(Start, lines)
  }

  /** `table_data` after the loop over `response.split('\n')` (main.py:31-45). */
  function TableData(response: string): (rows: seq<seq<string>>)
    ensures forall k :: 0 <= k < |rows| ==> WellFormedRow(rows[k])
  {
    Scan(SplitOn(response, '\n')).tableData
  }

  // ---------------------------------------------------------------------------
  // The data frame and the amount column
  // ---------------------------------------------------------------------------

  /** The data frame of main.py:47-49 before the numeric cast: one row per
      kept line, columns in the order Date, Concept, Amount (MXN), Type, the
      amount with its commas removed. */
  function Frame(tableData: seq<seq<string>>): (df: seq<Transaction<string>>)
    requires forall k :: 0 <= k < |tableData| ==> |tableData[k]| == 4
    ensures |df| == |tableData|
    ensures forall k :: 0 <= k < |df| ==>
              && df[k].date == tableData[k][0]
              && df[k].concept == tableData[k][1]
              && df[k].amount == RemoveCommas(tableData[k][2])
              && df[k].category == tableData[k][3]
              && ',' !in df[k].amount
  {
    seq(|tableData|, k requires 0 <= k < |tableData| =>
      Transaction(tableData[k][0], tableData[k][1], RemoveCommas(tableData[k][2]), tableData[k][3]))
  }

  /** `.astype(float)` on the amount column (main.py:49), with the number
      parser as a parameter: it succeeds exactly when every amount parses,
      and otherwise fails on the first amount that does not. */
  function CastAmounts<A>(df: seq<Transaction<string>>, parse: string -> Option<A>): (r: Result<seq<Transaction<A>>, AmountParseError>)
    ensures r.Success? <==> forall k :: 0 <= k < |df| ==> parse(df[k].amount).Some?
    ensures r.Success? ==>
              && |r.value| == |df|
              && forall k :: 0 <= k < |df| ==>
                   r.value[k] == Transaction(df[k].date, df[k].concept, parse(df[k].amount).value, df[k].category)
    ensures r.Failure? ==>
              && r.error.row < |df|
              && r.error.cell == df[r.error.row].amount
              && parse(r.error.cell).None?
              && forall k :: 0 <= k < r.error.row ==> parse(df[k].amount).Some?
  {
    if df == [] then Success([])
    else
      match parse(df[0].amount)
      case None => Failure(AmountParseError(0, df[0].amount))
      case Some(v) =>
        match CastAmounts(df[1..], parse)
        case Failure(e) => Failure(AmountParseError(e.row + 1, e.cell))
        case Success(rest) =>
          Success([Transaction(df[0].date, df[0].concept, v, df[0].category)] + rest)
  }

  /** When the first row's cleaned amount does not parse, the cast fails on
      row 0 with that amount, whatever the other rows hold. */
  lemma CastFailsOnFirstRow<A>(tableData: seq<seq<string>>, parse: string -> Option<A>)
    requires forall k :: 0 <= k < |tableData| ==> |tableData[k]| == 4
    requires |tableData| >= 1 && parse(RemoveCommas(tableData[0][2])).None?
    ensures CastAmounts(Frame(tableData), parse) == Failure(AmountParseError(0, RemoveCommas(tableData[0][2])))
  {
    var df := Frame(tableData);
    assert df[0].amount == RemoveCommas(tableData[0][2]);
  }

  /** `extract_table_from_response` (main.py:29-51), with the number parser of
      the amount column as a parameter. */
  method ExtractTable<A>(response: string, parseAmount: string -> Option<A>)
    returns (result: Result<seq<Transaction<A>>, AmountParseError>)
    ensures result == CastAmounts(Frame(TableData(response)), parseAmount)
  {
    var lines := SplitOn(response, '\n');
    var tableData: seq<seq<string>> := [];
    var startParsing := false;
    for i := 0 to |lines|
      invariant Run(Start, lines[..i]) == ScanState(startParsing, tableData)
    {
      assert lines[..i + 1][..i] == lines[..i];
      var line := lines[i];
      if IsPipeLine(line) {
        if IsHeader(line) {
          startParsing := true;
          continue;
        }
        if startParsing && !IsDecoration(line) {
          var row := Cells(line);
          if |row| == 4 {
            tableData := tableData + [row];
          }
        }
      }
    }
    assert lines[..|lines|] == lines;
    assert tableData == Scan(lines).tableData;
    result := CastAmounts(Frame(tableData), parseAmount);
  }
}
