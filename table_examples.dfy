/**
 * Concrete replies and what the parser makes of them. The table lines are
 * written with RenderRow, so `Header` below is the text
 * `| Date | Concept | Amount (MXN) | Type |`.
 */
module TableExamples {
  import opened PyStr
  import opened ResponseTable
  import opened TableProperties

  const HeaderCells: seq<string> := ["Date", "Concept", "Amount (MXN)", "Type"]

  /** The header line the language model is asked to write. */
  const Header: string := RenderRow(HeaderCells)

  /** `RENTA DEPTO CHAPULTEPEC`; the string literals of this module are
      written in short pieces because the verifier reasons about long
      literals slowly. */
  const RentConcept: string := "RENTA DEPTO" + " CHAPULTEPEC"

  const RentCells: seq<string> := ["2024-11-01", RentConcept, "12,345.00", "Expense"]

  /** `| 2024-11-01 | RENTA DEPTO CHAPULTEPEC | 12,345.00 | Expense |` */
  const Rent: string := RenderRow(RentCells)

  /** `|---|---|---|---|`, written in two pieces like the literals above. */
  const Rule: string := "|---|---|" + "---|---|"

  /** `|:---|:---|:---|:---|`, a rule line with alignment colons, written in
      two pieces like the literals above. */
  const AlignedRule: string := "|:---|:---|" + ":---|:---|"

  const AlignedCells: seq<string> := [":---", ":---", ":---", ":---"]

  lemma HeaderCellsWellFormed()
    ensures forall k :: 0 <= k < |HeaderCells| ==> WellFormedCell(HeaderCells[k])
  {
    HeaderDateAndConcept();
    HeaderAmountAndType();
  }

  lemma HeaderDateAndConcept()
    ensures WellFormedCell("Date") && WellFormedCell("Concept")
  {
    VisibleEndsTrimmed("Date");
    VisibleEndsTrimmed("Concept");
  }

  lemma HeaderAmountAndType()
    ensures WellFormedCell("Amount (MXN)") && WellFormedCell("Type")
  {
    VisibleEndsTrimmed("Amount (MXN)");
    VisibleEndsTrimmed("Type");
  }

  lemma HeaderIsHeader()
    ensures IsHeader(Header)
  {
    HeaderCellsWellFormed();
    RenderedHeader(HeaderCells);
  }

  lemma HeaderOneLine()
    ensures '\n' !in Header
  {
    RenderedRowAvoids(HeaderCells, '\n');
  }

  lemma RentCellsWellFormed()
    ensures |RentCells| == 4 && forall k :: 0 <= k < 4 ==> WellFormedCell(RentCells[k])
  {
    RentDateAndConcept();
    RentAmountAndType();
  }

  lemma RentDateAndConcept()
    ensures WellFormedCell("2024-11-01") && WellFormedCell(RentConcept)
  {
    VisibleEndsTrimmed("2024-11-01");
    VisibleEndsTrimmed(RentConcept);
  }

  lemma RentAmountAndType()
    ensures WellFormedCell("12,345.00") && WellFormedCell("Expense")
  {
    VisibleEndsTrimmed("12,345.00");
    VisibleEndsTrimmed("Expense");
  }

  lemma RentOneLine()
    ensures '\n' !in Rent
  {
    RenderedRowAvoids(RentCells, '\n');
  }

  lemma RentWithoutHeaderToken()
    ensures !Contains(Rent, HeaderToken)
  {
    RenderedRowAvoids(RentCells, 'a');
    MissingCharNotContained(Rent, HeaderToken, 'a');
  }

  /** After the header, the transaction line appends its four cells. */
  lemma RentKept()
    ensures Step(ScanState(true, []), Rent) == ScanState(true, [RentCells])
  {
    RentCellsWellFormed();
    RentWithoutHeaderToken();
    assert RentCells[0][0] !in DecorationChars;
    RenderedRowKept(ScanState(true, []), RentCells);
  }

  /** The loop over two lines is two steps. */
  lemma ScanTwo(a: string, b: string)
    ensures Scan([a, b]) == Step(Step(Start, a), b)
  {
    assert [a, b][..1] == [a];
    assert [a][..0] == [];
    assert Run(Start, [a]) == Step(Start, a);
  }

  /** A reply of two lines splits into those two lines. */
  lemma SplitTwo(a: string, b: string)
    requires '\n' !in a && '\n' !in b
    ensures SplitOn(a + "\n" + b, '\n') == [a, b]
  {
    SplitJoin([a, b], '\n');
  }

  /** The header followed by one transaction line gives exactly that
      line's cells as the one row. */
  lemma HeaderThenRentRows()
    ensures TableData(Header + "\n" + Rent) == [RentCells]
  {
    HeaderIsHeader();
    HeaderOneLine();
    RentOneLine();
    RentKept();
    SplitTwo(Header, Rent);
    ScanTwo(Header, Rent);
    assert Step(Start, Header) == ScanState(true, []);
  }

  /** The data frame of that reply: one row, columns in the order Date,
      Concept, Amount (MXN), Type, the amount without its thousands
      separator. */
  lemma HeaderThenRent()
    ensures Frame(TableData(Header + "\n" + Rent)) ==
            [Transaction("2024-11-01", RentConcept, "12345.00", "Expense")]
  {
    HeaderThenRentRows();
    RentAmount();
    FrameOfOneRow(RentCells);
  }

  lemma FrameOfOneRow(row: seq<string>)
    requires |row| == 4
    ensures Frame([row]) == [Transaction(row[0], row[1], RemoveCommas(row[2]), row[3])]
  {
  }

  lemma RentAmount()
    ensures RemoveCommas(RentCells[2]) == "12345.00"
  {
    assert RentCells[2] == "12" + [','] + "345.00";
    RemoveCommasIgnoresInsertedComma("12", "345.00");
    RemoveCommasNoComma("12345.00");
  }

  /** A header followed only by a rule line gives no rows. */
  lemma HeaderThenRule()
    ensures TableData(Header + "\n" + Rule) == []
  {
    HeaderIsHeader();
    HeaderOneLine();
    SplitTwo(Header, Rule);
    ScanTwo(Header, Rule);
    DecorationLineIgnored(ScanState(true, []), Rule);
  }

  /** `piece|` written n times. */
  function Repeat(piece: string, n: nat): string {
    if n == 0 then [] else piece + ['|'] + Repeat(piece, n - 1)
  }

  lemma {:induction false} SplitRepeat(piece: string, n: nat)
    requires '|' !in piece
    ensures SplitOn(Repeat(piece, n), '|') == seq(n, _ => piece) + [[]]
  {
    if n > 0 {
      SplitAfterPiece(piece, '|', Repeat(piece, n - 1));
      SplitRepeat(piece, n - 1);
      assert seq(n, _ => piece) == [piece] + seq(n - 1, _ => piece);
    }
  }

  lemma {:induction false} TrimRepeat(piece: string, n: nat)
    requires Trim(piece) == piece != []
    ensures TrimAndDropEmpty(seq(n, _ => piece) + [[]]) == seq(n, _ => piece)
  {
    assert Trim([]) == [];
    if n > 0 {
      TrimRepeat(piece, n - 1);
      assert seq(n, _ => piece) + [[]] == [piece] + (seq(n - 1, _ => piece) + [[]]);
      assert seq(n, _ => piece) == [piece] + seq(n - 1, _ => piece);
    } else {
      assert seq(n, _ => piece) + [[]] == [[]];
    }
  }

  lemma AlignedRulePieces()
    ensures SplitOn(AlignedRule, '|') == [[]] + (seq(4, _ => ":---") + [[]])
  {
    assert AlignedRule == [] + ['|'] + Repeat(":---", 4);
    SplitAfterPiece([], '|', Repeat(":---", 4));
    SplitRepeat(":---", 4);
  }

  lemma ColonDashesTrimmed()
    ensures Trim(":---") == ":---"
  {
    VisibleEndsTrimmed(":---");
    StripSurrounded([], ":---", [], Whitespace);
    assert [] + ":---" + [] == ":---";
  }

  lemma AlignedRuleSplit()
    ensures Cells(AlignedRule) == AlignedCells
  {
    AlignedRulePieces();
    ColonDashesTrimmed();
    TrimRepeat(":---", 4);
    assert Trim([]) == [];
    assert seq(4, _ => ":---") == AlignedCells;
  }

  /** `strip('|- ')` leaves the colons of an aligned rule, so the rule is
      not taken for decoration: its cells are four ":---". */
  lemma AlignedRuleCells()
    ensures '\n' !in AlignedRule && !IsHeader(AlignedRule) && !IsDecoration(AlignedRule)
    ensures Cells(AlignedRule) == AlignedCells
  {
    AlignedRuleSplit();
    AlignedRuleNotDecoration();
    MissingCharNotContained(AlignedRule, HeaderToken, 'D');
  }

  lemma AlignedRuleNotDecoration()
    ensures !IsDecoration(AlignedRule)
  {
    StripSpec(AlignedRule, DecorationChars);
    assert AlignedRule[1] !in DecorationChars;
  }

  /** A header followed by an aligned rule gives one row of ":---" cells,
      and so a cast that rejects ":---" fails on row 0. */
  lemma HeaderThenAlignedRule<A>(parse: string -> Option<A>)
    requires parse(":---").None?
    ensures TableData(Header + "\n" + AlignedRule) == [AlignedCells]
    ensures CastAmounts(Frame(TableData(Header + "\n" + AlignedRule)), parse) == Failure(AmountParseError(0, ":---"))
  {
    HeaderIsHeader();
    HeaderOneLine();
    AlignedRuleCells();
    SplitTwo(Header, AlignedRule);
    ScanTwo(Header, AlignedRule);
    assert Step(Start, Header) == ScanState(true, []);
    FrameOfOneRow(AlignedCells);
    RemoveCommasNoComma(":---");
  }

  lemma AlignedReplyLines(rest: string)
    ensures SplitOn(Header + "\n" + AlignedRule + "\n" + rest, '\n') == [Header, AlignedRule] + SplitOn(rest, '\n')
  {
    HeaderOneLine();
    AlignedRuleCells();
    var reply := Header + "\n" + AlignedRule + "\n" + rest;
    assert reply == Header + ['\n'] + (AlignedRule + ['\n'] + rest);
    SplitAfterPiece(Header, '\n', AlignedRule + ['\n'] + rest);
    SplitAfterPiece(AlignedRule, '\n', rest);
  }

  lemma AlignedTwoLineRows()
    ensures Scan([Header, AlignedRule]).tableData == [AlignedCells]
  {
    HeaderIsHeader();
    AlignedRuleCells();
    ScanTwo(Header, AlignedRule);
    assert Step(Start, Header) == ScanState(true, []);
  }

  /** Whatever lines follow the aligned rule, the first row is the ":---"
      row. */
  lemma AlignedRuleFirstRow(rest: string)
    ensures var rows := TableData(Header + "\n" + AlignedRule + "\n" + rest);
            |rows| >= 1 && rows[0] == AlignedCells
  {
    AlignedReplyLines(rest);
    AlignedTwoLineRows();
    EarlierRowsKept([Header, AlignedRule], SplitOn(rest, '\n'));
  }

  /** So a cast that rejects ":---" fails on row 0 for the whole reply,
      whatever follows the aligned rule. */
  lemma AlignedRuleBreaksCast<A>(parse: string -> Option<A>, rest: string)
    requires parse(":---").None?
    ensures CastAmounts(Frame(TableData(Header + "\n" + AlignedRule + "\n" + rest)), parse)
            == Failure(AmountParseError(0, ":---"))
  {
    AlignedRuleFirstRow(rest);
    RemoveCommasNoComma(":---");
    CastFailsOnFirstRow(TableData(Header + "\n" + AlignedRule + "\n" + rest), parse);
  }

  /** "1,234.50" and "1234.50" clean to the same amount. */
  lemma CommaVariantsAgree()
    ensures RemoveCommas("1,234.50") == RemoveCommas("1234.50") == "1234.50"
  {
    RemoveCommasIgnoresInsertedComma("1", "234.50");
    RemoveCommasNoComma("1234.50");
  }

  /** An empty reply gives an empty table. */
  lemma EmptyReply()
    ensures TableData("") == []
  {
    assert SplitOn("", '\n') == [""];
    NoHeaderNoRows([""]);
  }
}
