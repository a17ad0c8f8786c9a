/** Decoding the token stream of a sparse SpreadsheetML table into rows of cell text. */
module Spreadsheet {
  import opened Prelude

  /** The tokens the decoder tells apart; index is ss:Index when the attribute is there and is a number. */
  datatype Token =
    | RowStart
    | RowEnd
    | CellStart(index: Option<int>)
    | CellEnd
    | DataStart
    | DataEnd
    | Text(text: string)
    | Other

  /** The decoder's variables. next is where a cell without an index lands. */
  datatype Decoder = Decoder(rows: seq<seq<string>>, row: seq<string>, next: int, inData: bool, buffer: string)

  const START := Decoder([], [], 0, false, "")

  function Blank(n: nat): (r: seq<string>)
    ensures |r| == n && forall i :: 0 <= i < n ==> r[i] == ""
  {
    seq(n, i => "")
  }

  function PadTo(record: seq<string>, n: nat): seq<string> {
    if |record| >= n then record else record + Blank(n - |record|)
  }

  lemma {:induction false} PadOneMore(record: seq<string>, n: nat)
    requires |record| <= n
    ensures PadTo(record, n + 1) == PadTo(record, n) + [""] && |PadTo(record, n)| == n
  {
  }

  /** None: the row buffer is indexed out of range, and the program stops. */
  function Step(d: Decoder, t: Token): Option<Decoder> {
    match t
    case RowStart => Some(d.(row := [], next := 0))
    case RowEnd => Some(d.(rows := d.rows + [d.row], row := []))
    case CellStart(index) =>
      var column := if index.Some? then index.value - 1 else d.next;
      Some(d.(row := if column >= |d.row| then PadTo(d.row, column + 1) else d.row, next := column + 1))
    case DataStart => Some(d.(inData := true, buffer := ""))
    case DataEnd =>
      if !(d.inData && d.next > 0) then Some(d.(inData := false))
      else if d.next > |d.row| then None
      else Some(d.(row := d.row[d.next - 1 := d.buffer], inData := false))
    case Text(text) => Some(if d.inData then d.(buffer := d.buffer + text) else d)
    case CellEnd => Some(d)
    case Other => Some(d)
  }

  function Run(d: Decoder, tokens: seq<Token>): Option<Decoder>
    decreases tokens
  {
    if tokens == [] then Some(d)
    else
      var after := Step(d, tokens[0]);
      if after.None? then None else Run(after.value, tokens[1..])
  }

  lemma {:induction false} RunAppend(d: Decoder, a: seq<Token>, b: seq<Token>)
    ensures Run(d, a + b) == if Run(d, a).None? then None else Run(Run(d, a).value, b)
    decreases a
  {
    if a == [] {
      assert a + b == b;
    } else {
      var after := Step(d, a[0]);
      if after.Some? {
        RunAppend(after.value, a[1..], b);
      }
      assert (a + b)[1..] == a[1..] + b;
    }
  }

  lemma {:induction false} RunOne(d: Decoder, t: Token)
    ensures Run(d, [t]) == Step(d, t)
  {
    var after := Step(d, t);
    assert after.Some? ==> Run(after.value, [t][1..]) == after;
  }

  lemma {:induction false} RunOnce(tokens: seq<Token>, n: nat)
    requires n < |tokens|
    ensures var d := Run(START, tokens[..n]);
      Run(START, tokens[..n + 1]) == if d.None? then None else Step(d.value, tokens[n])
  {
    PrefixStep(tokens, n);
    RunAppend(START, tokens[..n], [tokens[n]]);
    var d := Run(START, tokens[..n]);
    if d.Some? {
      RunOne(d.value, tokens[n]);
    }
    hide *;
  }

  /** Where the decoder has stopped it has stopped. */
  lemma {:induction false} RunStopped(tokens: seq<Token>, n: nat)
    requires n <= |tokens| && Run(START, tokens[..n]).None?
    ensures Run(START, tokens).None?
  {
    assert tokens == tokens[..n] + tokens[n..];
    RunAppend(START, tokens[..n], tokens[n..]);
    hide *;
  }

  /** decodeSpreadsheetRows on a stream that tokenized without an error. ok is false where the program would panic. */
  method DecodeRows(tokens: seq<Token>) returns (rows: seq<seq<string>>, ok: bool)
    ensures ok <==> Run(START, tokens).Some?
    ensures ok ==> rows == Run(START, tokens).value.rows
  {
    rows := [];
    var currentRow: seq<string> := [];
    var nextIndex := 0;
    var inData := false;
    var dataBuf := "";
    var i := 0;
    assert Run(START, tokens[..0]) == Some(START);
    hide Run, PadTo;
    while i < |tokens|
      invariant 0 <= i <= |tokens|
      invariant Run(START, tokens[..i]) == Some(Decoder(rows, currentRow, nextIndex, inData, dataBuf))
    {
      RunOnce(tokens, i);
      match tokens[i] {
        case RowStart =>
          currentRow := [];
          nextIndex := 0;
        case CellStart(index) =>
          var colIndex := nextIndex;
          if index.Some? {
            colIndex := index.value - 1;
          }
          if colIndex >= |currentRow| {
            currentRow := PadTo(currentRow, colIndex + 1);
          }
          nextIndex := colIndex + 1;
        case DataStart =>
          inData := true;
          dataBuf := "";
        case Text(text) =>
          if inData {
            dataBuf := dataBuf + text;
          }
        case DataEnd =>
          if inData && nextIndex > 0 {
            if nextIndex > |currentRow| {
              RunStopped(tokens, i + 1);
              return rows, false;
            }
            currentRow := currentRow[nextIndex - 1 := dataBuf];
          }
          inData := false;
        case RowEnd =>
          rows := rows + [currentRow];
          currentRow := [];
        case CellEnd =>
        case Other =>
      }
      i := i + 1;
    }
    assert tokens[..i] == tokens;
    ok := true;
  }

  // ---------------------------------------------------------------------------
  // When the row buffer is indexed out of range
  // ---------------------------------------------------------------------------

  /** Among the first n tokens a Row was closed, and neither a Row nor a Cell opened after it. */
  predicate PastRow(tokens: seq<Token>, n: nat)
    requires n <= |tokens|
  {
    n > 0 && (tokens[n - 1].RowEnd?
              || (!tokens[n - 1].RowStart? && !tokens[n - 1].CellStart? && PastRow(tokens, n - 1)))
  }

  /** The first n tokens leave a Data element open. */
  predicate DataOpen(tokens: seq<Token>, n: nat)
    requires n <= |tokens|
  {
    n > 0 && (tokens[n - 1].DataStart? || (!tokens[n - 1].DataEnd? && DataOpen(tokens, n - 1)))
  }

  /** The column after the last cell of the row the n-th token belongs to, or of the row before it. */
  function NextColumn(tokens: seq<Token>, n: nat): int
    requires n <= |tokens|
  {
    if n == 0 || tokens[n - 1].RowStart? then 0
    else if tokens[n - 1].CellStart? then
      if tokens[n - 1].index.Some? then tokens[n - 1].index.value else NextColumn(tokens, n - 1) + 1
    else NextColumn(tokens, n - 1)
  }

  /** Token k closes a Data element that lies past the end of a row that had cells. */
  predicate StrayData(tokens: seq<Token>, k: nat)
    requires k < |tokens|
  {
    tokens[k].DataEnd? && DataOpen(tokens, k) && PastRow(tokens, k) && NextColumn(tokens, k) > 0
  }

  /** What the decoder's variables mean. */
  lemma {:induction false} RunMeans(tokens: seq<Token>, n: nat)
    requires n <= |tokens|
    ensures var d := Run(START, tokens[..n]);
      d.Some? ==>
        && d.value.inData == DataOpen(tokens, n) && d.value.next == NextColumn(tokens, n)
        && (if PastRow(tokens, n) then d.value.row == [] else d.value.next <= |d.value.row|)
  {
    if n > 0 {
      RunMeans(tokens, n - 1);
      PrefixStep(tokens, n - 1);
      RunAppend(START, tokens[..n - 1], [tokens[n - 1]]);
      var d := Run(START, tokens[..n - 1]);
      if d.Some? {
        RunOne(d.value, tokens[n - 1]);
      }
      hide Run;
    }
  }

  ghost predicate AnyStray(tokens: seq<Token>, n: nat)
    requires n <= |tokens|
  {
    exists k :: 0 <= k < n && StrayData(tokens, k)
  }

  lemma {:induction false} AnyStrayOnce(tokens: seq<Token>, n: nat)
    requires n < |tokens|
    ensures AnyStray(tokens, n + 1) <==> AnyStray(tokens, n) || StrayData(tokens, n)
  {
    hide StrayData;
  }

  /** One more token. */
  /** With the decoder's variables meaning what they do, the next token fails exactly when it is stray data. */
  lemma {:induction false} StrayStep(d: Decoder, tokens: seq<Token>, n: nat)
    requires n < |tokens| && d.inData == DataOpen(tokens, n) && d.next == NextColumn(tokens, n)
    requires if PastRow(tokens, n) then d.row == [] else d.next <= |d.row|
    ensures Step(d, tokens[n]).None? <==> StrayData(tokens, n)
  {
    hide DataOpen, NextColumn, PastRow, PadTo;
  }

  /** The decoder fails if and only if some Data element closes past the end of a row that had cells. */
  lemma {:induction false} FailsExactlyOnStrayData(tokens: seq<Token>, n: nat)
    requires n <= |tokens|
    ensures Run(START, tokens[..n]).None? <==> AnyStray(tokens, n)
  {
    if n == 0 {
      assert tokens[..0] == [];
    } else {
      FailsExactlyOnStrayData(tokens, n - 1);
      RunMeans(tokens, n - 1);
      RunOnce(tokens, n - 1);
      AnyStrayOnce(tokens, n - 1);
      var d := Run(START, tokens[..n - 1]);
      if d.Some? {
        StrayStep(d.value, tokens, n - 1);
      }
      hide *;
    }
  }

  datatype Place = Outside | InRow | InCell | InData | Broken

  /** Data inside Cell inside Row, and none of them inside itself. */
  function PlaceAfter(tokens: seq<Token>, n: nat): Place
    requires n <= |tokens|
  {
    if n == 0 then Outside
    else
      match (PlaceAfter(tokens, n - 1), tokens[n - 1])
      case (Outside, RowStart) => InRow
      case (InRow, CellStart(_)) => InCell
      case (InCell, DataStart) => InData
      case (InData, DataEnd) => InCell
      case (InCell, CellEnd) => InRow
      case (InRow, RowEnd) => Outside
      case (place, Text(_)) => place
      case (place, Other) => place
      case _ => Broken
  }

  lemma {:induction false} PlaceMeans(tokens: seq<Token>, n: nat)
    requires n <= |tokens| && PlaceAfter(tokens, n) != Broken
    ensures PlaceAfter(tokens, n) != Outside ==> !PastRow(tokens, n)
  {
    if n > 0 {
      PlaceMeans(tokens, n - 1);
    }
  }

  lemma {:induction false} PlaceBefore(tokens: seq<Token>, k: nat, n: nat)
    requires k <= n <= |tokens| && PlaceAfter(tokens, n) != Broken
    ensures PlaceAfter(tokens, k) != Broken
    decreases n
  {
    if k < n {
      PlaceBefore(tokens, k, n - 1);
    }
  }

  /** A well-nested stream never fails. */
  lemma {:induction false} WellNestedNeverFails(tokens: seq<Token>)
    requires PlaceAfter(tokens, |tokens|) != Broken
    ensures Run(START, tokens).Some?
  {
    forall k | 0 <= k < |tokens| ensures !StrayData(tokens, k) {
      PlaceBefore(tokens, k, |tokens|);
      PlaceBefore(tokens, k + 1, |tokens|);
      PlaceMeans(tokens, k);
    }
    FailsExactlyOnStrayData(tokens, |tokens|);
    assert tokens[..|tokens|] == tokens;
  }

  /** The smallest stream that fails: a Data element after a row with one cell. */
  lemma {:induction false} StrayDataFails(text: string)
    ensures Run(START, [RowStart, CellStart(None), CellEnd, RowEnd, DataStart, Text(text), DataEnd]).None?
  {
    var tokens := [RowStart, CellStart(None), CellEnd, RowEnd, DataStart, Text(text), DataEnd];
    assert PastRow(tokens, 4) && PastRow(tokens, 5) && PastRow(tokens, 6);
    assert NextColumn(tokens, 1) == 0 && NextColumn(tokens, 2) == 1 && NextColumn(tokens, 3) == 1;
    assert NextColumn(tokens, 4) == 1 && NextColumn(tokens, 5) == 1 && NextColumn(tokens, 6) == 1;
    assert DataOpen(tokens, 5) && DataOpen(tokens, 6);
    assert StrayData(tokens, 6);
    FailsExactlyOnStrayData(tokens, 7);
    assert tokens[..7] == tokens;
  }

  // ---------------------------------------------------------------------------
  // Writing a table sparsely, and reading it back
  // ---------------------------------------------------------------------------

  /** How one cell is written: left out, written without Data, or with its text in any number of pieces. */
  datatype Cell = Dropped | Bare(indexed: bool) | Filled(indexed: bool, pieces: seq<string>)

  function Joined(pieces: seq<string>): string {
    if pieces == [] then "" else Joined(pieces[..|pieces| - 1]) + pieces[|pieces| - 1]
  }

  /** A cell after a dropped one has to say where it stands; any other cell may. */
  predicate Legal(cells: seq<Cell>, row: seq<string>) {
    && |cells| == |row|
    && (forall c :: 0 <= c < |cells| ==> (if cells[c].Filled? then Joined(cells[c].pieces) == row[c] else row[c] == ""))
    && (forall c :: 0 < c < |cells| && cells[c - 1].Dropped? && !cells[c].Dropped? ==> cells[c].indexed)
  }

  function Pieces(pieces: seq<string>): seq<Token> {
    seq(|pieces|, i requires 0 <= i < |pieces| => Text(pieces[i]))
  }

  function EncodeData(pieces: seq<string>): seq<Token> {
    [DataStart] + (Pieces(pieces) + ([DataEnd] + [CellEnd]))
  }

  function EncodeCell(cell: Cell, column: nat): seq<Token> {
    match cell
    case Dropped => []
    case Bare(indexed) => [CellStart(if indexed then Some(column + 1) else None), CellEnd]
    case Filled(indexed, pieces) =>
      [CellStart(if indexed then Some(column + 1) else None)] + EncodeData(pieces)
  }

  function EncodeCells(cells: seq<Cell>, n: nat): seq<Token>
    requires n <= |cells|
  {
    if n == 0 then [] else EncodeCells(cells, n - 1) + EncodeCell(cells[n - 1], n - 1)
  }

  function EncodeRow(cells: seq<Cell>): seq<Token> {
    [RowStart] + EncodeCells(cells, |cells|) + [RowEnd]
  }

  function EncodeTable(table: seq<seq<Cell>>, n: nat): seq<Token>
    requires n <= |table|
  {
    if n == 0 then [] else EncodeTable(table, n - 1) + EncodeRow(table[n - 1])
  }

  lemma {:induction false} RunPieces(d: Decoder, pieces: seq<string>)
    requires d.inData
    ensures Run(d, Pieces(pieces)) == Some(d.(buffer := d.buffer + Joined(pieces)))
  {
    if pieces == [] {
      assert d.buffer + "" == d.buffer;
    } else {
      var init, last := pieces[..|pieces| - 1], pieces[|pieces| - 1];
      assert Pieces(pieces) == Pieces(init) + [Text(last)];
      RunPieces(d, init);
      RunAppend(d, Pieces(init), [Text(last)]);
      RunOne(d.(buffer := d.buffer + Joined(init)), Text(last));
      assert d.buffer + (Joined(init) + last) == (d.buffer + Joined(init)) + last;
    }
  }

  /** A cell written at a column of its own or a later one ends up in that column, and nowhere else. */
  lemma {:induction false} RunCell(d: Decoder, cell: Cell, column: nat)
    requires !d.inData && |d.row| <= column && (cell.Dropped? || cell.indexed || d.next == column)
    ensures var after := Run(d, EncodeCell(cell, column));
      && after.Some? && !after.value.inData && after.value.rows == d.rows
      && (cell.Dropped? ==> after.value == d)
      && (!cell.Dropped? ==>
            && after.value.next == column + 1
            && after.value.row == PadTo(d.row, column) + [if cell.Filled? then Joined(cell.pieces) else ""])
  {
    if !cell.Dropped? {
      PadOneMore(d.row, column);
      var open := CellStart(if cell.indexed then Some(column + 1) else None);
      var ready := d.(row := PadTo(d.row, column + 1), next := column + 1);
      assert Step(d, open) == Some(ready);
      RunOne(d, open);
      if cell.Bare? {
        RunOne(ready, CellEnd);
        RunThen(d, [open], ready, [CellEnd]);
        assert EncodeCell(cell, column) == [open] + [CellEnd];
      } else {
        RunData(ready, cell.pieces);
        RunThen(d, [open], ready, EncodeData(cell.pieces));
        assert EncodeCell(cell, column) == [open] + EncodeData(cell.pieces);
      }
    }
  }

  lemma {:induction false} RunThen(d: Decoder, a: seq<Token>, middle: Decoder, b: seq<Token>)
    requires Run(d, a) == Some(middle)
    ensures Run(d, a + b) == Run(middle, b)
  {
    RunAppend(d, a, b);
  }

  /** The data of a cell is written to the column the cell opened. */
  lemma {:induction false} RunData(d: Decoder, pieces: seq<string>)
    requires !d.inData && 0 < d.next == |d.row|
    ensures var after := Run(d, EncodeData(pieces));
      && after.Some? && !after.value.inData && after.value.rows == d.rows && after.value.next == d.next
      && after.value.row == d.row[d.next - 1 := Joined(pieces)]
  {
    var inside := d.(inData := true, buffer := "");
    var read := inside.(buffer := Joined(pieces));
    var done := read.(row := d.row[d.next - 1 := Joined(pieces)], inData := false);
    RunOne(d, DataStart);
    RunThen(d, [DataStart], inside, Pieces(pieces) + ([DataEnd] + [CellEnd]));
    RunPieces(inside, pieces);
    assert "" + Joined(pieces) == Joined(pieces);
    RunThen(inside, Pieces(pieces), read, [DataEnd] + [CellEnd]);
    RunOne(read, DataEnd);
    RunThen(read, [DataEnd], done, [CellEnd]);
    RunOne(done, CellEnd);
  }

  lemma {:induction false} LegalAt(cells: seq<Cell>, row: seq<string>, c: nat)
    requires Legal(cells, row) && c < |cells|
    ensures |row| == |cells| && row[c] == (if cells[c].Filled? then Joined(cells[c].pieces) else "")
    ensures cells[c].Dropped? || cells[c].indexed || c == 0 || !cells[c - 1].Dropped?
  {
  }

  /** With n columns read, the row buffer is those columns, up to trailing empty ones. */
  ghost predicate Filling(d: Decoder, rows: seq<seq<string>>, cells: seq<Cell>, row: seq<string>, n: nat)
    requires n <= |cells| == |row|
  {
    && !d.inData && d.rows == rows
    && |d.row| <= n && PadTo(d.row, n) == row[..n]
    && (n == 0 || !cells[n - 1].Dropped? ==> d.next == n)
  }

  lemma {:induction false} FillOneMore(d: Decoder, rows: seq<seq<string>>, cells: seq<Cell>, row: seq<string>, n: nat)
    requires Legal(cells, row) && n < |cells| && Filling(d, rows, cells, row, n)
    ensures Run(d, EncodeCell(cells[n], n)).Some?
    ensures Filling(Run(d, EncodeCell(cells[n], n)).value, rows, cells, row, n + 1)
  {
    hide *;
    LegalAt(cells, row, n);
    FillingFits(d, rows, cells, row, n);
    RunCell(d, cells[n], n);
    var after := Run(d, EncodeCell(cells[n], n)).value;
    if cells[n].Dropped? {
      FillDropped(d, rows, cells, row, n);
    } else {
      FillWritten(d, after, rows, cells, row, n);
    }
  }

  lemma {:induction false} FillingFits(d: Decoder, rows: seq<seq<string>>, cells: seq<Cell>, row: seq<string>, n: nat)
    requires n <= |cells| == |row| && Filling(d, rows, cells, row, n)
    ensures !d.inData && |d.row| <= n && d.rows == rows && PadTo(d.row, n) == row[..n]
    ensures n == 0 || !cells[n - 1].Dropped? ==> d.next == n
  {
    hide PadTo;
  }

  lemma {:induction false} FillDropped(d: Decoder, rows: seq<seq<string>>, cells: seq<Cell>, row: seq<string>, n: nat)
    requires n < |cells| == |row| && Filling(d, rows, cells, row, n) && cells[n].Dropped? && row[n] == ""
    ensures Filling(d, rows, cells, row, n + 1)
  {
    PadOneMore(d.row, n);
    assert row[..n + 1] == row[..n] + [""];
    hide PadTo;
  }

  lemma {:induction false} FillWritten(d: Decoder, after: Decoder, rows: seq<seq<string>>, cells: seq<Cell>,
      row: seq<string>, n: nat)
    requires n < |cells| == |row| && Filling(d, rows, cells, row, n)
    requires !after.inData && after.rows == rows && after.next == n + 1
    requires after.row == PadTo(d.row, n) + [row[n]]
    ensures Filling(after, rows, cells, row, n + 1)
  {
    assert after.row == row[..n + 1];
    PadWhole(after.row);
    hide PadTo;
  }

  lemma {:induction false} PadWhole(record: seq<string>)
    ensures PadTo(record, |record|) == record
  {
  }

  lemma {:induction false} RunCells(d: Decoder, cells: seq<Cell>, row: seq<string>, n: nat)
    requires Legal(cells, row) && n <= |cells| && !d.inData && d.row == [] && d.next == 0
    ensures Run(d, EncodeCells(cells, n)).Some?
    ensures Filling(Run(d, EncodeCells(cells, n)).value, d.rows, cells, row, n)
  {
    hide *;
    NothingRun(d, cells, row);
    if n == 0 {
      FillingStarts(d, cells, row);
    } else {
      RunCellsTo(d, cells, n);
      RunCells(d, cells, row, n - 1);
      FillOneMore(Run(d, EncodeCells(cells, n - 1)).value, d.rows, cells, row, n - 1);
    }
  }

  lemma {:induction false} NothingRun(d: Decoder, cells: seq<Cell>, row: seq<string>)
    requires Legal(cells, row)
    ensures |cells| == |row| && Run(d, EncodeCells(cells, 0)) == Some(d)
  {
  }

  lemma {:induction false} FillingStarts(d: Decoder, cells: seq<Cell>, row: seq<string>)
    requires |cells| == |row| && !d.inData && d.row == [] && d.next == 0
    ensures Filling(d, d.rows, cells, row, 0)
  {
    assert row[..0] == [];
  }

  lemma {:induction false} RunCellsTo(d: Decoder, cells: seq<Cell>, n: nat)
    requires 0 < n <= |cells|
    ensures var before := Run(d, EncodeCells(cells, n - 1));
      Run(d, EncodeCells(cells, n))
        == if before.None? then None else Run(before.value, EncodeCell(cells[n - 1], n - 1))
  {
    RunAppend(d, EncodeCells(cells, n - 1), EncodeCell(cells[n - 1], n - 1));
    hide Run, EncodeCell;
  }

  lemma {:induction false} RunRow(d: Decoder, cells: seq<Cell>, row: seq<string>)
    requires Legal(cells, row) && !d.inData
    ensures var after := Run(d, EncodeRow(cells));
      && after.Some? && !after.value.inData
      && |after.value.rows| == |d.rows| + 1 && after.value.rows[..|d.rows|] == d.rows
      && PadTo(after.value.rows[|d.rows|], |row|) == row
  {
    var begun := d.(row := [], next := 0);
    var body := EncodeCells(cells, |cells|);
    assert EncodeRow(cells) == [RowStart] + (body + [RowEnd]);
    RunCells(begun, cells, row, |cells|);
    var filled := Run(begun, body).value;
    FilledRow(filled, d.rows, cells, row);
    RunOne(d, RowStart);
    RunOne(filled, RowEnd);
    hide *;
    RunThen(begun, body, filled, [RowEnd]);
    RunThen(d, [RowStart], begun, body + [RowEnd]);
  }

  lemma {:induction false} FilledRow(d: Decoder, rows: seq<seq<string>>, cells: seq<Cell>, row: seq<string>)
    requires |cells| == |row| && Filling(d, rows, cells, row, |row|)
    ensures PadTo(d.row, |row|) == row && !d.inData && d.rows == rows
  {
    assert row[..|row|] == row;
  }

  ghost predicate AllLegal(table: seq<seq<Cell>>, rows: seq<seq<string>>, columns: nat) {
    |table| == |rows| && forall i :: 0 <= i < |rows| ==> Legal(table[i], rows[i]) && |rows[i]| == columns
  }

  /** Row i of what was read, padded, is row i of what was written. */
  ghost predicate ReadsBack(read: seq<seq<string>>, rows: seq<seq<string>>, n: nat, columns: nat) {
    n <= |rows| && |read| == n && forall i :: 0 <= i < n ==> PadTo(read[i], columns) == rows[i]
  }

  lemma {:induction false} RunTable(table: seq<seq<Cell>>, rows: seq<seq<string>>, n: nat, columns: nat)
    requires AllLegal(table, rows, columns) && n <= |table|
    ensures var after := Run(START, EncodeTable(table, n));
      after.Some? && !after.value.inData && ReadsBack(after.value.rows, rows, n, columns)
  {
    if n > 0 {
      hide Run, PadTo, EncodeRow, Legal, ReadsBack;
      RunTable(table, rows, n - 1, columns);
      var before := Run(START, EncodeTable(table, n - 1)).value;
      RunRow(before, table[n - 1], rows[n - 1]);
      RunAppend(START, EncodeTable(table, n - 1), EncodeRow(table[n - 1]));
      OneMoreRow(before.rows, Run(before, EncodeRow(table[n - 1])).value.rows, rows, n - 1, columns);
    }
  }

  lemma {:induction false} OneMoreRow(before: seq<seq<string>>, read: seq<seq<string>>, rows: seq<seq<string>>,
      n: nat, columns: nat)
    requires ReadsBack(before, rows, n, columns) && n < |rows|
    requires |read| == n + 1 && read[..n] == before && PadTo(read[n], columns) == rows[n]
    ensures ReadsBack(read, rows, n + 1, columns)
  {
    forall i | 0 <= i < n + 1 ensures PadTo(read[i], columns) == rows[i] {
      if i < n { assert read[i] == read[..n][i]; }
    }
  }

  /** What is left of a stream without its text outside Data and the elements the decoder does not know. */
  function Markup(tokens: seq<Token>, n: nat): seq<Token>
    requires n <= |tokens|
  {
    if n == 0 then []
    else if tokens[n - 1].Other? || (tokens[n - 1].Text? && !DataOpen(tokens, n - 1)) then Markup(tokens, n - 1)
    else Markup(tokens, n - 1) + [tokens[n - 1]]
  }

  /** The decoder sees nothing else. */
  lemma {:induction false} MarkupDecides(tokens: seq<Token>, n: nat)
    requires n <= |tokens|
    ensures Run(START, Markup(tokens, n)) == Run(START, tokens[..n])
  {
    hide Run, PadTo, NextColumn, PastRow, DataOpen;
    if n == 0 {
      assert tokens[..n] == [];
    } else {
      MarkupDecides(tokens, n - 1);
      RunMeans(tokens, n - 1);
      RunOnce(tokens, n - 1);
      RunAppend(START, Markup(tokens, n - 1), [tokens[n - 1]]);
      var d := Run(START, tokens[..n - 1]);
      if d.Some? {
        RunOne(d.value, tokens[n - 1]);
      }
    }
  }

  /**
   * Sparse round trip: however a table is written (empty cells dropped or not, positions given or not where they may
   * be left out, text in any pieces, any white space and other elements in between), what is read back is the table,
   * once its rows are padded to their columns.
   */
  lemma {:induction false} SparseRoundTrip(tokens: seq<Token>, table: seq<seq<Cell>>, rows: seq<seq<string>>,
      columns: nat)
    requires AllLegal(table, rows, columns) && Markup(tokens, |tokens|) == EncodeTable(table, |table|)
    ensures var read := Run(START, tokens);
      read.Some? && ReadsBack(read.value.rows, rows, |rows|, columns)
  {
    MarkupDecides(tokens, |tokens|);
    assert tokens[..|tokens|] == tokens;
    RunTable(table, rows, |table|, columns);
  }

  /** Positions count from one: the third column is number 3. */
  lemma {:induction false} PositionsCountFromOne(d: Decoder, text: string)
    requires !d.inData && d.row == []
    ensures var read := Run(d, [CellStart(Some(3)), DataStart, Text(text), DataEnd]);
      read.Some? && read.value.row == ["", "", text]
  {
    var ready := d.(row := ["", "", ""], next := 3);
    assert PadTo([], 3) == ["", "", ""];
    var inside := ready.(inData := true, buffer := "");
    var read := inside.(buffer := text);
    assert "" + text == text;
    RunOne(d, CellStart(Some(3)));
    RunOne(ready, DataStart);
    RunOne(inside, Text(text));
    RunOne(read, DataEnd);
    hide Run, PadTo;
    RunThen(d, [CellStart(Some(3))], ready, [DataStart] + ([Text(text)] + [DataEnd]));
    RunThen(ready, [DataStart], inside, [Text(text)] + [DataEnd]);
    RunThen(inside, [Text(text)], read, [DataEnd]);
    assert [CellStart(Some(3)), DataStart, Text(text), DataEnd]
      == [CellStart(Some(3))] + ([DataStart] + ([Text(text)] + [DataEnd]));
  }

  /**
   * Leaving the position out after a dropped cell is what would misalign the columns: the text moves one to the left.
   */
  lemma {:induction false} UnindexedCellMoves(text: string)
    requires text != ""
    ensures var cells := [Dropped, Filled(false, [text])];
      var read := Run(START, EncodeRow(cells));
      !Legal(cells, ["", text]) && read.Some? && read.value.rows == [[text]]
  {
    var cells := [Dropped, Filled(false, [text])];
    assert Joined([text]) == text by {
      assert [text][..0] == [];
    }
    RunRowAs(text);
    assert EncodeCells(cells, 1) == [] && EncodeCells(cells, 0) == [];
    assert EncodeCells([Filled(false, [text])], 0) == [];
    assert EncodeCells([Filled(false, [text])], 1) == EncodeCell(Filled(false, [text]), 0);
    assert EncodeCells(cells, 2) == EncodeCell(Filled(false, [text]), 1);
    assert EncodeCell(Filled(false, [text]), 1) == EncodeCell(Filled(false, [text]), 0);
    assert EncodeRow(cells) == EncodeRow([Filled(false, [text])]);
  }

  lemma {:induction false} RunRowAs(text: string)
    requires Joined([text]) == text && text != ""
    ensures var read := Run(START, EncodeRow([Filled(false, [text])]));
      read.Some? && read.value.rows == [[text]]
  {
    RunRow(START, [Filled(false, [text])], [text]);
    var read := Run(START, EncodeRow([Filled(false, [text])])).value.rows;
    assert PadTo(read[0], 1) == [text] && PadTo([], 1) == [""];
    assert [text][0] != [""][0];
  }
}
