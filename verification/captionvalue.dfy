/** `parseXmlaResponse` of the Production and Sales controllers (the two methods are
    the same code): the SOAP Fault check, then one `{measure, value}` record for each
    row that has both a caption cell and a value cell. */
module CaptionValue {
  import opened Wrappers
  import Text
  import Numeric
  import opened Xmla

  const CaptionMarker := "MEMBER_CAPTION"
  const UnknownError := "Unknown MDX Error"

  /** `stripos($name, 'MEMBER_CAPTION') !== false`. */
  predicate IsCaptionName(name: string)
  {
    Text.ContainsIgnoreCase(name, CaptionMarker)
  }

  /** The two variables of the cell loop, `null` being `None`. */
  datatype Pair = Pair(caption: Option<string>, value: Option<Value>)

  /** One turn of the cell loop: a caption cell sets the caption, any other cell the value. */
  function Step(p: Pair, c: Cell): Pair
  {
    if IsCaptionName(c.localName) then p.(caption := Some(c.text))
    else p.(value := Some(Coerce(c.text)))
  }

  /** The cell loop, left to right over the selected cells. */
  function Scan(p: Pair, cells: seq<Cell>): Pair
    decreases |cells|
  {
    if |cells| == 0 then p else Scan(Step(p, cells[0]), cells[1..])
  }

  /** The record a row contributes, if both variables were set. */
  function RowRecord(row: seq<Cell>): Option<Record>
  {
    var p := Scan(Pair(None, None), DataCells(row));
    if p.caption.Some? && p.value.Some? then Some(Record(p.caption.value, p.value.value)) else None
  }

  /** What each row contributes. */
  function Outcomes(rows: seq<seq<Cell>>): (r: seq<Option<Record>>)
    ensures |r| == |rows|
    ensures forall i :: 0 <= i < |rows| ==> r[i] == RowRecord(rows[i])
  {
    seq(|rows|, i requires 0 <= i < |rows| => RowRecord(rows[i]))
  }

  /** The outer loop over `//mddataset:row`. */
  function Records(rows: seq<seq<Cell>>): (r: seq<Record>)
    ensures |r| <= |rows|
  {
    Somes(Outcomes(rows))
  }

  /** The returned array, or the message of the exception a Fault raises. */
  function ParseResponse(doc: Doc): (r: Result<seq<Record>, string>)
    ensures HasFault(doc) ==> r == Failure(if |doc.descs| > 0 then doc.descs[0] else UnknownError)
    ensures !HasFault(doc) ==> r.Success? && |r.value| <= |Rows(doc)|
    ensures doc.Unparsed? ==> r == Success([])
    ensures doc.Parsed? && |doc.rows| == 0 && !doc.hasFault ==> r == Success([])
  {
    if HasFault(doc) then Failure(FaultMessage(doc, UnknownError))
    else Success(Records(Rows(doc)))
  }

  // ---------------------------------------------------------------------------
  // A reference definition of a row's record: the last caption cell and the last
  // value cell, found by index.

  datatype Kind = CaptionCell | ValueCell

  /** A cell the loop visits, and which of the two variables it sets. */
  predicate IsKind(c: Cell, k: Kind)
  {
    && c.localName != SchemaLocation
    && (match k
        case CaptionCell => IsCaptionName(c.localName)
        case ValueCell => !IsCaptionName(c.localName))
  }

  /** The index of the last cell of kind `k` in the row. */
  function LastOf(row: seq<Cell>, k: Kind): (r: Option<nat>)
    ensures r.Some? ==> && r.value < |row| && IsKind(row[r.value], k)
                        && forall j :: r.value < j < |row| ==> !IsKind(row[j], k)
    ensures r.None? ==> forall j :: 0 <= j < |row| ==> !IsKind(row[j], k)
  {
    if |row| == 0 then None
    else if IsKind(row[|row| - 1], k) then Some(|row| - 1)
    else
      var r := LastOf(row[..|row| - 1], k);
      assert forall j :: 0 <= j < |row| - 1 ==> row[..|row| - 1][j] == row[j];
      r
  }

  /** What the row's record should be: the text of its last caption cell and the
      coerced text of its last value cell, when it has both. */
  function ExpectedRecord(row: seq<Cell>): Option<Record>
  {
    match (LastOf(row, CaptionCell), LastOf(row, ValueCell))
    case (Some(i), Some(j)) => Some(Record(row[i].text, Coerce(row[j].text)))
    case _ => None
  }

  /** The state `Scan` reaches, described by `LastOf`. */
  function LastState(row: seq<Cell>): Pair
  {
    Pair(match LastOf(row, CaptionCell) case Some(i) => Some(row[i].text) case None => None,
         match LastOf(row, ValueCell) case Some(j) => Some(Coerce(row[j].text)) case None => None)
  }

  lemma {:induction false} ScanSnoc(p: Pair, cells: seq<Cell>, c: Cell)
    ensures Scan(p, cells + [c]) == Step(Scan(p, cells), c)
    decreases |cells|
  {
    if |cells| == 0 {
      assert (cells + [c])[1..] == [];
    } else {
      assert (cells + [c])[1..] == cells[1..] + [c];
      ScanSnoc(Step(p, cells[0]), cells[1..], c);
    }
  }

  /** How `LastOf` moves when the row grows by one cell. */
  lemma LastOfSnoc(row: seq<Cell>, c: Cell, k: Kind)
    ensures LastOf(row + [c], k) == if IsKind(c, k) then Some(|row|) else LastOf(row, k)
  {
    assert (row + [c])[..|row|] == row;
  }

  lemma {:induction false} ScanIsLastState(row: seq<Cell>)
    ensures Scan(Pair(None, None), DataCells(row)) == LastState(row)
    decreases |row|
  {
    if |row| > 0 {
      var init, c := row[..|row| - 1], row[|row| - 1];
      assert row == init + [c];
      ScanIsLastState(init);
      DataCellsSnoc(init, c);
      LastOfSnoc(init, c, CaptionCell);
      LastOfSnoc(init, c, ValueCell);
      if c.localName != SchemaLocation {
        ScanSnoc(Pair(None, None), DataCells(init), c);
      } else {
        assert DataCells(init) + [] == DataCells(init);
      }
    }
  }

  /** The loop keeps the last caption and the last value of a row: a row yields
      exactly the record the reference definition describes. */
  lemma RowRecordIsLastCaptionAndValue(row: seq<Cell>)
    ensures RowRecord(row) == ExpectedRecord(row)
  {
    ScanIsLastState(row);
  }

  /** A row yields a record exactly when it has a caption cell and a value cell. */
  lemma RowRecordPresent(row: seq<Cell>)
    ensures RowRecord(row).Some? <==>
              && (exists i :: 0 <= i < |row| && IsKind(row[i], CaptionCell))
              && (exists j :: 0 <= j < |row| && IsKind(row[j], ValueCell))
  {
    RowRecordIsLastCaptionAndValue(row);
  }

  /** The caption is never coerced: a numeric caption stays text. */
  lemma CaptionIsRawText(row: seq<Cell>)
    requires RowRecord(row).Some?
    ensures exists i :: 0 <= i < |row| && IsKind(row[i], CaptionCell) && RowRecord(row).value.measure == row[i].text
  {
    RowRecordIsLastCaptionAndValue(row);
    var i := LastOf(row, CaptionCell).value;
    assert IsKind(row[i], CaptionCell);
  }

  /** The records are those of the rows that yield one, in document order, and a row
      yields one exactly when it holds a caption cell and a value cell. */
  lemma RecordsInRowOrder(rows: seq<seq<Cell>>)
    ensures var idx := Present(Outcomes(rows));
            && |Records(rows)| == |idx|
            && (forall k :: 0 <= k < |idx| ==> idx[k] < |rows| && Records(rows)[k] == RowRecord(rows[idx[k]]).value)
            && (forall k, l :: 0 <= k < l < |idx| ==> idx[k] < idx[l])
            && (forall i :: 0 <= i < |rows| && RowRecord(rows[i]).Some? ==> i in idx)
  {
    SomesByIndex(Outcomes(rows));
  }

  /** Rows are independent: the records of two runs of rows are the records of each. */
  lemma RecordsAppend(a: seq<seq<Cell>>, b: seq<seq<Cell>>)
    ensures Records(a + b) == Records(a) + Records(b)
  {
    assert Outcomes(a + b) == Outcomes(a) + Outcomes(b);
    SomesAppend(Outcomes(a), Outcomes(b));
  }

  lemma RecordsOne(row: seq<Cell>)
    ensures Records([row]) == match RowRecord(row) case Some(x) => [x] case None => []
  {
    assert Outcomes([row]) == [RowRecord(row)];
    assert Outcomes([row])[1..] == [];
  }

  /** A Fault decides the outcome before any row is read. */
  lemma FaultIgnoresRows(descs: seq<string>, a: seq<seq<Cell>>, b: seq<seq<Cell>>)
    ensures ParseResponse(Parsed(true, descs, a)) == ParseResponse(Parsed(true, descs, b))
    ensures ParseResponse(Parsed(true, descs, a)).Failure?
  {
  }

  /** `MEMBER_CAPTION` names a caption cell; `Value` names a value cell. */
  lemma ExampleNames()
    ensures IsCaptionName("MEMBER_CAPTION")
    ensures !IsCaptionName("Value")
  {
    Text.StartsWith(Text.Lower(CaptionMarker), Text.Lower(CaptionMarker));
    assert CaptionMarker[3] == 'B';
    assert Text.Lower(CaptionMarker)[3] == 'b';
    Text.MissingChar(Text.Lower("Value"), Text.Lower(CaptionMarker), 'b');
  }

  /** `125000.75` is numeric. */
  lemma ExampleNumber()
    ensures Coerce("125000.75") == Number(Numeric.NumLit("", "", Numeric.Mantissa("125000", Some("75")), None, ""))
  {
    var n := Numeric.NumLit("", "", Numeric.Mantissa("125000", Some("75")), None, "");
    assert Numeric.WellFormed(n);
    assert Numeric.Render(n) == "125000.75";
    Numeric.ParseRender(n);
  }

  /** A row of one caption cell followed by one value cell yields their pair. */
  lemma CaptionThenValue(c0: Cell, c1: Cell)
    requires IsKind(c0, CaptionCell) && IsKind(c1, ValueCell)
    ensures Records([[c0, c1]]) == [Record(c0.text, Coerce(c1.text))]
  {
    DataCellsSnoc([c0], c1);
    assert DataCells([c0]) == [c0];
    assert [c0] + [c1] == [c0, c1];
    var p0 := Pair(None, None);
    var p1 := Pair(Some(c0.text), None);
    var p2 := Pair(Some(c0.text), Some(Coerce(c1.text)));
    assert Step(p0, c0) == p1;
    assert Step(p1, c1) == p2;
    assert [c0, c1][1..] == [c1];
    assert [c1][1..] == [];
    assert Scan(p0, [c0, c1]) == Scan(p1, [c1]) == Scan(p2, []) == p2;
    assert RowRecord([c0, c1]) == Some(Record(c0.text, Coerce(c1.text)));
    RecordsOne([c0, c1]);
  }

  /** A caption cell `2014` next to a value cell `125000.75` gives the one record
      `{measure: "2014", value: 125000.75}`. */
  lemma CaptionAndValueExample()
    ensures ParseResponse(Parsed(false, [], [[Cell("MEMBER_CAPTION", "2014"), Cell("Value", "125000.75")]]))
         == Success([Record("2014", Number(Numeric.NumLit("", "", Numeric.Mantissa("125000", Some("75")), None, "")))])
  {
    ExampleNames();
    ExampleNumber();
    CaptionThenValue(Cell("MEMBER_CAPTION", "2014"), Cell("Value", "125000.75"));
  }
}
