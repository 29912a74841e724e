/** An XML for Analysis `Execute` response as the controllers' DOM and XPath queries
    see it, and the pieces their three `parseXmlaResponse` methods share: the SOAP
    Fault check (section 4.4 of SOAP 1.1), the row cells, and numeric coercion. */
module Xmla {
  import opened Wrappers
  import Numeric

  /** An element child of an `mddataset:row`: its local name and its text (`nodeValue`). */
  datatype Cell = Cell(localName: string, text: string)

  /** A non-empty response body after `DOMDocument::loadXML`. `Unparsed` is a body the
      parser rejected; the load warning is suppressed with `@` and never checked, so every
      XPath query on the empty document finds nothing. A `Parsed` document records
      whether `//s:Fault` matches, the text of every `//XA:error/XA:desc` and the cells
      of every `//mddataset:row`, all in document order. */
  datatype Doc =
    | Unparsed
    | Parsed(hasFault: bool, descs: seq<string>, rows: seq<seq<Cell>>)

  /** `//s:Fault` finds a node. */
  predicate HasFault(doc: Doc)
  {
    doc.Parsed? && doc.hasFault
  }

  /** The nodes `//mddataset:row` finds. */
  function Rows(doc: Doc): seq<seq<Cell>>
  {
    if doc.Parsed? then doc.rows else []
  }

  /** The exception message of a faulted response: the first `XA:desc` text, or
      `fallback` when there is none. */
  function FaultMessage(doc: Doc, fallback: string): (m: string)
    requires HasFault(doc)
    ensures |doc.descs| == 0 ==> m == fallback
    ensures |doc.descs| > 0 ==> m == doc.descs[0]
  {
    if |doc.descs| > 0 then doc.descs[0] else fallback
  }

  const SchemaLocation := "schemaLocation"

  /** The cells `*[local-name() != "schemaLocation"]` selects from a row, in order. */
  function DataCells(row: seq<Cell>): (r: seq<Cell>)
    ensures |r| <= |row|
    ensures forall c :: c in r ==> c in row && c.localName != SchemaLocation
  {
    if |row| == 0 then []
    else (if row[0].localName == SchemaLocation then [] else [row[0]]) + DataCells(row[1..])
  }

  /** Filtering a row extended by one cell extends the filtered row by that cell, unless it is skipped. */
  lemma {:induction false} DataCellsSnoc(row: seq<Cell>, c: Cell)
    ensures DataCells(row + [c]) == DataCells(row) + (if c.localName == SchemaLocation then [] else [c])
    decreases |row|
  {
    if |row| == 0 {
      assert [c][1..] == [];
    } else {
      assert (row + [c])[1..] == row[1..] + [c];
      DataCellsSnoc(row[1..], c);
    }
  }

  /** The index of the first cell of the row not named `schemaLocation`. */
  function FirstData(row: seq<Cell>): (r: Option<nat>)
    ensures r.Some? ==> && r.value < |row| && row[r.value].localName != SchemaLocation
                        && forall k :: 0 <= k < r.value ==> row[k].localName == SchemaLocation
    ensures r.None? ==> forall k :: 0 <= k < |row| ==> row[k].localName == SchemaLocation
  {
    if |row| == 0 then None
    else if row[0].localName != SchemaLocation then Some(0)
    else
      match FirstData(row[1..])
      case Some(i) => Some(i + 1)
      case None => None
  }

  /** `->item(0)` of the selected cells is the row's first cell not named `schemaLocation`. */
  lemma {:induction false} FirstDataCell(row: seq<Cell>)
    ensures |DataCells(row)| > 0 <==> FirstData(row).Some?
    ensures |DataCells(row)| > 0 ==> DataCells(row)[0] == row[FirstData(row).value]
    decreases |row|
  {
    if |row| > 0 {
      FirstDataCell(row[1..]);
    }
  }

  /** The outer loop of a parser, once each row's outcome is known: the records of
      the rows that give one, in row order. */
  function Somes(xs: seq<Option<Record>>): (r: seq<Record>)
    ensures |r| <= |xs|
  {
    if |xs| == 0 then []
    else (if xs[0].Some? then [xs[0].value] else []) + Somes(xs[1..])
  }

  /** Every index of `idx`, plus one. */
  function Shift(idx: seq<nat>): (r: seq<nat>)
    ensures |r| == |idx|
    ensures forall k :: 0 <= k < |idx| ==> r[k] == idx[k] + 1
  {
    seq(|idx|, k requires 0 <= k < |idx| => idx[k] + 1)
  }

  /** The indices of the rows that give a record, in increasing order. */
  function Present(xs: seq<Option<Record>>): (idx: seq<nat>)
    ensures forall k :: 0 <= k < |idx| ==> idx[k] < |xs| && xs[idx[k]].Some?
    ensures forall k, l :: 0 <= k < l < |idx| ==> idx[k] < idx[l]
    ensures forall i :: 0 <= i < |xs| && xs[i].Some? ==> i in idx
  {
    if |xs| == 0 then []
    else
      var tail := Present(xs[1..]);
      ShiftInRange(xs, tail);
      ShiftCovers(xs, tail);
      if xs[0].Some? then
        ConsZero(Shift(tail));
        [0] + Shift(tail)
      else Shift(tail)
  }

  /** Indices into the rows after the first, shifted, index the same rows of the whole. */
  lemma ShiftInRange(xs: seq<Option<Record>>, tail: seq<nat>)
    requires |xs| > 0
    requires forall k :: 0 <= k < |tail| ==> tail[k] < |xs[1..]| && xs[1..][tail[k]].Some?
    ensures forall k :: 0 <= k < |tail| ==> Shift(tail)[k] < |xs| && xs[Shift(tail)[k]].Some?
  {
    forall k | 0 <= k < |tail| ensures Shift(tail)[k] < |xs| && xs[Shift(tail)[k]].Some? {
      assert xs[1..][tail[k]] == xs[tail[k] + 1];
    }
  }

  /** Every present row after the first has its shifted index among the shifted indices. */
  lemma ShiftCovers(xs: seq<Option<Record>>, tail: seq<nat>)
    requires |xs| > 0
    requires forall i :: 0 <= i < |xs[1..]| && xs[1..][i].Some? ==> i in tail
    ensures forall i :: 1 <= i < |xs| && xs[i].Some? ==> i in Shift(tail)
  {
    forall i | 1 <= i < |xs| && xs[i].Some? ensures i in Shift(tail) {
      assert xs[1..][i - 1] == xs[i];
      var k :| 0 <= k < |tail| && tail[k] == i - 1;
      assert Shift(tail)[k] == i;
    }
  }

  /** Putting index 0 in front of indices that are all positive keeps them increasing. */
  lemma ConsZero(s: seq<nat>)
    requires forall k :: 0 <= k < |s| ==> s[k] > 0
    requires forall k, l :: 0 <= k < l < |s| ==> s[k] < s[l]
    ensures forall k, l :: 0 <= k < l < |[0] + s| ==> ([0] + s)[k] < ([0] + s)[l]
  {
    var idx := [0] + s;
    forall k, l | 0 <= k < l < |idx| ensures idx[k] < idx[l] {
      assert idx[l] == s[l - 1];
      if k > 0 {
        assert idx[k] == s[k - 1];
      }
    }
  }

  /** The records come from exactly the rows that give one, in document order. */
  lemma {:induction false} SomesByIndex(xs: seq<Option<Record>>)
    ensures |Somes(xs)| == |Present(xs)|
    ensures forall k :: 0 <= k < |Present(xs)| ==> Somes(xs)[k] == xs[Present(xs)[k]].value
    decreases |xs|
  {
    if |xs| > 0 {
      SomesByIndex(xs[1..]);
    }
  }

  /** Rows are independent of each other. */
  lemma {:induction false} SomesAppend(a: seq<Option<Record>>, b: seq<Option<Record>>)
    ensures Somes(a + b) == Somes(a) + Somes(b)
    decreases |a|
  {
    if |a| == 0 {
      assert a + b == b;
    } else {
      assert (a + b)[0] == a[0];
      assert (a + b)[1..] == a[1..] + b;
      SomesAppend(a[1..], b);
      assert Somes(a + b) == (if a[0].Some? then [a[0].value] else []) + Somes(a[1..] + b);
    }
  }

  /** A cell's value in the JSON output: a number when `is_numeric` accepts the text,
      otherwise the text unchanged. The number is kept as the literal it was read from. */
  datatype Value = Number(literal: Numeric.NumLit) | Str(text: string)

  /** `is_numeric($t) ? (float)$t : $t`. */
  function Coerce(t: string): (v: Value)
    ensures v.Number? <==> Numeric.IsNumeric(t)
    ensures v.Number? ==> Numeric.WellFormed(v.literal) && Numeric.Render(v.literal) == t
    ensures v.Str? ==> v.text == t
  {
    match Numeric.Parse(t)
    case Some(n) => Number(n)
    case None => Str(t)
  }

  /** An empty cell is not numeric and stays the empty string. */
  lemma EmptyTextStaysText()
    ensures Coerce("") == Str("")
  {
    assert Numeric.Span("", Numeric.Digit) == 0;
  }

  /** One element of the JSON array a parser returns: `{measure, value}`. */
  datatype Record = Record(measure: string, value: Value)
}
