/** `SalesController::getSalesOlap`: a fixed MDX statement against `[SalesCube]`,
    whatever the request holds. The method carries a filter block like the
    production endpoint's, but it tests a `$filters` variable that nothing assigns,
    so the block never adds a WHERE tuple. */
module Sales {
  import opened Wrappers
  import Text
  import Mdx
  import opened Xmla
  import CaptionValue
  import opened Endpoint

  /** The statement, with its line breaks, indentation and trailing spaces. */
  const SalesStatement := "\n            SELECT \n                {[Measures].[Sales Amount], \n                [Measures].[Order Quantity], \n                [Measures].[Total Due]} \n            ON COLUMNS,\n                {([Date].[All Date],\n                [Product].[All Product])} \n            ON ROWS\n            FROM [SalesCube]\n        "

  /** The value `$filters` has in the method: it is never assigned, and `empty()` of
      an undefined variable holds without a warning. */
  const UnsetFilters: seq<Mdx.FilterEntry> := []

  /** The filter block as written, for a given filters value: its loop passes over
      every `[Date]` entry, whatever the rows are sliced by. */
  function FilteredStatement(filters: seq<Mdx.FilterEntry>): (r: Result<string, Mdx.BuildError>)
    ensures r.Success? ==> |SalesStatement| <= |r.value| && r.value[..|SalesStatement|] == SalesStatement
  {
    match Mdx.WhereClause(Mdx.AnyDate, filters)
    case Failure(e) => Failure(e)
    case Success(w) => Success(SalesStatement + w)
  }

  /** The block adds nothing to the statement the method sends. */
  lemma FilterBlockInert()
    ensures FilteredStatement(UnsetFilters) == Success(SalesStatement)
  {
    assert SalesStatement + "" == SalesStatement;
  }

  /** The endpoint. `execute` stands for the XMLA service; nothing of the request
      reaches it. Only an empty response body escapes the `catch (Exception $e)`:
      its `ValueError` is not an `Exception`. */
  function GetSalesOlap(execute: string -> Delivery): (r: Reply)
    ensures r.Uncaught? <==> execute(SalesStatement).EmptyBody?
    ensures r.Uncaught? ==> r.message == EmptySourceError
    ensures r.ErrorJson? ==> r.status == ServerError && IsFailureText(r.error)
  {
    match execute(SalesStatement)
    case TransportFailed(m) => Catch(Failure(m))
    case EmptyBody => Uncaught(EmptySourceError)
    case Delivered(doc) => Catch(CaptionValue.ParseResponse(doc))
  }

  /** The reply to a response without a fault: one record per row that has both a
      caption cell and a value cell, the last of each, in row order. */
  lemma SalesRecords(execute: string -> Delivery)
    requires execute(SalesStatement).Delivered?
    requires !HasFault(execute(SalesStatement).doc)
    ensures var rows := Rows(execute(SalesStatement).doc);
            var idx := Present(CaptionValue.Outcomes(rows));
            && GetSalesOlap(execute).Json?
            && |GetSalesOlap(execute).records| == |idx|
            && (forall k :: 0 <= k < |idx| ==>
                  idx[k] < |rows| && CaptionValue.ExpectedRecord(rows[idx[k]]).Some?
                  && GetSalesOlap(execute).records[k] == CaptionValue.ExpectedRecord(rows[idx[k]]).value)
            && (forall k, l :: 0 <= k < l < |idx| ==> idx[k] < idx[l])
  {
    var rows := Rows(execute(SalesStatement).doc);
    assert GetSalesOlap(execute) == Json(CaptionValue.Records(rows));
    CaptionValue.RecordsInRowOrder(rows);
    var idx := Present(CaptionValue.Outcomes(rows));
    forall k | 0 <= k < |idx| ensures CaptionValue.RowRecord(rows[idx[k]]) == CaptionValue.ExpectedRecord(rows[idx[k]]) {
      CaptionValue.RowRecordIsLastCaptionAndValue(rows[idx[k]]);
    }
  }

  /** The two skip rules agree whenever the rows are sliced by a `[Date]` level. */
  lemma {:induction false} RulesAgreeOnDateLevels(timeLevel: string, filters: seq<Mdx.FilterEntry>)
    requires Text.Contains(timeLevel, Mdx.DateDimension)
    ensures Mdx.FilterClauses(Mdx.AnyDate, filters) == Mdx.FilterClauses(Mdx.DateWhenSlicedByDate(timeLevel), filters)
    decreases |filters|
  {
    if |filters| > 0 {
      RulesAgreeOnDateLevels(timeLevel, filters[1..]);
    }
  }

  /** Otherwise a `[Date]` entry is dropped here but kept by the production endpoint. */
  lemma RulesDivergeOtherwise(timeLevel: string, e: Mdx.FilterEntry)
    requires !Text.Contains(timeLevel, Mdx.DateDimension)
    requires Text.Contains(e.dimension, Mdx.DateDimension) && |e.members| > 0
    ensures FilteredStatement([e]) == Success(SalesStatement)
    ensures Mdx.WhereClause(Mdx.DateWhenSlicedByDate(timeLevel), [e]) == Success(" WHERE (" + Mdx.ClauseOf(e) + ")")
  {
    Mdx.SkipOrOneClause(Mdx.AnyDate, e);
    Mdx.SkipOrOneClause(Mdx.DateWhenSlicedByDate(timeLevel), e);
    assert SalesStatement + "" == SalesStatement;
    assert Text.Join(",", [Mdx.ClauseOf(e)]) == Mdx.ClauseOf(e);
  }
}
