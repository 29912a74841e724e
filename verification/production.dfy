/** `ProductionController::getProductionData`: the request's measures, time level and
    filters, each defaulted when absent, become one MDX statement against
    `[ProductionCube]`; the answer is parsed by the caption/value parser. */
module Production {
  import opened Wrappers
  import Text
  import Mdx
  import opened Xmla
  import CaptionValue
  import opened Endpoint

  const DefaultMeasure := "[Measures].[Order Quantity]"
  const DefaultMeasures: seq<string> := [DefaultMeasure]
  const DefaultTimeLevel := "[Date].[Year]"

  /** The three request inputs the endpoint reads; `None` is an absent (or null) input.
      `filters` lists the entries of the filters object in their order. */
  datatype Request = Request(
    measures: Option<seq<string>>,
    timeLevel: Option<string>,
    filters: Option<seq<Mdx.FilterEntry>>)

  /** The text before the measures, between the measures and the time level, and after it. */
  const Head := "\n        SELECT\n            {"
  const Middle := "} ON COLUMNS,\n            NON EMPTY "
  const Tail := ".Members ON ROWS\n        FROM [ProductionCube]\n    "

  /** The statement before any filter, with its line breaks and indentation. Measures
      and the time level are interpolated as given. */
  function SelectText(measures: seq<string>, timeLevel: string): string
  {
    Head + Text.Join(", ", measures) + Middle + timeLevel + Tail
  }

  /** The filter loop's skip rule for a request's time level. */
  function Rule(timeLevel: string): Mdx.SkipRule
  {
    Mdx.DateWhenSlicedByDate(timeLevel)
  }

  /** The statement sent to the service, or the error that stops the request first. */
  function Statement(req: Request): (r: Result<string, Mdx.BuildError>)
    ensures r.Success? ==> |SelectText(req.measures.GetOr(DefaultMeasures), req.timeLevel.GetOr(DefaultTimeLevel))| <= |r.value|
  {
    var measures := req.measures.GetOr(DefaultMeasures);
    var timeLevel := req.timeLevel.GetOr(DefaultTimeLevel);
    match Mdx.WhereClause(Rule(timeLevel), req.filters.GetOr([]))
    case Failure(e) => Failure(e)
    case Success(w) => Success(SelectText(measures, timeLevel) + w)
  }

  /** The statement of a request without inputs: the default measure and time level
      in the select text, and no WHERE tuple. */
  lemma DefaultStatement()
    ensures Statement(Request(None, None, None))
         == Success(Head + DefaultMeasure + Middle + DefaultTimeLevel + Tail)
  {
    var req := Request(None, None, None);
    assert req.measures.GetOr(DefaultMeasures) == DefaultMeasures;
    assert req.timeLevel.GetOr(DefaultTimeLevel) == DefaultTimeLevel;
    assert req.filters.GetOr([]) == [];
    assert Mdx.WhereClause(Rule(DefaultTimeLevel), []) == Success("");
    assert Text.Join(", ", DefaultMeasures) == DefaultMeasure;
    assert Statement(req) == Success(SelectText(DefaultMeasures, DefaultTimeLevel) + "");
    assert SelectText(DefaultMeasures, DefaultTimeLevel) + "" == Head + DefaultMeasure + Middle + DefaultTimeLevel + Tail;
  }

  /** The statement is the select text followed by the WHERE tuple of the filter
      entries the loop keeps; it fails exactly when a kept entry has no members.
      `??` replaces only an absent or null input. `Request` holds the input as the
      framework's middleware leaves it, which has already turned an empty string
      into null; an empty measure list is used as it is. */
  lemma StatementShape(req: Request)
    ensures var t := req.timeLevel.GetOr(DefaultTimeLevel);
            var kept := Mdx.Kept(Rule(t), req.filters.GetOr([]));
            && (Statement(req).Success? <==> Mdx.MembersPresent(kept))
            && (Statement(req).Success? ==>
                  Statement(req).value
                  == SelectText(req.measures.GetOr(DefaultMeasures), t)
                     + (if |kept| == 0 then "" else " WHERE (" + Text.Join(",", Mdx.ClausesOf(kept)) + ")"))
  {
    var t := req.timeLevel.GetOr(DefaultTimeLevel);
    var filters := req.filters.GetOr([]);
    var kept := Mdx.Kept(Rule(t), filters);
    Mdx.FilterClausesFail(Rule(t), filters);
    if Mdx.MembersPresent(kept) {
      Mdx.WherePresentIffKept(Rule(t), filters);
      Mdx.FilterClausesAreKeptClauses(Rule(t), filters);
    }
  }

  /** Every measure appears verbatim between the braces, in order and separated by `", "`. */
  lemma SelectEmbedsMeasure(measures: seq<string>, timeLevel: string, i: nat)
    requires i < |measures|
    ensures Text.OccursAt(SelectText(measures, timeLevel), measures[i], |Head| + Text.PartStart(", ", measures, i))
  {
    var j := Text.Join(", ", measures);
    var p := |Head| + Text.PartStart(", ", measures, i);
    Text.JoinHasPart(", ", measures, i);
    Text.OccursAfter(Head, j, measures[i], Text.PartStart(", ", measures, i));
    Text.OccursBefore(Head + j, Middle, measures[i], p);
    Text.OccursBefore(Head + j + Middle, timeLevel, measures[i], p);
    Text.OccursBefore(Head + j + Middle + timeLevel, Tail, measures[i], p);
  }

  /** The time level appears verbatim, directly followed by `.Members ON ROWS`. */
  lemma SelectEmbedsTimeLevel(measures: seq<string>, timeLevel: string)
    ensures var p := |Head| + |Text.Join(", ", measures)| + |Middle|;
            && Text.OccursAt(SelectText(measures, timeLevel), timeLevel, p)
            && Text.OccursAt(SelectText(measures, timeLevel), Tail, p + |timeLevel|)
  {
    var pre := Head + Text.Join(", ", measures) + Middle;
    assert Text.OccursAt(timeLevel, timeLevel, 0);
    Text.OccursAfter(pre, timeLevel, timeLevel, 0);
    Text.OccursBefore(pre + timeLevel, Tail, timeLevel, |pre|);
    assert Text.OccursAt(Tail, Tail, 0);
    Text.OccursAfter(pre + timeLevel, Tail, Tail, 0);
  }

  /** An empty measure list is used as given: the braces stay empty. */
  lemma EmptyMeasureList(timeLevel: string)
    ensures SelectText([], timeLevel) == Head + Middle + timeLevel + Tail
  {
    Text.JoinEmpty(", ");
    assert Head + "" == Head;
  }

  /** Measures are not quoted: one measure holding `", "` gives the same statement as
      the two measures on either side of it. */
  lemma MeasuresNotQuoted(a: string, b: string, t: Option<string>, f: Option<seq<Mdx.FilterEntry>>)
    ensures Statement(Request(Some([a + ", " + b]), t, f)) == Statement(Request(Some([a, b]), t, f))
  {
    assert Text.Join(", ", [a, b]) == a + ", " + Text.Join(", ", [b]);
  }

  /** The endpoint. `execute` stands for the XMLA service. A member list that is empty
      is read outside the `try`, and an empty response body raises an `Error` the
      `catch (Exception $e)` does not match: both escape the endpoint's own handler. */
  function GetProductionData(req: Request, execute: string -> Delivery): (r: Reply)
    ensures r.Uncaught? <==> (Statement(req).Failure? || execute(Statement(req).value).EmptyBody?)
    ensures r.Uncaught? && Statement(req).Success? ==> r.message == EmptySourceError
    ensures r.ErrorJson? ==> r.status == ServerError && IsFailureText(r.error)
  {
    match Statement(req)
    case Failure(_) => Uncaught("Undefined array key 0")
    case Success(mdx) =>
      match execute(mdx)
      case TransportFailed(m) => Catch(Failure(m))
      case EmptyBody => Uncaught(EmptySourceError)
      case Delivered(doc) => Catch(CaptionValue.ParseResponse(doc))
  }

  /** A statement the service answers without a fault gives, in row order, one record
      per row that has both a caption cell and a value cell: the last of each. */
  lemma ProductionRecords(req: Request, execute: string -> Delivery)
    requires Statement(req).Success?
    requires execute(Statement(req).value).Delivered?
    requires !HasFault(execute(Statement(req).value).doc)
    ensures var rows := Rows(execute(Statement(req).value).doc);
            var idx := Present(CaptionValue.Outcomes(rows));
            && GetProductionData(req, execute).Json?
            && |GetProductionData(req, execute).records| == |idx|
            && (forall k :: 0 <= k < |idx| ==>
                  idx[k] < |rows| && CaptionValue.ExpectedRecord(rows[idx[k]]).Some?
                  && GetProductionData(req, execute).records[k]
                                     == CaptionValue.ExpectedRecord(rows[idx[k]]).value)
            && (forall k, l :: 0 <= k < l < |idx| ==> idx[k] < idx[l])
  {
    var doc := execute(Statement(req).value).doc;
    var rows := Rows(doc);
    assert GetProductionData(req, execute) == Json(CaptionValue.Records(rows));
    CaptionValue.RecordsInRowOrder(rows);
    var idx := Present(CaptionValue.Outcomes(rows));
    forall k | 0 <= k < |idx| ensures CaptionValue.RowRecord(rows[idx[k]]) == CaptionValue.ExpectedRecord(rows[idx[k]]) {
      CaptionValue.RowRecordIsLastCaptionAndValue(rows[idx[k]]);
    }
  }

  /** A fault, or a failure to reach the service, becomes a 500 reply naming its cause. */
  lemma ProductionFailures(req: Request, execute: string -> Delivery)
    requires Statement(req).Success?
    ensures var d := execute(Statement(req).value);
            d.TransportFailed? ==> GetProductionData(req, execute) == ErrorJson(ServerError, FailurePrefix + d.message)
    ensures var d := execute(Statement(req).value);
            d.Delivered? && HasFault(d.doc) ==>
              GetProductionData(req, execute)
              == ErrorJson(ServerError, FailurePrefix + FaultMessage(d.doc, CaptionValue.UnknownError))
  {
  }
}
