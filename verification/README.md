# OLAP controllers of the analytics dashboard, in Dafny

This project models the OLAP path of a Laravel analytics API and one reshaping
step of its React front end:

- **MDX statement building** in `ProductionController::getProductionData`. Absent
  inputs get their defaults. Measures and the time level are interpolated into a
  `SELECT … ON COLUMNS, NON EMPTY ….Members ON ROWS FROM [ProductionCube]`
  statement, with the exact line breaks and indentation. A filters object becomes
  a ` WHERE (…)` tuple: one member is `D.&[v]`, several are `{D.&[v1],D.&[v2]}`.
  `[Date]` filters are skipped while the rows are sliced by a `[Date]` level.
- **The fixed statement** of `SalesController::getSalesOlap`. It also carries a
  filter block that tests a variable nothing assigns. Its loop skips every
  `[Date]` entry, whatever the rows are sliced by.
- **The caption/value parser** that both of those controllers define as
  `parseXmlaResponse`; the two copies are the same code. It checks for a SOAP
  Fault (section 4.4 of SOAP 1.1). Then it builds one `{measure, value}` record per
  `mddataset:row` of an XML for Analysis result that has both a `MEMBER_CAPTION`
  cell (matched case-insensitively) and some other cell.
- **The first-cell parser**, `OlapController::parseXmlaResponse`. It reads each
  row's first data cell. It decodes the cell's element name, which uses the
  `_xHHHH_` escaping of XML names from ISO/IEC 9075-14, and strips a leading
  `[Measures].`.
- **The `is_numeric` test** both parsers apply to cell text. It follows PHP 8's
  grammar of numeric strings.
- **The line-chart pivot** of `frontend-vite/src/pages/purchasing.jsx`. It turns
  rows of category, time and value into one dataset per category over the
  sorted distinct times.

Modules: `Wrappers` (Option, Result), `Text` (`implode`, `strpos`, `stripos`,
`str_replace`), `Numeric`, `Xmla` (the parsed response both parsers read),
`Mdx` (filter clauses), `Endpoint` (the `try`/`catch` around a query),
`Production`, `Sales`, `CaptionValue`, `FirstCell`, `NameExamples`, `Pivot`.

The XMLA service is a parameter `execute: string -> Delivery`. A `Delivery` is
a non-empty response body as `loadXML` leaves it, an empty body, or the message
of a transport exception. PHP 8's `loadXML` throws a `ValueError` on an empty
string. That is an `Error`, not an `Exception`, so the controllers'
`catch (Exception $e)` does not catch it, and the endpoint replies `Uncaught`
(`Endpoint.EmptySourceError`). A non-empty body is taken as already parsed
(`Xmla.Doc`):

- whether `//s:Fault` matched;
- the `XA:desc` texts;
- for each row, its element children as (local name, text) pairs.

`Unparsed` stands for a non-empty body that `loadXML` rejected. The load warning
is suppressed with `@`, so every query on the empty document finds nothing.

Three consequences of the code are worth stating:

- The first-cell parser removes only a leading `[Measures].`
  (OlapController.php:81-83). The element
  `_x005b_Measures_x005d_._x005b_Sales_x0020_Amount_x005d_` therefore gives the
  measure `[Sales Amount]`, brackets kept (`NameExamples.SalesAmountName`).
- The three decoding passes of OlapController.php:81 do not commute. `_x005d_x005b_` decodes to `_x005d[`
  in the source's order, but to `]x005b_` with the `]` pass first
  (`NameExamples.ReplacementOrderMatters`). The model keeps the source's order.
  What does hold is that decoding is idempotent (`FirstCell.DecodeIdempotent`).
- A filter entry with an empty member list makes the source read
  `$formattedMembers[0]` of an empty array. The framework turns that warning into
  an exception. It is raised before the `try`, so the endpoint's handler does not
  catch it. The model returns this as an error value (`Mdx.BuildError`, reply
  `Uncaught`) instead of forbidding the input.

## Model

| member | source | states |
|---|---|---|
| Text.Contains | api-laravel/app/Http/Controllers/ProductionController.php:39 | `strpos(s, pat) !== false` holds exactly when `pat` occurs in `s` at some index |
| Text.JoinHasPart | api-laravel/app/Http/Controllers/ProductionController.php:25 | `implode(sep, parts)` contains every part verbatim at the offset of the parts and separators before it |
| Text.Join | api-laravel/app/Http/Controllers/ProductionController.php:25 | `implode(sep, parts)`; specified by `Text.JoinHasPart`, `Text.PartStartsIncrease`, `Text.JoinHasSep` and `Text.JoinLength` |
| Text.PartStartsIncrease | api-laravel/app/Http/Controllers/ProductionController.php:25 | in `implode`, each part starts exactly `|sep|` characters after the previous part ends |
| Text.JoinHasSep | api-laravel/app/Http/Controllers/ProductionController.php:48 | the gap between each part and the next holds the separator itself |
| Text.JoinEmpty | api-laravel/app/Http/Controllers/ProductionController.php:25 | `implode` of an empty array is the empty string |
| Text.JoinLength | api-laravel/app/Http/Controllers/ProductionController.php:48 | the joined string ends with its last part: nothing follows it |
| Text.IgnoreCaseIff | api-laravel/app/Http/Controllers/ProductionController.php:102 | `stripos(s, pat) !== false` holds exactly when `pat` matches `s` at some index, each character equal to its counterpart after ASCII lower-casing |
| Text.ReplaceAll | api-laravel/app/Http/Controllers/OlapController.php:81 | one `str_replace` pass of a pattern by one character never lengthens the string; `Text.ReplaceAbsent`, `Text.ReplaceRemoves` and `Text.ReplaceKeepsFree` specify it |
| Text.ReplaceAbsent | api-laravel/app/Http/Controllers/OlapController.php:81 | a `str_replace` pass leaves a string in which the pattern does not occur unchanged |
| Text.ReplaceRemoves | api-laravel/app/Http/Controllers/OlapController.php:81 | after a pass the pattern no longer occurs, because the replacement character is not part of it |
| Text.ReplaceKeepsFree | api-laravel/app/Http/Controllers/OlapController.php:81 | a pass never creates an occurrence of another pattern that lacks the inserted character |
| Mdx.Skips | api-laravel/app/Http/Controllers/ProductionController.php:39-41 | the loop's `continue` test; its behaviour is stated by `Mdx.DateFilterSkippedExample`, `Mdx.LocationFilterKeptExample`, `Mdx.RulesDivergeExample` and `Sales.RulesAgreeOnDateLevels` |
| Mdx.FilterClause | api-laravel/app/Http/Controllers/ProductionController.php:43-51 | an entry's clause fails exactly when it has no members; its text is stated by `Mdx.ClauseListsMembers` |
| Mdx.FilterClauses | api-laravel/app/Http/Controllers/ProductionController.php:37-52 | the loop yields at most one clause per entry; `Mdx.FilterClausesAreKeptClauses` gives the clauses exactly |
| Mdx.WhereClause | api-laravel/app/Http/Controllers/ProductionController.php:34-57 | the WHERE text fails exactly when the loop fails; `Mdx.WherePresentIffKept` gives its text |
| Mdx.FilterClausesAreKeptClauses | api-laravel/app/Http/Controllers/ProductionController.php:37-52 | when every entry the loop keeps has members, the loop yields exactly one clause per kept entry, in input order |
| Mdx.FilterClausesFail | api-laravel/app/Http/Controllers/ProductionController.php:43-51 | the loop fails exactly when some kept entry has no members |
| Mdx.SkipOrOneClause | api-laravel/app/Http/Controllers/ProductionController.php:37-52 | a skipped entry contributes no clause; any other entry contributes exactly its own clause |
| Mdx.WherePresentIffKept | api-laravel/app/Http/Controllers/ProductionController.php:34-57 | the text after the statement is empty exactly when no entry is kept, and is otherwise ` WHERE (` + clauses joined by `,` + `)` |
| Mdx.ClauseListsMembers | api-laravel/app/Http/Controllers/ProductionController.php:47-51 | one member gives its bare reference; several give `{`, then every reference in member order with a single `,` between neighbours, then `}` directly after the last reference |
| Mdx.MemberRef | api-laravel/app/Http/Controllers/ProductionController.php:44 | one member's key reference `D.&[v]`; `Mdx.SingleMemberExample` and `Mdx.ClauseListsMembers` state where it lands in a clause |
| Mdx.MemberRefs | api-laravel/app/Http/Controllers/ProductionController.php:43-45 | the `array_map` over the members: one reference per member, in member order; `Mdx.ClauseListsMembers` states how they are joined |
| Mdx.SingleMemberExample | api-laravel/app/Http/Controllers/ProductionController.php:50 | `[Location].[Location]` with member `Seattle` gives `[Location].[Location].&[Seattle]` |
| Mdx.TwoMembers | api-laravel/app/Http/Controllers/ProductionController.php:47-48 | two members give `{` + first reference + `,` + second reference + `}` |
| Mdx.DateFilterSkippedExample | api-laravel/app/Http/Controllers/ProductionController.php:39-41 | with rows sliced by `[Date].[Year]`, a `[Date].[Month]` filter is skipped |
| Mdx.LocationFilterKeptExample | api-laravel/app/Http/Controllers/ProductionController.php:39-41 | a `[Location].[Location]` filter is never skipped, under either controller's rule |
| Mdx.RulesDivergeExample | api-laravel/app/Http/Controllers/SalesController.php:158-160 | with rows sliced by `[Product].[Category]`, the production rule keeps a `[Date].[Year]` filter that the sales rule skips |
| Endpoint.Catch | api-laravel/app/Http/Controllers/ProductionController.php:60-66 | a parsed array is sent as JSON; an exception becomes the 500 reply `OLAP Query Failed: ` followed by the exception's message |
| Production.SelectText | api-laravel/app/Http/Controllers/ProductionController.php:25-31 | the statement before any filter; `Production.SelectEmbedsMeasure` and `Production.SelectEmbedsTimeLevel` state where the inputs land in it |
| Production.Statement | api-laravel/app/Http/Controllers/ProductionController.php:20-57 | a built statement extends the select text of the given or default inputs; `Production.StatementShape` gives it exactly |
| Production.DefaultStatement | api-laravel/app/Http/Controllers/ProductionController.php:20-31 | a request without inputs sends the select text with `[Measures].[Order Quantity]` and `[Date].[Year]` and no WHERE tuple |
| Production.StatementShape | api-laravel/app/Http/Controllers/ProductionController.php:20-57 | the statement is the select text of the given or default measures and time level, followed by the WHERE tuple of the kept filter entries, or nothing when none is kept; it fails exactly when a kept entry has no members; `??` replaces only absent or null inputs; the request is taken as the framework's middleware leaves it, an empty string already turned into null |
| Production.SelectEmbedsMeasure | api-laravel/app/Http/Controllers/ProductionController.php:25-28 | every measure appears verbatim inside the braces, in order, at the offset of its position in the `", "`-joined list |
| Production.SelectEmbedsTimeLevel | api-laravel/app/Http/Controllers/ProductionController.php:29-30 | the time level appears verbatim, directly followed by `.Members ON ROWS` and `FROM [ProductionCube]` |
| Production.EmptyMeasureList | api-laravel/app/Http/Controllers/ProductionController.php:25-28 | an empty `measures` array is used as given, leaving the braces of the select text empty |
| Production.MeasuresNotQuoted | api-laravel/app/Http/Controllers/ProductionController.php:25 | one measure `a, b` and the two measures `a` and `b` give the same statement: measures are embedded without quoting |
| Production.GetProductionData | api-laravel/app/Http/Controllers/ProductionController.php:18-72 | the reply is an uncaught error exactly when the statement cannot be built or the service returns an empty body, the latter with `loadXML`'s `ValueError` message; every error reply has status 500 and the `OLAP Query Failed: ` prefix |
| Production.ProductionRecords | api-laravel/app/Http/Controllers/ProductionController.php:60-63 | for a response without a fault, the JSON reply lists, in row order, the last caption and last value of each row that has both |
| Production.ProductionFailures | api-laravel/app/Http/Controllers/ProductionController.php:64-66 | a transport failure or a fault becomes a 500 reply carrying the prefix and the exception's message |
| Sales.FilteredStatement | api-laravel/app/Http/Controllers/SalesController.php:140-177 | whatever the filters, a built statement begins with the fixed `[SalesCube]` statement |
| Sales.FilterBlockInert | api-laravel/app/Http/Controllers/SalesController.php:153 | with `$filters` unset the block leaves the fixed statement unchanged |
| Sales.GetSalesOlap | api-laravel/app/Http/Controllers/SalesController.php:138-191 | the reply is an uncaught error exactly when the service returns an empty body, with `loadXML`'s `ValueError` message; every error reply has status 500 and the `OLAP Query Failed: ` prefix |
| Sales.SalesRecords | api-laravel/app/Http/Controllers/SalesController.php:179-182 | for a response without a fault, the JSON reply lists, in row order, the last caption and last value of each row that has both |
| Sales.RulesAgreeOnDateLevels | api-laravel/app/Http/Controllers/SalesController.php:156-160 | when the rows are sliced by a `[Date]` level, the sales loop yields the same clauses as the production loop for any filters |
| Sales.RulesDivergeOtherwise | api-laravel/app/Http/Controllers/SalesController.php:156-160 | otherwise a `[Date]` entry with members is dropped by the sales block but becomes the production statement's WHERE tuple |
| Xmla.FaultMessage | api-laravel/app/Http/Controllers/ProductionController.php:82-83 | the first `XA:desc` text, or the fallback when there is none; the fault clauses of `CaptionValue.ParseResponse` and `FirstCell.ParseResponse` state the message each parser throws |
| Xmla.DataCells | api-laravel/app/Http/Controllers/ProductionController.php:95 | the selected cells are cells of the row, none named `schemaLocation`; `Xmla.FirstData` and `Xmla.DataCellsSnoc` state their order |
| Xmla.FirstData | api-laravel/app/Http/Controllers/OlapController.php:76 | the index found is the first cell not named `schemaLocation`, every cell before it being named so; none is found exactly when all cells are |
| Xmla.FirstDataCell | api-laravel/app/Http/Controllers/OlapController.php:76-78 | `item(0)` of the selected cells exists exactly when `FirstData` finds an index, and is that cell |
| Xmla.Present | api-laravel/app/Http/Controllers/ProductionController.php:90-120 | the indices of the rows that give a record, increasing, covering every such row |
| Xmla.SomesByIndex | api-laravel/app/Http/Controllers/ProductionController.php:114-119 | the k-th record is the record of the k-th row that gives one |
| Xmla.SomesAppend | api-laravel/app/Http/Controllers/ProductionController.php:90-120 | the records of two runs of rows are the records of the first followed by those of the second |
| Xmla.Coerce | api-laravel/app/Http/Controllers/ProductionController.php:108 | the value is a number exactly when `is_numeric` accepts the text, that number's literal renders back to the text, and any other text stays unchanged |
| Xmla.EmptyTextStaysText | api-laravel/app/Http/Controllers/OlapController.php:87 | an empty cell is not numeric and stays the empty string |
| Numeric.Parse | api-laravel/app/Http/Controllers/ProductionController.php:108 | a literal found is well formed and renders back to the text it was read from |
| Numeric.ParseRender | api-laravel/app/Http/Controllers/ProductionController.php:108 | reading the text of any well-formed literal gives that literal back |
| Numeric.IsNumericIffLiteral | api-laravel/app/Http/Controllers/ProductionController.php:108 | `is_numeric` accepts exactly the texts of well-formed literals: optional whitespace, sign, digits with an optional point, optional exponent, optional whitespace |
| CaptionValue.ParseResponse | api-laravel/app/Http/Controllers/ProductionController.php:69-123 | a fault gives the first desc text or `Unknown MDX Error`; otherwise at most one record per row; an unparsed document or no rows give an empty list |
| CaptionValue.IsCaptionName | api-laravel/app/Http/Controllers/ProductionController.php:102 | the `stripos(…, 'MEMBER_CAPTION') !== false` test on a cell's name; `Text.IgnoreCaseIff` states it character by character and `CaptionValue.ExampleNames` on two names |
| CaptionValue.Step | api-laravel/app/Http/Controllers/ProductionController.php:98-110 | one iteration of the cell loop; `CaptionValue.ScanIsLastState` states the loop's result |
| CaptionValue.Scan | api-laravel/app/Http/Controllers/ProductionController.php:95-110 | the cell loop; `CaptionValue.ScanIsLastState` states its result against `CaptionValue.LastOf` |
| CaptionValue.RowRecord | api-laravel/app/Http/Controllers/ProductionController.php:90-119 | one row's record; `CaptionValue.RowRecordIsLastCaptionAndValue` states it |
| CaptionValue.Records | api-laravel/app/Http/Controllers/ProductionController.php:87-122 | at most one record per row; `CaptionValue.RecordsInRowOrder` states which, in which order |
| CaptionValue.LastOf | api-laravel/app/Http/Controllers/ProductionController.php:98-110 | the index found is a cell of the kind with no later cell of that kind; none is found exactly when the row has no cell of that kind |
| CaptionValue.ScanIsLastState | api-laravel/app/Http/Controllers/ProductionController.php:95-110 | the cell loop ends holding the text of the last caption cell and the coerced text of the last other cell |
| CaptionValue.RowRecordIsLastCaptionAndValue | api-laravel/app/Http/Controllers/ProductionController.php:91-119 | a row's record equals the reference record built from its last caption cell and last value cell by index |
| CaptionValue.RowRecordPresent | api-laravel/app/Http/Controllers/ProductionController.php:114 | a row gives a record exactly when it has a caption cell and a value cell |
| CaptionValue.CaptionIsRawText | api-laravel/app/Http/Controllers/ProductionController.php:103 | the measure of a record is the raw text of a caption cell, never coerced |
| CaptionValue.RecordsInRowOrder | api-laravel/app/Http/Controllers/ProductionController.php:87-120 | the records are those of the rows that give one, one per row, in document order |
| CaptionValue.RecordsAppend | api-laravel/app/Http/Controllers/SalesController.php:206-239 | rows are independent: the records of two runs of rows concatenate |
| CaptionValue.RecordsOne | api-laravel/app/Http/Controllers/SalesController.php:233-238 | one row gives its record, or nothing |
| CaptionValue.FaultIgnoresRows | api-laravel/app/Http/Controllers/SalesController.php:199-204 | with a fault the outcome is a failure that does not depend on the rows |
| CaptionValue.ExampleNames | api-laravel/app/Http/Controllers/ProductionController.php:102 | `MEMBER_CAPTION` is a caption name; `Value` is not |
| CaptionValue.ExampleNumber | api-laravel/app/Http/Controllers/ProductionController.php:108 | the text `125000.75` becomes a number with whole part `125000` and fraction `75` |
| CaptionValue.CaptionThenValue | api-laravel/app/Http/Controllers/ProductionController.php:98-119 | a row of one caption cell and one value cell gives the record of the caption's text and the coerced value |
| CaptionValue.CaptionAndValueExample | api-laravel/app/Http/Controllers/ProductionController.php:87-122 | the document with one row `MEMBER_CAPTION`=`2014`, `Value`=`125000.75` parses to that single record |
| FirstCell.DecodeName | api-laravel/app/Http/Controllers/OlapController.php:81 | after the three passes none of the three escapes occurs in the name |
| FirstCell.DecodeUnescaped | api-laravel/app/Http/Controllers/OlapController.php:81 | a name without the three escapes, including one with any other `_xHHHH_`, is left unchanged |
| FirstCell.DecodeFixedPoints | api-laravel/app/Http/Controllers/OlapController.php:81 | decoding leaves a name unchanged exactly when none of the three escapes occurs in it |
| FirstCell.DecodeIdempotent | api-laravel/app/Http/Controllers/OlapController.php:81 | decoding twice is decoding once |
| FirstCell.NoUnderscoreUnescaped | api-laravel/app/Http/Controllers/OlapController.php:81 | a name without `_` contains no escape |
| FirstCell.PassStage | api-laravel/app/Http/Controllers/OlapController.php:81 | each pass undoes exactly its own escape and leaves the later ones, on names without `_` in which no `[`, `]` or space is followed by `x` |
| FirstCell.DecodeEncode | api-laravel/app/Http/Controllers/OlapController.php:81 | decoding inverts the escaping of `[`, `]` and space on names without `_` in which no `[`, `]` or space is followed by `x` |
| FirstCell.StripMeasures | api-laravel/app/Http/Controllers/OlapController.php:83 | a name starting with `[Measures].` loses exactly that prefix; any other name is unchanged |
| FirstCell.StripOnce | api-laravel/app/Http/Controllers/OlapController.php:83 | the prefix is removed once, not repeatedly |
| FirstCell.MeasureName | api-laravel/app/Http/Controllers/OlapController.php:80-83 | the measure name contains none of the three escapes; `FirstCell.MeasureOfEncoded` states it on encoded names |
| FirstCell.RowRecord | api-laravel/app/Http/Controllers/OlapController.php:76-88 | one row's record; `FirstCell.RowRecordIsFirstData` states it |
| FirstCell.ParseResponse | api-laravel/app/Http/Controllers/OlapController.php:49-93 | a fault gives `MDX Execution Error: ` + the first desc text or `Unknown MDX Error (SOAP Fault detected)`; otherwise at most one record per row; an unparsed document gives an empty list |
| FirstCell.RowRecordIsFirstData | api-laravel/app/Http/Controllers/OlapController.php:76-88 | a row gives a record exactly when it has a cell not named `schemaLocation`, built from the first such cell's decoded, stripped name and coerced text |
| FirstCell.CellsInRowOrder | api-laravel/app/Http/Controllers/OlapController.php:71-92 | one record per row that has a data cell, in document order, and none for other rows |
| FirstCell.FaultIgnoresRows | api-laravel/app/Http/Controllers/OlapController.php:62-69 | with a fault the outcome does not depend on the rows |
| FirstCell.MeasureOfEncoded | api-laravel/app/Http/Controllers/OlapController.php:80-83 | the element name of `[Measures].x`, for any `x` the decoder inverts (such as `[Tax Amount]`), gives back `x` |
| FirstCell.TwoWordMeasure | api-laravel/app/Http/Controllers/OlapController.php:80-83 | the element name of `[Measures].[a b]` gives `[a b]`, brackets kept, for words without `[`, `]`, space or `_` that do not begin with `x` |
| NameExamples.SalesAmountName | api-laravel/app/Http/Controllers/OlapController.php:80-83 | `_x005b_Measures_x005d_._x005b_Sales_x0020_Amount_x005d_` gives the measure `[Sales Amount]` |
| NameExamples.ReplacementOrderMatters | api-laravel/app/Http/Controllers/OlapController.php:81 | `_x005d_x005b_` decodes to `_x005d[` in the source's order and to `]x005b_` with `]` first |
| Pivot.Distinct | frontend-vite/src/pages/purchasing.jsx:89-90 | `[...new Set(xs)]` has no duplicates and exactly the elements of `xs` |
| Pivot.DistinctInFirstOccurrenceOrder | frontend-vite/src/pages/purchasing.jsx:89 | the distinct elements come in the order of their first occurrences |
| Pivot.Sort | frontend-vite/src/pages/purchasing.jsx:90 | the sorted times are strictly ascending by character codes, with the same elements and length |
| Pivot.SortedUnique | frontend-vite/src/pages/purchasing.jsx:90 | two strictly ascending lists with the same elements are equal |
| Pivot.FirstMatch | frontend-vite/src/pages/purchasing.jsx:104-106 | `find` gives the first row with that category and time, or none when no row has both |
| Pivot.Categories | frontend-vite/src/pages/purchasing.jsx:89 | the distinct categories; `Pivot.DistinctInFirstOccurrenceOrder` and `Pivot.DatasetsInFirstOccurrenceOrder` state their order and elements |
| Pivot.Times | frontend-vite/src/pages/purchasing.jsx:90 | the distinct times, sorted; `Pivot.LabelsAreSortedTimes` and `Pivot.LabelsDetermined` state them |
| Pivot.Colour | frontend-vite/src/pages/purchasing.jsx:112-113 | the palette entry at `index % 6`; `Pivot.DatasetShape` states it as each dataset's border and, with `33` appended, its fill |
| Pivot.DatasetOf | frontend-vite/src/pages/purchasing.jsx:103-116 | one category's dataset; `Pivot.DatasetShape`, `Pivot.EveryPointCharted` and `Pivot.NonZeroFromRow` state its legend, colours and entries |
| Pivot.Entry | frontend-vite/src/pages/purchasing.jsx:103-108 | one data entry; `Pivot.EveryPointCharted` and `Pivot.NonZeroFromRow` state it |
| Pivot.Chart | frontend-vite/src/pages/purchasing.jsx:89-117 | the labels are the times and there is one dataset per category; the lemmas below state their order and contents |
| Pivot.LabelsAreSortedTimes | frontend-vite/src/pages/purchasing.jsx:90-93 | the labels are strictly ascending and are exactly the times of the data |
| Pivot.LabelsDetermined | frontend-vite/src/pages/purchasing.jsx:90-93 | any strictly ascending list of exactly the data's times is the label list |
| Pivot.DatasetsInFirstOccurrenceOrder | frontend-vite/src/pages/purchasing.jsx:89-94 | no two datasets share a category, and datasets follow the first appearance of their categories in the data |
| Pivot.DatasetShape | frontend-vite/src/pages/purchasing.jsx:94-117 | dataset k is labelled by the k-th category, has one entry per label, border colour `palette[k % 6]` and fill that colour + `33` |
| Pivot.EveryPointCharted | frontend-vite/src/pages/purchasing.jsx:103-108 | every row's category has a dataset and its time a label, and the entry there is the value of the first row with that category and time |
| Pivot.NonZeroFromRow | frontend-vite/src/pages/purchasing.jsx:103-108 | a non-zero entry is the value of some row with that dataset's category and that label's time |

## Left out

- Transport: `XmlaService::executeMdx` is an HTTP POST to a fixed endpoint. It is
  network I/O, so it is the `execute` parameter, and its failures are a message.
- XML parsing: `DOMDocument::loadXML` and the XPath queries are foreign code. The
  model starts from the parsed `Xmla.Doc`. A desc or cell text is taken as its
  `nodeValue`.
- Floating point: the `(float)` cast after `is_numeric` is not modelled. A numeric
  cell keeps the literal it was read from (`Xmla.Value.Number`).
- Production.ProductionRecords: a numeric cell beyond the range of a double, such
  as `1e999`, becomes INF. `response()->json` then throws an exception inside the
  `try`, and the source replies 500 with "Inf and NaN cannot be JSON encoded".
  The model, without floating point, promises the JSON reply.
- Sales.SalesRecords: the same INF case as `Production.ProductionRecords`.
- Non-array inputs: a `measures` or member list that is not an array makes
  `implode`/`array_map` throw a `TypeError`. The model takes lists only.
- Non-string scalars: measures, member keys and the time level are strings in
  the model. An array in one of those places (`measures: [["x"]]`, an array
  `time_level`, `filters: {"D": [["x"]]}`) meets PHP's "Array to string
  conversion" in `implode` (ProductionController.php:25), in the statement text
  (lines 26-31), in `strpos` (line 39, a `TypeError`) or in the member reference
  (line 44). That happens before the `try`, so the source replies with an uncaught
  error, which the model does not express. Numbers, booleans and null are taken as
  the string PHP interpolates for them, for example `1.0` as `"1"`.
- Mdx.FilterClauses: a non-empty `filters` value that is not an array or object
  makes `foreach` warn (ProductionController.php:37). Laravel turns that into an
  exception raised before the `try`, so the source replies with an uncaught error.
  The model takes a list of entries only.
- Mdx.FilterClause: a member list sent as a JSON object without the key `0`,
  such as `{"5": "x"}`, leaves `$formattedMembers[0]` (line 50) undefined, an
  uncaught error in the source. The model takes member lists, whose first member
  is always at index 0, and builds `D.&[x]`.
- Duplicate keys in the filters object cannot occur once it is decoded. The model
  takes the entries as a list in their order.
- `OlapController::getSalesData` and `runMdx`, and `XmlaController`, send a fixed
  or user-given statement unchanged and have no logic of their own.
- The SQL endpoints (`getSalesSummary`, `DashboardController`,
  `PurchasingController`, `FilterController`) read from the database through the
  ORM.
- The front end's own copy of the parser in `frontend-vite/src/pages/sales-olap.jsx`
  (browser DOM, `parseFloat`) is not part of this model. Unlike the PHP parsers, it
  treats zero rows as an error (lines 64-66).
- Chart rendering, the constant `fill` and `tension` options, and every other page
  of the front end.
- Pivot.Sort: JavaScript compares UTF-16 code units; the model compares Dafny
  characters, that is code points. The two orders differ only when a character
  above U+FFFF is compared with one in U+E000–U+FFFF. Times that are numbers in the data are modelled by their string form,
  which is what the default sort compares. `Set` would keep a number and the equal
  string apart.
- Pivot.FirstMatch: data values are modelled as reals, and the `0` of a missing
  pair as `0.0`.
- Laravel's rendering of an uncaught exception is not modelled. The reply keeps
  only the warning's message (`Reply.Uncaught`).
