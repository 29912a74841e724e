/** The MDX filter fragment both OLAP controllers build from a request's `filters`
    object: one clause per dimension level, combined into a single `WHERE` tuple.
    Dimension names and member keys are interpolated as given, without escaping. */
module Mdx {
  import opened Wrappers
  import Text

  /** One entry of the `filters` object: a dimension level such as
      `[Location].[Location]` and the member keys to restrict it to, in order. */
  datatype FilterEntry = FilterEntry(dimension: string, members: seq<string>)

  /** Which entries a controller's filter loop passes over. */
  datatype SkipRule =
    | DateWhenSlicedByDate(timeLevel: string)  // ProductionController: only while rows are sliced by `[Date]`
    | AnyDate                                  // SalesController: every `[Date]` entry

  const DateDimension := "[Date]"

  /** The loop's `continue` condition for a dimension level. */
  predicate Skips(rule: SkipRule, dimension: string)
  {
    match rule
    case DateWhenSlicedByDate(t) => Text.Contains(t, DateDimension) && Text.Contains(dimension, DateDimension)
    case AnyDate => Text.Contains(dimension, DateDimension)
  }

  /** The key reference of one member, `D.&[v]`. */
  function MemberRef(dimension: string, member: string): string
  {
    dimension + ".&[" + member + "]"
  }

  function MemberRefs(dimension: string, members: seq<string>): (r: seq<string>)
    ensures |r| == |members|
    ensures forall i :: 0 <= i < |members| ==> r[i] == MemberRef(dimension, members[i])
  {
    seq(|members|, i requires 0 <= i < |members| => MemberRef(dimension, members[i]))
  }

  /** Reading `$formattedMembers[0]` of an empty member list: Laravel turns PHP's
      "Undefined array key 0" warning into an exception. */
  datatype BuildError = UndefinedMemberIndex(dimension: string)

  /** One entry's clause: a single member reference, or a `{…}` set of several. */
  function FilterClause(e: FilterEntry): (r: Result<string, BuildError>)
    ensures r.Failure? <==> |e.members| == 0
  {
    if |e.members| > 1 then Success("{" + Text.Join(",", MemberRefs(e.dimension, e.members)) + "}")
    else if |e.members| == 1 then Success(MemberRef(e.dimension, e.members[0]))
    else Failure(UndefinedMemberIndex(e.dimension))
  }

  /** The filter loop: entries in order, skipped ones contributing nothing; the first
      non-skipped entry without members stops the request. */
  function FilterClauses(rule: SkipRule, filters: seq<FilterEntry>): (r: Result<seq<string>, BuildError>)
    ensures r.Success? ==> |r.value| <= |filters|
  {
    if |filters| == 0 then Success([])
    else if Skips(rule, filters[0].dimension) then FilterClauses(rule, filters[1..])
    else
      match FilterClause(filters[0])
      case Failure(err) => Failure(err)
      case Success(c) =>
        match FilterClauses(rule, filters[1..])
        case Failure(err) => Failure(err)
        case Success(cs) => Success([c] + cs)
  }

  /** The text appended to the statement: nothing for an empty `filters` object or
      when every clause was skipped, otherwise ` WHERE (c1,c2,…)`. */
  function WhereClause(rule: SkipRule, filters: seq<FilterEntry>): (r: Result<string, BuildError>)
    ensures r.Failure? <==> FilterClauses(rule, filters).Failure?
  {
    if |filters| == 0 then Success("")
    else
      match FilterClauses(rule, filters)
      case Failure(err) => Failure(err)
      case Success(cs) => Success(if |cs| == 0 then "" else " WHERE (" + Text.Join(",", cs) + ")")
  }

  /** The entries the loop does not skip, in order. */
  function Kept(rule: SkipRule, filters: seq<FilterEntry>): (r: seq<FilterEntry>)
    ensures |r| <= |filters|
  {
    if |filters| == 0 then []
    else if Skips(rule, filters[0].dimension) then Kept(rule, filters[1..])
    else [filters[0]] + Kept(rule, filters[1..])
  }

  /** Every kept entry names at least one member. */
  predicate MembersPresent(entries: seq<FilterEntry>)
  {
    forall i :: 0 <= i < |entries| ==> |entries[i].members| > 0
  }

  /** The clause of an entry known to have members. */
  function ClauseOf(e: FilterEntry): string
    requires |e.members| > 0
  {
    FilterClause(e).value
  }

  /** The clauses of entries that all have members, one each, in order. */
  function ClausesOf(entries: seq<FilterEntry>): (r: seq<string>)
    requires MembersPresent(entries)
    ensures |r| == |entries|
  {
    seq(|entries|, i requires 0 <= i < |entries| && MembersPresent(entries) => ClauseOf(entries[i]))
  }

  lemma MembersPresentCons(e: FilterEntry, rest: seq<FilterEntry>)
    ensures MembersPresent([e] + rest) <==> |e.members| > 0 && MembersPresent(rest)
  {
    var all := [e] + rest;
    if MembersPresent(all) {
      assert all[0] == e;
      forall i | 0 <= i < |rest| ensures |rest[i].members| > 0 {
        assert rest[i] == all[i + 1];
      }
    }
  }

  /** When every kept entry has members, the loop yields exactly their clauses, in input order. */
  lemma {:induction false} FilterClausesAreKeptClauses(rule: SkipRule, filters: seq<FilterEntry>)
    requires MembersPresent(Kept(rule, filters))
    ensures FilterClauses(rule, filters) == Success(ClausesOf(Kept(rule, filters)))
    decreases |filters|
  {
    if |filters| > 0 {
      var rest := Kept(rule, filters[1..]);
      if Skips(rule, filters[0].dimension) {
        FilterClausesAreKeptClauses(rule, filters[1..]);
      } else {
        MembersPresentCons(filters[0], rest);
        FilterClausesAreKeptClauses(rule, filters[1..]);
        var kept := Kept(rule, filters);
        assert kept == [filters[0]] + rest;
        assert ClausesOf(kept) == [ClauseOf(filters[0])] + ClausesOf(rest);
      }
    }
  }

  /** The loop fails exactly when some kept entry has no members. */
  lemma {:induction false} FilterClausesFail(rule: SkipRule, filters: seq<FilterEntry>)
    ensures FilterClauses(rule, filters).Failure? <==> !MembersPresent(Kept(rule, filters))
    decreases |filters|
  {
    if |filters| > 0 {
      FilterClausesFail(rule, filters[1..]);
      if !Skips(rule, filters[0].dimension) {
        MembersPresentCons(filters[0], Kept(rule, filters[1..]));
      }
    }
  }

  /** A skipped entry contributes nothing; any other entry exactly one clause. */
  lemma SkipOrOneClause(rule: SkipRule, e: FilterEntry)
    requires |e.members| > 0
    ensures Skips(rule, e.dimension) ==> FilterClauses(rule, [e]) == Success([])
    ensures !Skips(rule, e.dimension) ==> FilterClauses(rule, [e]) == Success([ClauseOf(e)])
  {
    assert [e][0] == e;
    assert [e][1..] == [];
    assert FilterClauses(rule, []) == Success([]);
    if !Skips(rule, e.dimension) {
      assert FilterClause(e) == Success(ClauseOf(e));
      assert [ClauseOf(e)] + [] == [ClauseOf(e)];
    }
  }

  /** The WHERE tuple appears exactly when some entry survives the skip rule. */
  lemma WherePresentIffKept(rule: SkipRule, filters: seq<FilterEntry>)
    requires MembersPresent(Kept(rule, filters))
    ensures WhereClause(rule, filters).Success?
    ensures WhereClause(rule, filters).value == "" <==> |Kept(rule, filters)| == 0
    ensures |Kept(rule, filters)| > 0 ==>
              WhereClause(rule, filters).value == " WHERE (" + Text.Join(",", FilterClauses(rule, filters).value) + ")"
  {
    FilterClausesAreKeptClauses(rule, filters);
  }

  /** Every member of an entry is referenced in its clause, in member order: one
      member gives its bare reference; several give `{`, the references separated by
      single commas, and `}` directly after the last one. */
  lemma ClauseListsMembers(e: FilterEntry, i: nat)
    requires i < |e.members|
    ensures var c := ClauseOf(e);
            var refs := MemberRefs(e.dimension, e.members);
            |e.members| == 1 ==> c == refs[0]
    ensures var c := ClauseOf(e);
            var refs := MemberRefs(e.dimension, e.members);
            var start := 1 + Text.PartStart(",", refs, i);
            |e.members| > 1 ==>
              && c[0] == '{' && c[|c| - 1] == '}'
              && Text.OccursAt(c, MemberRef(e.dimension, e.members[i]), start)
              && (i + 1 < |e.members| ==>
                    && Text.OccursAt(c, ",", start + |refs[i]|)
                    && 1 + Text.PartStart(",", refs, i + 1) == start + |refs[i]| + 1)
              && (i + 1 == |e.members| ==> start + |refs[i]| == |c| - 1)
  {
    var refs := MemberRefs(e.dimension, e.members);
    if |e.members| > 1 {
      var j := Text.Join(",", refs);
      var p := Text.PartStart(",", refs, i);
      Text.JoinHasPart(",", refs, i);
      Text.OccursAfter("{", j, refs[i], p);
      Text.OccursBefore("{" + j, "}", refs[i], 1 + p);
      if i + 1 < |e.members| {
        Text.PartStartsIncrease(",", refs, i);
        Text.JoinHasSep(",", refs, i);
        Text.OccursAfter("{", j, ",", p + |refs[i]|);
        Text.OccursBefore("{" + j, "}", ",", 1 + p + |refs[i]|);
      } else {
        Text.JoinLength(",", refs);
      }
    }
  }

  /** One member gives a bare reference. */
  lemma SingleMemberExample()
    ensures FilterClause(FilterEntry("[Location].[Location]", ["Seattle"]))
            == Success("[Location].[Location].&[Seattle]")
  {
    assert MemberRef("[Location].[Location]", "Seattle") == "[Location].[Location].&[Seattle]";
  }

  /** Two members give a braced, comma-separated set, in member order; for example
      `{[Location].[Location].&[Seattle],[Location].[Location].&[Tacoma]}`. */
  lemma TwoMembers(d: string, v1: string, v2: string)
    ensures FilterClause(FilterEntry(d, [v1, v2])) == Success("{" + MemberRef(d, v1) + "," + MemberRef(d, v2) + "}")
  {
    var refs := MemberRefs(d, [v1, v2]);
    assert refs == [MemberRef(d, v1), MemberRef(d, v2)];
    assert refs[1..] == [MemberRef(d, v2)];
    assert Text.Join(",", refs) == MemberRef(d, v1) + "," + MemberRef(d, v2);
    assert "{" + (MemberRef(d, v1) + "," + MemberRef(d, v2)) + "}"
        == "{" + MemberRef(d, v1) + "," + MemberRef(d, v2) + "}";
  }

  /** With rows sliced by `[Date].[Year]`, a `[Date]` filter is dropped. */
  lemma DateFilterSkippedExample()
    ensures Skips(DateWhenSlicedByDate("[Date].[Year]"), "[Date].[Month]")
  {
    assert "[Date].[Year]"[..6] == DateDimension;
    assert "[Date].[Month]"[..6] == DateDimension;
    Text.StartsWith("[Date].[Year]", DateDimension);
    Text.StartsWith("[Date].[Month]", DateDimension);
  }

  /** A `[Location]` filter is kept whatever the rows are sliced by. */
  lemma LocationFilterKeptExample(timeLevel: string)
    ensures !Skips(DateWhenSlicedByDate(timeLevel), "[Location].[Location]")
    ensures !Skips(AnyDate, "[Location].[Location]")
  {
    assert 'D' in DateDimension;
    Text.MissingChar("[Location].[Location]", DateDimension, 'D');
  }

  /** With rows sliced by another dimension, the Production rule keeps a `[Date]`
      filter that the Sales rule drops. */
  lemma RulesDivergeExample()
    ensures !Skips(DateWhenSlicedByDate("[Product].[Category]"), "[Date].[Year]")
    ensures Skips(AnyDate, "[Date].[Year]")
  {
    assert "[Date].[Year]"[..6] == DateDimension;
    Text.StartsWith("[Date].[Year]", DateDimension);
    assert 'D' in DateDimension;
    Text.MissingChar("[Product].[Category]", DateDimension, 'D');
  }
}
