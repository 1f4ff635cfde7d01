/**
 * The SQL text that `_group_features_relation` sends to the database: one
 * `CASE WHEN … END AS "<group>"` column per group, groups in sorted name
 * order, WHEN branches in filter order.
 *
 * Beside the text, the branches are also kept as values (`WhenBranch`) with
 * the meaning SQL gives a searched CASE: a CASE needs at least one WHEN
 * branch, the first branch whose condition is true yields
 * `'<key>=' || "<key>"`, and no true branch yields NULL. The lemma
 * `CaseAgreesWithRowMatcher` shows that a CASE column with branches computes
 * exactly what the row matcher of `OsmFilters` computes, and that a group
 * without branches gets a CASE the database rejects.
 */
module OsmSql {
  import opened Wrappers
  import opened Strings
  import opened OsmFilters

  /** The condition of one WHEN branch on the column named by the tag key. */
  datatype Condition = IsNotNull | EqualsLiteral(literal: string) | InLiterals(literals: seq<string>)

  datatype WhenBranch = WhenBranch(key: string, cond: Condition)

  /**
   * The branch a filter entry contributes: `True` tests for non-NULL, a string
   * for equality, a non-empty list for membership; `False` and `[]` contribute none.
   */
  function BranchOf(key: string, v: TagValue): Option<WhenBranch>
  {
    match v
    case Bool(b) => if b then Some(WhenBranch(key, IsNotNull)) else None
    case Str(s) => Some(WhenBranch(key, EqualsLiteral(s)))
    case Lst(values) => if |values| > 0 then Some(WhenBranch(key, InLiterals(values))) else None
  }

  /** The branches of one group's CASE, in filter order. */
  function Branches(f: OsmTagsFilter): seq<WhenBranch>
  {
    if f == [] then []
    else
      var rest := Branches(f[1..]);
      match BranchOf(f[0].0, f[0].1)
      case Some(b) => [b] + rest
      case None => rest
  }

  lemma {:induction false} BranchesAppend(f: OsmTagsFilter, g: OsmTagsFilter)
    ensures Branches(f + g) == Branches(f) + Branches(g)
  {
    if f == [] {
      assert f + g == g;
    } else {
      assert (f + g)[0] == f[0] && (f + g)[1..] == f[1..] + g;
      BranchesAppend(f[1..], g);
    }
  }

  /** The entries whose key and value give a WHEN branch. */
  lemma BranchesOfOne(key: string, v: TagValue)
    ensures Branches([(key, v)]) == match BranchOf(key, v) case Some(b) => [b] case None => []
  {
    assert [(key, v)][1..] == [];
  }

  // ---------------------------------------------------------------------------
  // What the CASE column evaluates to
  // ---------------------------------------------------------------------------

  /**
   * Whether a WHEN condition is true for a column value (None is SQL NULL:
   * every comparison with NULL is unknown, which WHEN treats as false).
   */
  predicate ConditionHolds(cond: Condition, column: Option<string>)
  {
    match cond
    case IsNotNull => column.Some?
    case EqualsLiteral(lit) => column.Some? && column.value == lit
    case InLiterals(lits) => column.Some? && column.value in lits
  }

  /** The WHEN list of a searched CASE on one row: the first true WHEN wins, otherwise NULL. */
  function EvalCase(row: Row, branches: seq<WhenBranch>): Option<string>
  {
    if branches == [] then None
    else if ConditionHolds(branches[0].cond, Get(row, branches[0].key)) then
      Some(Format(branches[0].key, row[branches[0].key]))
    else EvalCase(row, branches[1..])
  }

  /** SQL's grammar requires at least one WHEN in a CASE; `CASE END` is a syntax error. */
  datatype SqlError = EmptyCase

  /** A CASE column as the database evaluates it: rejected without branches, else the WHEN list's value. */
  function EvalCaseColumn(row: Row, branches: seq<WhenBranch>): (r: Result<Option<string>, SqlError>)
    ensures r.Err? <==> branches == []
  {
    if branches == [] then Err(EmptyCase) else Ok(EvalCase(row, branches))
  }

  /**
   * An entry contributes a WHEN branch exactly when some row value can match
   * it, and that branch's condition holds for a column value exactly when the
   * row matcher accepts that value.
   */
  lemma BranchIffMatchable(key: string, v: TagValue)
    ensures BranchOf(key, v).Some? <==> exists s :: EntryMatches(v, s)
    ensures BranchOf(key, v).Some? ==> BranchOf(key, v).value.key == key
    ensures BranchOf(key, v).Some? ==>
      forall column: Option<string> :: ConditionHolds(BranchOf(key, v).value.cond, column) <==> (column.Some? && EntryMatches(v, column.value))
  {
    if v.Lst? && |v.values| > 0 {
      assert EntryMatches(v, v.values[0]);
    } else if v.Str? {
      assert EntryMatches(v, v.s);
    } else if v == Bool(true) {
      assert EntryMatches(v, "");
    }
  }

  /** The WHEN list built for a filter selects, on any row, what the row matcher selects. */
  lemma {:induction false} WhenListAgreesWithRowMatcher(row: Row, f: OsmTagsFilter)
    ensures EvalCase(row, Branches(f)) == FirstMatch(row, f)
  {
    if f != [] {
      WhenListAgreesWithRowMatcher(row, f[1..]);
      BranchIffMatchable(f[0].0, f[0].1);
      var b := BranchOf(f[0].0, f[0].1);
      if b.Some? {
        assert Branches(f) == [b.value] + Branches(f[1..]);
        assert ([b.value] + Branches(f[1..]))[1..] == Branches(f[1..]);
      } else {
        assert !(exists s :: EntryMatches(f[0].1, s));
        assert Branches(f) == Branches(f[1..]);
      }
    }
  }

  /**
   * The cross-check between the two ways of grouping features: the CASE
   * column built for a filter with at least one branch evaluates, on any
   * row, to the value `_get_first_matching_osm_tag_value` gives that row. A
   * filter without branches gets a CASE the database rejects, although the
   * row matcher gives NA on every row.
   */
  lemma CaseAgreesWithRowMatcher(row: Row, f: OsmTagsFilter)
    ensures Branches(f) != [] ==> EvalCaseColumn(row, Branches(f)) == Ok(FirstMatch(row, f))
    ensures Branches(f) == [] ==> EvalCaseColumn(row, Branches(f)) == Err(EmptyCase) && FirstMatch(row, f) == None
  {
    WhenListAgreesWithRowMatcher(row, f);
  }

  /**
   * The query as written, on a group whose only entry is `False`: the group
   * has no branch, its clause is `CASE  END AS "g"`, and the database rejects
   * it, while the GeoDataFrame path gives the group NA on every row.
   */
  lemma EmptyGroupCaseRejected(row: Row, escape: string -> string)
    ensures Branches([("amenity", Bool(false))]) == []
    ensures CaseClause("g", [("amenity", Bool(false))], escape) == "CASE  END AS \"g\""
    ensures EvalCaseColumn(row, Branches([("amenity", Bool(false))])) == Err(EmptyCase)
    ensures FirstMatch(row, [("amenity", Bool(false))]) == None
  {
    assert [("amenity", Bool(false))][1..] == [];
    assert Branches([("amenity", Bool(false))]) == [];
    assert BranchTexts([], escape) == [];
  }

  /**
   * The column a group evidently should get: its CASE when it has branches,
   * and the NULL literal (`NULL AS "g"`) when it has none.
   */
  datatype ColumnExpr = CaseExpr(branches: seq<WhenBranch>) | NullExpr

  function IntendedColumn(f: OsmTagsFilter): (e: ColumnExpr)
    ensures e.CaseExpr? ==> e.branches == Branches(f) && e.branches != []
  {
    if Branches(f) == [] then NullExpr else CaseExpr(Branches(f))
  }

  function EvalColumn(row: Row, e: ColumnExpr): Result<Option<string>, SqlError>
  {
    match e
    case CaseExpr(bs) => EvalCaseColumn(row, bs)
    case NullExpr => Ok(None)
  }

  /** The intended column is always accepted and agrees with the row matcher on every row. */
  lemma IntendedColumnAgrees(row: Row, f: OsmTagsFilter)
    ensures EvalColumn(row, IntendedColumn(f)) == Ok(FirstMatch(row, f))
  {
    CaseAgreesWithRowMatcher(row, f);
  }

  // ---------------------------------------------------------------------------
  // The query text
  // ---------------------------------------------------------------------------

  /** `'<escape(v)>'` for each listed value. */
  function QuoteAll(values: seq<string>, escape: string -> string): (r: seq<string>)
    ensures |r| == |values|
  {
    seq(|values|, k requires 0 <= k < |values| => "'" + escape(values[k]) + "'")
  }

  /** A double-quoted column name. */
  function Column(key: string): string
  {
    "\"" + key + "\""
  }

  /** The text of one WHEN branch; `escape` is `srai.db.escape`, not part of this model. */
  function BranchText(b: WhenBranch, escape: string -> string): string
  {
    var test :=
      match b.cond
      case IsNotNull => Column(b.key) + " IS NOT NULL"
      case EqualsLiteral(lit) => Column(b.key) + " = '" + escape(lit) + "'"
      case InLiterals(lits) => Column(b.key) + " IN (" + Join(", ", QuoteAll(lits, escape)) + ")";
    "WHEN " + test + " THEN '" + b.key + "=' || " + Column(b.key)
  }

  function BranchTexts(bs: seq<WhenBranch>, escape: string -> string): (r: seq<string>)
    ensures |r| == |bs|
  {
    seq(|bs|, k requires 0 <= k < |bs| => BranchText(bs[k], escape))
  }

  /** One group's column: `CASE <branches> END AS "<group>"`. */
  function CaseClause(groupName: string, f: OsmTagsFilter, escape: string -> string): string
  {
    "CASE " + Join(" ", BranchTexts(Branches(f), escape)) + " END AS " + Column(groupName)
  }

  /** `group_filter[name]`: the filter of the first group with that name. */
  function Lookup(g: GroupedFilter, name: string): (f: OsmTagsFilter)
  {
    if g == [] then [] else if g[0].0 == name then g[0].1 else Lookup(g[1..], name)
  }

  /** `sorted(group_filter.keys())`. */
  function SortedGroupNames(g: GroupedFilter): seq<string>
  {
    Sort(Keys(g))
  }

  /** The CASE columns, one per name of `SortedGroupNames(g)`. */
  function CaseClauses(g: GroupedFilter, escape: string -> string): (r: seq<string>)
    ensures |r| == |g|
  {
    SortCorrect(Keys(g));
    var names := SortedGroupNames(g);
    seq(|names|, k requires 0 <= k < |names| => CaseClause(names[k], Lookup(g, names[k]), escape))
  }

  /** The name of the virtual table the query reads, built from a random hex token. */
  function RelationName(relationId: string): string
  {
    "grouped_" + relationId
  }

  /** The full query of `_group_features_relation`. */
  function GroupingQuery(g: GroupedFilter, relationId: string, escape: string -> string): string
  {
    "SELECT feature_id, geometry, " + Join(", ", CaseClauses(g, escape)) + " FROM " + RelationName(relationId)
  }

  // ---------------------------------------------------------------------------
  // Properties of the query
  // ---------------------------------------------------------------------------

  lemma {:induction false} LookupFinds(g: GroupedFilter, k: int)
    requires IsDict(g) && 0 <= k < |g|
    ensures Lookup(g, g[k].0) == g[k].1
  {
    if k > 0 {
      LookupFinds(g[1..], k - 1);
    }
  }

  /**
   * One CASE column per group: the columns follow the group names in strictly
   * increasing order, every group name occurs exactly once among them, and
   * the column for a name is built from that group's own filter.
   */
  lemma CaseClausesPerGroup(g: GroupedFilter, escape: string -> string)
    requires IsDict(g)
    ensures |SortedGroupNames(g)| == |CaseClauses(g, escape)| == |g|
    ensures forall a, b :: 0 <= a < b < |g| ==> LexLt(SortedGroupNames(g)[a], SortedGroupNames(g)[b])
    ensures forall k :: 0 <= k < |g| ==> multiset(SortedGroupNames(g))[g[k].0] == 1
    ensures forall n :: n in SortedGroupNames(g) <==> n in Keys(g)
    ensures forall a, k :: 0 <= a < |g| && 0 <= k < |g| && SortedGroupNames(g)[a] == g[k].0 ==>
      CaseClauses(g, escape)[a] == CaseClause(g[k].0, g[k].1, escape)
  {
    var keys := Keys(g);
    SortCorrect(keys);
    SortDistinctStrict(keys);
    forall k | 0 <= k < |g| ensures multiset(SortedGroupNames(g))[g[k].0] == 1 {
      assert keys[k] in multiset(keys);
      DistinctMultiset(keys, g[k].0);
    }
    forall n ensures n in SortedGroupNames(g) <==> n in keys {
      assert n in SortedGroupNames(g) <==> n in multiset(SortedGroupNames(g));
      assert n in keys <==> n in multiset(keys);
    }
    forall a, k | 0 <= a < |g| && 0 <= k < |g| && SortedGroupNames(g)[a] == g[k].0
      ensures CaseClauses(g, escape)[a] == CaseClause(g[k].0, g[k].1, escape)
    {
      LookupFinds(g, k);
    }
  }

  /**
   * The WHEN branches of a group are its entries that the row matcher can
   * ever match, in filter order: `False` and empty-list entries are dropped,
   * every other entry keeps its place.
   */
  lemma {:induction false} BranchesAreActiveEntries(f: OsmTagsFilter)
    ensures |Branches(f)| <= |f|
    ensures forall b :: b in Branches(f) <==>
      exists k :: 0 <= k < |f| && BranchOf(f[k].0, f[k].1) == Some(b)
    ensures (forall k :: 0 <= k < |f| ==> !(exists s :: EntryMatches(f[k].1, s))) ==> Branches(f) == []
  {
    if f != [] {
      BranchesAreActiveEntries(f[1..]);
      BranchIffMatchable(f[0].0, f[0].1);
      forall b ensures b in Branches(f) <==> exists k :: 0 <= k < |f| && BranchOf(f[k].0, f[k].1) == Some(b) {
        if b in Branches(f) && !(BranchOf(f[0].0, f[0].1) == Some(b)) {
          assert b in Branches(f[1..]);
          var k :| 0 <= k < |f[1..]| && BranchOf(f[1..][k].0, f[1..][k].1) == Some(b);
          assert BranchOf(f[k + 1].0, f[k + 1].1) == Some(b);
        }
        if exists k :: 0 <= k < |f| && BranchOf(f[k].0, f[k].1) == Some(b) {
          var k :| 0 <= k < |f| && BranchOf(f[k].0, f[k].1) == Some(b);
          if k > 0 {
            assert BranchOf(f[1..][k - 1].0, f[1..][k - 1].1) == Some(b);
          }
        }
      }
      if forall k :: 0 <= k < |f| ==> !(exists s :: EntryMatches(f[k].1, s)) {
        forall k | 0 <= k < |f[1..]| ensures !(exists s :: EntryMatches(f[1..][k].1, s)) {
          assert f[1..][k] == f[k + 1];
        }
      }
    }
  }

  // ---------------------------------------------------------------------------
  // The builder, as the source writes it
  // ---------------------------------------------------------------------------

  /** Appending one entry to a filter appends its branch text, if it has one. */
  lemma BranchTextsStep(f: OsmTagsFilter, e: int, escape: string -> string)
    requires 0 <= e < |f|
    ensures BranchTexts(Branches(f[..e + 1]), escape) ==
      BranchTexts(Branches(f[..e]), escape) +
        match BranchOf(f[e].0, f[e].1) case Some(b) => [BranchText(b, escape)] case None => []
  {
    BranchesAppend(f[..e], [f[e]]);
    BranchesOfOne(f[e].0, f[e].1);
    assert f[..e + 1] == f[..e] + [f[e]];
  }

  // The texts the source writes with f-strings are the rendered branches.

  lemma QueryText(g: GroupedFilter, relationId: string, escape: string -> string)
    ensures "SELECT feature_id, geometry, " + Join(", ", CaseClauses(g, escape)) + " FROM " + ("grouped_" + relationId) == GroupingQuery(g, relationId, escape)
  {
  }

  lemma CaseText(name: string, f: OsmTagsFilter, escape: string -> string)
    ensures "CASE " + Join(" ", BranchTexts(Branches(f), escape)) + " END AS \"" + name + "\"" == CaseClause(name, f, escape)
  {
  }

  lemma NotNullText(k: string, escape: string -> string)
    ensures "WHEN \"" + k + "\" IS NOT NULL THEN '" + k + "=' || \"" + k + "\"" == BranchText(WhenBranch(k, IsNotNull), escape)
  {
  }

  lemma EqualsText(k: string, v: string, escape: string -> string)
    ensures "WHEN \"" + k + "\" = '" + escape(v) + "' THEN '" + k + "=' || \"" + k + "\"" == BranchText(WhenBranch(k, EqualsLiteral(v)), escape)
  {
  }

  lemma InText(k: string, vs: seq<string>, escape: string -> string)
    ensures "WHEN \"" + k + "\" IN (" + Join(", ", QuoteAll(vs, escape)) + ") THEN '" + k + "=' || \"" + k + "\"" == BranchText(WhenBranch(k, InLiterals(vs)), escape)
  {
  }

  /**
   * The inner loop of `_group_features_relation`: one WHEN text per entry
   * that is `True`, a string, or a non-empty list, in filter order.
   */
  method CaseWhenClauses(osmFilter: OsmTagsFilter, escape: string -> string) returns (caseWhenClauses: seq<string>)
    ensures caseWhenClauses == BranchTexts(Branches(osmFilter), escape)
  {
    caseWhenClauses := [];
    var e := 0;
    while e < |osmFilter|
      invariant 0 <= e <= |osmFilter|
      invariant caseWhenClauses == BranchTexts(Branches(osmFilter[..e]), escape)
    {
      var (osmTagKey, osmTagValue) := osmFilter[e];
      BranchTextsStep(osmFilter, e, escape);
      if osmTagValue.Bool? && osmTagValue.b {
        var clause := "WHEN \"" + osmTagKey + "\" IS NOT NULL THEN '" + osmTagKey + "=' || \"" + osmTagKey + "\"";
        NotNullText(osmTagKey, escape);
        caseWhenClauses := caseWhenClauses + [clause];
      } else if osmTagValue.Str? {
        var escapedValue := escape(osmTagValue.s);
        var clause := "WHEN \"" + osmTagKey + "\" = '" + escapedValue + "' THEN '" + osmTagKey + "=' || \"" + osmTagKey + "\"";
        EqualsText(osmTagKey, osmTagValue.s, escape);
        caseWhenClauses := caseWhenClauses + [clause];
      } else if osmTagValue.Lst? && |osmTagValue.values| > 0 {
        var valuesList := QuoteAll(osmTagValue.values, escape);
        var clause := "WHEN \"" + osmTagKey + "\" IN (" + Join(", ", valuesList) + ") THEN '" + osmTagKey + "=' || \"" + osmTagKey + "\"";
        InText(osmTagKey, osmTagValue.values, escape);
        caseWhenClauses := caseWhenClauses + [clause];
      }
      e := e + 1;
    }
    assert osmFilter[..|osmFilter|] == osmFilter;
  }

  /**
   * The outer loop of `_group_features_relation`: for each group name in
   * sorted order, wrap the group's WHEN texts in a CASE clause, then fill the
   * query template. Returns the relation name and the query; running it on
   * the database is not part of this model.
   */
  method GroupFeaturesRelation(g: GroupedFilter, relationId: string, escape: string -> string)
    returns (relationName: string, query: string)
    ensures relationName == RelationName(relationId)
    ensures query == GroupingQuery(g, relationId, escape)
  {
    relationName := "grouped_" + relationId;
    var caseClauses := BuildCaseClauses(g, escape);
    query := "SELECT feature_id, geometry, " + Join(", ", caseClauses) + " FROM " + relationName;
    QueryText(g, relationId, escape);
  }

  /** The outer loop of `_group_features_relation`: one CASE column per sorted group name. */
  method BuildCaseClauses(g: GroupedFilter, escape: string -> string) returns (caseClauses: seq<string>)
    ensures caseClauses == CaseClauses(g, escape)
  {
    var names := SortedGroupNames(g);
    caseClauses := [];
    var n := 0;
    while n < |names|
      invariant 0 <= n <= |names|
      invariant |caseClauses| == n
      invariant forall m :: 0 <= m < n ==> caseClauses[m] == CaseClause(names[m], Lookup(g, names[m]), escape)
    {
      var groupName := names[n];
      var caseClause := BuildCaseClause(groupName, Lookup(g, groupName), escape);
      caseClauses := caseClauses + [caseClause];
      n := n + 1;
    }
  }

  /** One CASE column: the group's WHEN branches, named after the group. */
  method BuildCaseClause(groupName: string, osmFilter: OsmTagsFilter, escape: string -> string) returns (caseClause: string)
    ensures caseClause == CaseClause(groupName, osmFilter, escape)
  {
    var caseWhenClauses := CaseWhenClauses(osmFilter, escape);
    caseClause := "CASE " + Join(" ", caseWhenClauses) + " END AS \"" + groupName + "\"";
    CaseText(groupName, osmFilter, escape);
  }
}
