/**
 * OSM tag filters and the per-row matcher of the OSM loaders' base class.
 *
 * A flat filter maps a tag key to `True`/`False`, one accepted value, or a
 * list of accepted values; a grouped filter maps a group name to a flat
 * filter. Both are insertion-ordered Python dicts, modelled as sequences of
 * pairs. A feature row maps tag keys to values; a key that is missing and a
 * key whose value is NA are both "absent" here.
 */
module OsmFilters {
  import opened Wrappers

  /** The value side of a flat filter entry: `bool`, `str` or `list[str]`. */
  datatype TagValue = Bool(b: bool) | Str(s: string) | Lst(values: seq<string>)

  /** `osm_tags_type`: tag key -> accepted value(s), in insertion order. */
  type OsmTagsFilter = seq<(string, TagValue)>

  /** `grouped_osm_tags_type`: group name -> flat filter, in insertion order. */
  type GroupedFilter = seq<(string, OsmTagsFilter)>

  /** One feature row: the tags that are present and not NA. */
  type Row = map<string, string>

  /** The keys of an ordered dict, in order: `list(d.keys())`. */
  function Keys<V>(d: seq<(string, V)>): (ks: seq<string>)
    ensures |ks| == |d|
    ensures forall k :: 0 <= k < |d| ==> ks[k] == d[k].0
  {
    seq(|d|, k requires 0 <= k < |d| => d[k].0)
  }

  /** A Python dict never holds a key twice. */
  predicate IsDict<V>(d: seq<(string, V)>)
  {
    forall a, b :: 0 <= a < b < |d| ==> d[a].0 != d[b].0
  }

  // ---------------------------------------------------------------------------
  // Matching one row against a flat filter
  // ---------------------------------------------------------------------------

  /** Whether a present row value satisfies one filter value (the three `is_matching_*` flags). */
  predicate EntryMatches(v: TagValue, rowValue: string)
  {
    match v
    case Bool(b) => b
    case Str(s) => rowValue == s
    case Lst(values) => rowValue in values
  }

  /** Filter entry `k` matches the row: its key is present and its value accepts the row's value. */
  predicate MatchesAt(row: Row, f: OsmTagsFilter, k: int)
    requires 0 <= k < |f|
  {
    f[k].0 in row && EntryMatches(f[k].1, row[f[k].0])
  }

  /** The feature value built for a matching key: `f"{key}={row[key]}"`. */
  function Format(key: string, rowValue: string): string
  {
    key + "=" + rowValue
  }

  /** `_get_first_matching_osm_tag_value`: the first matching entry, formatted, or None. */
  function FirstMatch(row: Row, f: OsmTagsFilter): Option<string>
  {
    if f == [] then None
    else if f[0].0 in row && EntryMatches(f[0].1, row[f[0].0]) then Some(Format(f[0].0, row[f[0].0]))
    else FirstMatch(row, f[1..])
  }

  /** `k` is the position of the first entry of `f` that matches the row. */
  predicate IsFirstMatchIndex(row: Row, f: OsmTagsFilter, k: int)
  {
    0 <= k < |f| && MatchesAt(row, f, k) && forall m :: 0 <= m < k ==> !MatchesAt(row, f, m)
  }

  /** The rules of each kind of filter value, stated per kind. */
  lemma EntryMatchRules(v: TagValue, rowValue: string)
    ensures v == Bool(true) ==> EntryMatches(v, rowValue)
    ensures v == Bool(false) ==> !EntryMatches(v, rowValue)
    ensures v.Str? ==> (EntryMatches(v, rowValue) <==> rowValue == v.s)
    ensures v.Lst? ==> (EntryMatches(v, rowValue) <==> exists m :: 0 <= m < |v.values| && v.values[m] == rowValue)
    ensures v == Lst([]) ==> !EntryMatches(v, rowValue)
  {
  }

  /**
   * The matcher returns None exactly when no entry matches, and otherwise
   * `key=value` for the first matching entry; entries whose key is absent
   * from the row never match.
   */
  lemma {:induction false} FirstMatchSpec(row: Row, f: OsmTagsFilter)
    ensures FirstMatch(row, f).None? <==> forall k :: 0 <= k < |f| ==> !MatchesAt(row, f, k)
    ensures FirstMatch(row, f).Some? ==>
      exists k :: IsFirstMatchIndex(row, f, k) && FirstMatch(row, f).value == Format(f[k].0, row[f[k].0])
  {
    if f != [] {
      FirstMatchSpec(row, f[1..]);
      if !MatchesAt(row, f, 0) {
        forall k | 1 <= k < |f| ensures MatchesAt(row, f, k) == MatchesAt(row, f[1..], k - 1) { }
        if FirstMatch(row, f).Some? {
          var k :| IsFirstMatchIndex(row, f[1..], k) && FirstMatch(row, f[1..]).value == Format(f[1..][k].0, row[f[1..][k].0]);
          assert MatchesAt(row, f, k + 1);
          assert IsFirstMatchIndex(row, f, k + 1);
        } else {
          forall k | 0 <= k < |f| ensures !MatchesAt(row, f, k) {
            if k > 0 { assert !MatchesAt(row, f[1..], k - 1); }
          }
        }
      } else {
        assert IsFirstMatchIndex(row, f, 0);
      }
    }
  }

  /** The position of the first matching entry determines the result. */
  lemma {:induction false} FirstMatchAt(row: Row, f: OsmTagsFilter, k: int)
    requires IsFirstMatchIndex(row, f, k)
    ensures FirstMatch(row, f) == Some(Format(f[k].0, row[f[k].0]))
  {
    if k > 0 {
      assert IsFirstMatchIndex(row, f[1..], k - 1) by {
        assert MatchesAt(row, f[1..], k - 1) == MatchesAt(row, f, k);
        forall m | 0 <= m < k - 1 ensures !MatchesAt(row, f[1..], m) {
          assert MatchesAt(row, f[1..], m) == MatchesAt(row, f, m + 1);
        }
      }
      assert !MatchesAt(row, f, 0);
      FirstMatchAt(row, f[1..], k - 1);
    }
  }

  /** Matching the concatenation of two filters: the first one's match wins. */
  lemma {:induction false} FirstMatchAppend(row: Row, f: OsmTagsFilter, g: OsmTagsFilter)
    ensures FirstMatch(row, f + g) == if FirstMatch(row, f).Some? then FirstMatch(row, f) else FirstMatch(row, g)
  {
    if f != [] {
      assert (f + g)[0] == f[0] && (f + g)[1..] == f[1..] + g;
      FirstMatchAppend(row, f[1..], g);
    } else {
      assert f + g == g;
    }
  }

  /**
   * The loop of `_get_first_matching_osm_tag_value`: walk the entries in
   * order, skip absent keys, return the first match.
   */
  method GetFirstMatchingTagValue(row: Row, f: OsmTagsFilter) returns (r: Option<string>)
    ensures r == FirstMatch(row, f)
  {
    var i := 0;
    while i < |f|
      invariant 0 <= i <= |f|
      invariant FirstMatch(row, f) == FirstMatch(row, f[i..])
    {
      assert f[i..][1..] == f[i + 1..];
      var (key, value) := f[i];
      if key !in row {
        i := i + 1;
        continue;
      }
      var isMatchingBool := value.Bool? && value.b;
      var isMatchingString := value.Str? && row[key] == value.s;
      var isMatchingList := value.Lst? && row[key] in value.values;
      if isMatchingBool || isMatchingString || isMatchingList {
        return Some(Format(key, row[key]));
      }
      i := i + 1;
    }
    r := None;
  }

  // ---------------------------------------------------------------------------
  // One value per group
  // ---------------------------------------------------------------------------

  /** `_get_osm_filter_groups`: the dict filled group by group with each group's first match. */
  function FilterGroups(row: Row, g: GroupedFilter): map<string, Option<string>>
  {
    if g == [] then map[]
    else FilterGroups(row, g[..|g| - 1])[g[|g| - 1].0 := FirstMatch(row, g[|g| - 1].1)]
  }

  /**
   * The result has exactly the group names as keys, and (the names being
   * dict keys, hence distinct) each name maps to its own filter's first match.
   */
  lemma FilterGroupsSpec(row: Row, g: GroupedFilter)
    ensures FilterGroups(row, g).Keys == set k | 0 <= k < |g| :: g[k].0
    ensures IsDict(g) ==> forall k :: 0 <= k < |g| ==> FilterGroups(row, g)[g[k].0] == FirstMatch(row, g[k].1)
  {
    FilterGroupsKeys(row, g);
    if IsDict(g) {
      FilterGroupsValues(row, g);
    }
  }

  lemma {:induction false} FilterGroupsKeys(row: Row, g: GroupedFilter)
    ensures FilterGroups(row, g).Keys == set k | 0 <= k < |g| :: g[k].0
  {
    if g != [] {
      var p := g[..|g| - 1];
      FilterGroupsKeys(row, p);
      var s := set k | 0 <= k < |g| :: g[k].0;
      var sp := set k | 0 <= k < |p| :: p[k].0;
      assert s == sp + {g[|g| - 1].0} by {
        forall x | x in s ensures x in sp + {g[|g| - 1].0} {
          var k :| 0 <= k < |g| && g[k].0 == x;
          if k < |p| { assert p[k].0 == x; }
        }
      }
    }
  }

  lemma {:induction false} FilterGroupsValues(row: Row, g: GroupedFilter)
    requires IsDict(g)
    ensures forall k :: 0 <= k < |g| ==> g[k].0 in FilterGroups(row, g) && FilterGroups(row, g)[g[k].0] == FirstMatch(row, g[k].1)
  {
    if g != [] {
      var p := g[..|g| - 1];
      assert forall k :: 0 <= k < |p| ==> p[k] == g[k];
      FilterGroupsValues(row, p);
    }
  }

  /** The loop of `_get_osm_filter_groups`. */
  method GetOsmFilterGroups(row: Row, g: GroupedFilter) returns (result: map<string, Option<string>>)
    ensures result == FilterGroups(row, g)
  {
    result := map[];
    var i := 0;
    while i < |g|
      invariant 0 <= i <= |g|
      invariant result == FilterGroups(row, g[..i])
    {
      var (groupName, osmFilter) := g[i];
      var matching := GetFirstMatchingTagValue(row, osmFilter);
      assert g[..i + 1][..i] == g[..i];
      result := result[groupName := matching];
      i := i + 1;
    }
    assert g[..|g|] == g;
  }

  // ---------------------------------------------------------------------------
  // The filter's shape
  // ---------------------------------------------------------------------------

  /**
   * One value of a tags filter as received, before its shape is known: a flat
   * entry, a group, or a value that fits neither type definition.
   */
  datatype RawValue = TagEntry(tag: TagValue) | GroupEntry(filter: OsmTagsFilter) | Invalid

  /** `Union[osm_tags_type, grouped_osm_tags_type]` before the shape is checked. */
  type RawTags = seq<(string, RawValue)>

  /** `is_expected_type(tags, osm_tags_type)`. */
  predicate IsFlat(tags: RawTags)
  {
    forall k :: 0 <= k < |tags| ==> tags[k].1.TagEntry?
  }

  /** `is_expected_type(tags, grouped_osm_tags_type)`. */
  predicate IsGrouped(tags: RawTags)
  {
    forall k :: 0 <= k < |tags| ==> tags[k].1.GroupEntry?
  }

  function AsFlat(tags: RawTags): OsmTagsFilter
    requires IsFlat(tags)
  {
    seq(|tags|, k requires 0 <= k < |tags| => (tags[k].0, tags[k].1.tag))
  }

  function AsGrouped(tags: RawTags): GroupedFilter
    requires IsGrouped(tags)
  {
    seq(|tags|, k requires 0 <= k < |tags| => (tags[k].0, tags[k].1.filter))
  }

  /** A flat filter seen as a raw tags value. */
  function FromFlat(f: OsmTagsFilter): (tags: RawTags)
    ensures IsFlat(tags)
  {
    seq(|f|, k requires 0 <= k < |f| => (f[k].0, TagEntry(f[k].1)))
  }

  /** A grouped filter seen as a raw tags value. */
  function FromGrouped(g: GroupedFilter): (tags: RawTags)
    ensures IsGrouped(tags)
  {
    seq(|g|, k requires 0 <= k < |g| => (g[k].0, GroupEntry(g[k].1)))
  }

  datatype LoaderError = AttributeError

  /**
   * `_merge_osm_tags_filter`: a flat filter is returned as it is, a grouped one
   * is merged by `mergeGrouped` (the library's `merge_grouped_osm_tags_type`,
   * which is not part of this model), anything else is an `AttributeError`.
   * The flat test comes first, so the empty dict counts as flat.
   */
  function MergeTagsFilter(tags: RawTags, mergeGrouped: GroupedFilter -> OsmTagsFilter): (r: Result<OsmTagsFilter, LoaderError>)
    ensures r.Err? <==> !IsFlat(tags) && !IsGrouped(tags)
    ensures IsFlat(tags) ==> r == Ok(AsFlat(tags))
    ensures !IsFlat(tags) && IsGrouped(tags) ==> r == Ok(mergeGrouped(AsGrouped(tags)))
  {
    if IsFlat(tags) then Ok(AsFlat(tags))
    else if IsGrouped(tags) then Ok(mergeGrouped(AsGrouped(tags)))
    else Err(AttributeError)
  }

  /** Merging a flat filter gives it back unchanged, so merging is idempotent. */
  lemma MergeFlatUnchanged(f: OsmTagsFilter, mergeGrouped: GroupedFilter -> OsmTagsFilter)
    ensures MergeTagsFilter(FromFlat(f), mergeGrouped) == Ok(f)
  {
    assert AsFlat(FromFlat(f)) == f;
  }

  /** A non-empty grouped filter is not flat, so it is merged by `mergeGrouped`. */
  lemma MergeGroupedUsesMerge(g: GroupedFilter, mergeGrouped: GroupedFilter -> OsmTagsFilter)
    requires g != []
    ensures MergeTagsFilter(FromGrouped(g), mergeGrouped) == Ok(mergeGrouped(g))
  {
    assert !FromGrouped(g)[0].1.TagEntry?;
    assert AsGrouped(FromGrouped(g)) == g;
  }

  /**
   * The `_parse_*_to_groups` dispatch: grouping applies exactly when the tags
   * fit the grouped type, and then with the tags read as a grouped filter.
   */
  function GroupingFilter(tags: RawTags): (r: Option<GroupedFilter>)
    ensures r.Some? <==> IsGrouped(tags)
    ensures r.Some? ==> Keys(r.value) == Keys(tags)
    ensures r.Some? ==> FromGrouped(r.value) == tags
  {
    if IsGrouped(tags) then Some(AsGrouped(tags)) else None
  }

  /** The empty dict fits both shapes: merged as an empty flat filter, and grouped into no groups. */
  lemma EmptyTagsFitBothShapes(mergeGrouped: GroupedFilter -> OsmTagsFilter)
    ensures MergeTagsFilter([], mergeGrouped) == Ok([])
    ensures GroupingFilter([]) == Some([])
  {
    assert AsFlat([]) == [];
    assert AsGrouped([]) == [];
  }
}
