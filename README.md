# srai: OSM tag grouping and the GeoVex hexagonal dataset, in Dafny

This project models two pieces of the `srai` spatial-representation library
and proves properties of them.

**OSM tag-group matching** (`srai/loaders/osm_loaders/_base.py`). An OSM
tags filter maps a tag key to `True`/`False`, one accepted value, or a list
of accepted values. A grouped filter maps group names to such filters.
Loaders use the filters in three ways:

- they merge a filter of either shape into one flat filter;
- in pandas, they give every feature row one column per group, holding the
  first matching `key=value` or NA;
- they build a DuckDB query that computes the same columns with one
  `CASE WHEN … END` per group.

The model is split into modules:

- `OsmFilters` holds the filter types, the row matcher, the per-row group
  values and the shape dispatch.
- `OsmSql` builds the query text. It also gives the WHEN branches the
  meaning a searched CASE has in SQL. It proves that a group's CASE column
  computes exactly what the row matcher computes whenever the group has a
  branch. A group without branches gets a CASE with no WHEN, which SQL
  rejects (see "## Findings").
- `OsmFrame` models the in-place grouping of a GeoDataFrame as a class
  whose `columns` and `rows` its methods update.
- `Strings` models Python's `str.join` and `sorted` on strings.
- `Wrappers` holds `Option` and `Result`.

**The GeoVex `HexagonalDataset`** (as pinned down by
`tests/embedders/geovex/test_dataset.py`).

- Construction rejects a ring distance below 2.
- The lookup table keeps the data's cells whose whole radius-`r`
  neighbourhood has data, in data order.
- Item `k` is a zero-filled `(2r+2) x (2r+2)` grid. The neighbour at local
  offset `(i, j)` from the `k`-th centre writes its data slot at `[i + r][r - j]`.

`HexGeometry` models the H3 grid on one planar patch of local IJ
coordinates. There the distance of an offset `(i, j)` is
`max(|i|, |j|, |i - j|)`. `HexDataset` models the dataset. The patch is
built by an imperative method over a Dafny `array2`, proved entry by entry
against the function `PatchAt`.

Two choices in the dataset part follow the test:

- **Slots.** The test's data column is `range(len(regions))`, so a cell's
  slot is its row position.
- **Orientation.** The test compares `ijs.transpose(1, 0, -1)` with the
  picture. In the picture, offset `(i, j)` is at row `r - j`, column
  `i + r`; the tensor is its transpose, so patch index `[x][y]` holds
  offset `(x - r, r - y)`.

## Model

| member | source | states |
|---|---|---|
| OsmFilters.EntryMatchRules | srai/loaders/osm_loaders/_base.py:253-259 | per kind of value: `True` accepts any present value, `False` none, a string exactly itself, a list exactly its members, and the empty list nothing |
| OsmFilters.FirstMatchSpec | srai/loaders/osm_loaders/_base.py:232-264 | the matcher returns None exactly when no entry matches (absent or NA keys never match); otherwise there is a first matching entry and the result is `key=value` for it |
| OsmFilters.FirstMatchAt | srai/loaders/osm_loaders/_base.py:249-262 | if entry k is the first matching entry, the result is `key=value` built from entry k |
| OsmFilters.FirstMatchAppend | srai/loaders/osm_loaders/_base.py:249-264 | for a filter followed by more entries, the earlier filter's match wins and the later entries count only when it has none |
| OsmFilters.GetFirstMatchingTagValue | srai/loaders/osm_loaders/_base.py:249-264 | the loop with its `continue` for absent keys and the three `is_matching_*` flags returns exactly the first match |
| OsmFilters.FilterGroupsSpec | srai/loaders/osm_loaders/_base.py:209-230 | the result has exactly the group names as keys; with distinct names, each name maps to its own filter's first match |
| OsmFilters.GetOsmFilterGroups | srai/loaders/osm_loaders/_base.py:222-230 | the loop that fills the dict group by group gives the map of `FilterGroups` |
| OsmFilters.MergeTagsFilter | srai/loaders/osm_loaders/_base.py:66-74 | `AttributeError` exactly when the tags fit neither type; a flat filter is returned as it is; a grouped filter that is not also flat is passed to the merge function |
| OsmFilters.MergeFlatUnchanged | srai/loaders/osm_loaders/_base.py:66-67 | merging a flat filter gives it back, so merging a merged filter changes nothing |
| OsmFilters.MergeGroupedUsesMerge | srai/loaders/osm_loaders/_base.py:68-69 | a non-empty grouped filter goes through the merge of grouped filters |
| OsmFilters.GroupingFilter | srai/loaders/osm_loaders/_base.py:91-95 | grouping applies exactly when the tags fit the grouped type (the same test as lines 166-168), with the same keys in the same order, each with its own filter |
| OsmFilters.EmptyTagsFitBothShapes | srai/loaders/osm_loaders/_base.py:66-69 | the empty dict passes the flat test first (merged to the empty filter) and is also grouped (into no groups) |
| OsmSql.BranchesAppend | srai/loaders/osm_loaders/_base.py:124-141 | the WHEN branches of two filters in sequence are the first's branches followed by the second's |
| OsmSql.BranchIffMatchable | srai/loaders/osm_loaders/_base.py:124-141 | an entry gets a WHEN branch exactly when some row value could match it, and the branch's SQL condition holds for a column value exactly when the row matcher of lines 253-259 accepts that value (NULL never) |
| OsmSql.WhenListAgreesWithRowMatcher | srai/loaders/osm_loaders/_base.py:124-141 | on every row, the WHEN branches built for a filter select the same `key=value` (or none) as the row matcher of lines 249-264 |
| OsmSql.CaseAgreesWithRowMatcher | srai/loaders/osm_loaders/_base.py:121-151 | on every row, the CASE column of a group with at least one branch evaluates to the value the row matcher of lines 232-264 gives; a group without branches gets a CASE the database rejects, although the row matcher gives NA on every row |
| OsmSql.EmptyGroupCaseRejected | srai/loaders/osm_loaders/_base.py:123-151 | the code as written, on the group `{"amenity": False}`: no branch, the clause `CASE  END AS "g"`, rejected by the database, while the row matcher gives NA |
| OsmSql.IntendedColumnAgrees | srai/loaders/osm_loaders/_base.py:191-207 | the intended column (the CASE when there are branches, NULL otherwise) is always accepted and equals the row matcher's value on every row, as the GeoDataFrame path gives |
| OsmSql.BranchesAreActiveEntries | srai/loaders/osm_loaders/_base.py:124-141 | the branches are exactly the branches of the filter's entries, never more than the entries; a filter none of whose entries can match gives no branch |
| OsmSql.CaseClauses | srai/loaders/osm_loaders/_base.py:120-143 | one CASE clause per group |
| OsmSql.LookupFinds | srai/loaders/osm_loaders/_base.py:122 | `group_filter[name]` for a dict's k-th key is the k-th filter |
| OsmSql.CaseClausesPerGroup | srai/loaders/osm_loaders/_base.py:121-143 | one CASE column per group: names strictly increasing in Python string order; every group name once; the same names as the filter; each column built from its own group's filter |
| OsmSql.CaseWhenClauses | srai/loaders/osm_loaders/_base.py:123-141 | the inner loop yields the WHEN texts of the filter's branches, in filter order |
| OsmSql.BuildCaseClause | srai/loaders/osm_loaders/_base.py:142-143 | the clause for one group is its CASE text |
| OsmSql.BuildCaseClauses | srai/loaders/osm_loaders/_base.py:120-143 | the outer loop yields the CASE clauses in sorted group order |
| OsmSql.GroupFeaturesRelation | srai/loaders/osm_loaders/_base.py:116-147 | the relation name is `grouped_` followed by the token, and the query is the rendered grouping query |
| Strings.LexLeTotal | srai/loaders/osm_loaders/_base.py:121 | any two strings are ordered one way or the other under Python's `<=` |
| Strings.LexLeTransitive | srai/loaders/osm_loaders/_base.py:121 | Python's `<=` on strings is transitive |
| Strings.LexLeAntisymmetric | srai/loaders/osm_loaders/_base.py:121 | strings each `<=` the other are equal |
| Strings.InsertCorrect | srai/loaders/osm_loaders/_base.py:121 | inserting into a sorted list keeps it sorted and adds exactly the new element |
| Strings.SortCorrect | srai/loaders/osm_loaders/_base.py:121 | `sorted` returns a sorted permutation of its input |
| Strings.SortDistinctStrict | srai/loaders/osm_loaders/_base.py:121 | sorting distinct names gives a strictly increasing list |
| OsmFrame.Projection | srai/loaders/osm_loaders/_base.py:205 | the projection has the geometry column followed by the group names, and one row per feature holding no cell outside those columns |
| OsmFrame.WriteAllSpec | srai/loaders/osm_loaders/_base.py:195-196 | after writing the group cells, a cell not written keeps its value, and a written cell holds its group's value (NA for None) |
| OsmFrame.GroupedRowSpec | srai/loaders/osm_loaders/_base.py:191-196 | a grouped row keeps every non-group cell and holds, for each group, that group's first match on the row |
| OsmFrame.NewColumnsSpec | srai/loaders/osm_loaders/_base.py:196-203 | the columns that writing appends are new, appended once each, drawn from the names, and afterwards every name is a column |
| OsmFrame.NoNewColumns | srai/loaders/osm_loaders/_base.py:198-203 | when every group name is already a column, no column is added |
| OsmFrame.ProjectionCells | srai/loaders/osm_loaders/_base.py:205-207 | each row of the result holds each group's first match on that row's original tags, and (geometry not being a group name) its geometry |
| OsmFrame.FeaturesFrame.SetCell | srai/loaders/osm_loaders/_base.py:196 | `.loc[i, name] = value` appends the column when it is new and changes only that cell of row i |
| OsmFrame.FeaturesFrame.WriteCells | srai/loaders/osm_loaders/_base.py:195-196 | writing one row's group values in order gives the row `WriteAll` describes and appends the new columns |
| OsmFrame.FeaturesFrame.GroupRow | srai/loaders/osm_loaders/_base.py:194-196 | one iteration of the row loop replaces row i by its grouped row |
| OsmFrame.FeaturesFrame.GroupAllRows | srai/loaders/osm_loaders/_base.py:191-196 | the row loop groups every row, and the columns grow once, by the new group names |
| OsmFrame.FeaturesFrame.AddMissingColumns | srai/loaders/osm_loaders/_base.py:198-203 | missing group columns are appended and no row changes |
| OsmFrame.FeaturesFrame.GroupFeatures | srai/loaders/osm_loaders/_base.py:170-207 | the frame ends with every group column and every row grouped; the result is the projection, or `KeyError` when there is no geometry column |
| HexGeometry.TranslateLocal | tests/embedders/geovex/test_dataset.py:84 | the local IJ index of a cell, applied back to the origin, gives the cell, and conversely |
| HexGeometry.InDisk | tests/embedders/geovex/test_dataset.py:25-27 | the neighbours of a cell up to distance k, with the centre, are exactly the cells within distance k |
| HexGeometry.DirectionsAreNeighbours | tests/embedders/geovex/test_dataset.py:94-96 | the offsets at distance 1 are exactly the six directions (1,0), (1,1), (0,1), (-1,0), (-1,-1), (0,-1), which the expected picture places next to the centre |
| HexGeometry.NormTriangle | tests/embedders/geovex/test_dataset.py:61-65 | the norm of a sum of offsets is at most the sum of norms |
| HexGeometry.DistanceTriangle | tests/embedders/geovex/test_dataset.py:61-65 | grid distance obeys the triangle inequality |
| HexGeometry.AwayFrom | tests/embedders/geovex/test_dataset.py:61-65 | from any offset there is a step of norm r that adds r to the distance |
| HexGeometry.DiskInsideDisk | tests/embedders/geovex/test_dataset.py:61-65 | a radius-r disk lies inside the radius-D disk around the root exactly when its centre is within D - r of the root |
| HexGeometry.NormTwoOffsetsExact | tests/embedders/geovex/test_dataset.py:91-100 | the offsets of norm at most 2 are exactly the 19 filled entries of the expected picture |
| HexGeometry.DiskTwoHasNineteenCells | tests/embedders/geovex/test_dataset.py:91-100 | a radius-2 disk holds 19 cells |
| HexDataset.NewDataset | tests/embedders/geovex/test_dataset.py:34-51 | construction fails with `ValueError` exactly for a ring distance below 2 (so -1, 0, 1 fail and 2, 3 succeed), whatever the data; otherwise the dataset keeps the data and the distance and builds its lookup table |
| HexDataset.Slot | tests/embedders/geovex/test_dataset.py:28-30 | a cell's slot is the position of its first row in the data |
| HexDataset.ValidCentresSpec | tests/embedders/geovex/test_dataset.py:54-65 | the filter keeps exactly the listed cells whose disk has data, no more of them than listed, each once and in the listed order |
| HexDataset.LookupTableSpec | tests/embedders/geovex/test_dataset.py:54-65 | the lookup table holds exactly the valid centres, without repeats, in data order |
| HexDataset.ValidCentreOfDisk | tests/embedders/geovex/test_dataset.py:61-65 | over data that is a radius-D disk, a cell is a valid centre exactly when it is within D - r of the root |
| HexDataset.LookupTableOfDisk | tests/embedders/geovex/test_dataset.py:54-65 | over data that is a radius-D disk, the lookup table is the radius-(D - r) disk and has its size |
| HexDataset.DatasetLengthScenario | tests/embedders/geovex/test_dataset.py:54-65 | for data holding the root and its neighbours up to 25, ring distances 2 to 4 are accepted and `len(dataset)` is the size of the radius-(25 - r) disk |
| HexDataset.FirstCentreIsFirstCell | tests/embedders/geovex/test_dataset.py:78-82 | when the first data cell (the root) is a valid centre, the first item is centred on it, slot 0 |
| HexDataset.PositionRoundTrip | tests/embedders/geovex/test_dataset.py:86 | every disk cell's position lies in the (2r+1)-square and maps back to that cell |
| HexDataset.PatchRoundTrip | tests/embedders/geovex/test_dataset.py:80-84 | a position within the ring distance holds the slot of exactly the cell at offset (x - r, r - y), and every other position holds 0 |
| HexDataset.PatchCentre | tests/embedders/geovex/test_dataset.py:95 | the centre's own slot sits at [r][r] |
| HexDataset.PatchPadding | tests/embedders/geovex/test_dataset.py:90 | the last row and the last column of every patch hold 0 |
| HexDataset.ExpectedPictureRow | tests/embedders/geovex/test_dataset.py:91-100 | each entry of the expected picture is the offset of its position within distance 2, and (0, 0) elsewhere |
| HexDataset.PatchPictureRadiusTwo | tests/embedders/geovex/test_dataset.py:68-101 | with ring distance 2, resolving each slot of the root's patch to its cell and then to its local IJ offset gives the expected picture, transposed; unfilled positions resolve to the root |
| HexDataset.RadiusTwoPatchHasNineteenNeighbours | tests/embedders/geovex/test_dataset.py:91-100 | a radius-2 patch has 19 neighbour positions, all inside the 5 x 5 square |
| HexDataset.DatasetItemScenario | tests/embedders/geovex/test_dataset.py:68-101 | with the test's data (the root, then its neighbours up to 25) and ring distance 2, the dataset's first item is a 6 x 6 array whose entries, resolved to cells and then to local offsets from the root, give the expected picture transposed |
| HexDataset.BuildPatch | tests/embedders/geovex/test_dataset.py:78-86 | the zero-filled (2r+2)-square patch, filled cell by cell over the disk, equals `PatchAt` at every entry |
| HexDataset.GetItem | tests/embedders/geovex/test_dataset.py:78 | `dataset[k]` is `IndexError` exactly outside 0 <= k < len, and otherwise the patch of the k-th valid centre |

## Left out

- The DuckDB run of the query (`features_relation.query(...).execute()`): the model stops at the query text. It gives each CASE column its SQL meaning, including the rejection of a CASE without WHEN branches. A filter key that is not a column of the relation is an SQL error in DuckDB; the model reads it as NULL.
- `secrets.token_hex`: the random relation token is a parameter of `GroupFeaturesRelation`.
- `srai.db.escape`, `merge_grouped_osm_tags_type` and `is_expected_type` are not part of this model. The first two are function parameters. `is_expected_type` is modelled as the shape of a `RawTags` value: each entry is a flat value, a group, or neither.
- OsmSql.CaseAgreesWithRowMatcher: assumes tag keys hold no `"` or `'`. The keys are written unescaped into column names and string literals (lines 127-128, 133-134, 139-140), so such a key would give text that does not parse as the branch the model evaluates. It also assumes that `escape(value)` between single quotes is an SQL string literal for `value` itself: the branch text writes the escaped value (lines 131 and 137), while the modelled condition compares the column with the original value.
- OsmSql.CaseAgreesWithRowMatcher: row values are strings; pandas values of other types (numbers, lists) compared with `==` and `in` are not modelled.
- pandas mechanics: a row is a map from tag to value, and missing keys and NA are the same. `replace(None, NaN)` is therefore the identity, and `pd.Series()` adds an all-NA column. Rows are addressed by position, so duplicate index labels are not modelled.
- `tqdm` progress output and the abstract `load` method do nothing the model needs.
- `srai/embedders/geovex/dataset.py` is not part of this model. `HexagonalDataset` is modelled from what its tests pin down. Where the tests leave something open (negative indices, cells without data inside a patch), the model picks the reading stated in the member's contract. `GetItem` gives `IndexError` for any index outside `0 <= k < len`.
- H3 itself: cells are planar IJ coordinates on one patch. Pentagons, icosahedron faces and the string form of cell ids are not modelled, and `get_local_ij_index` is the difference of coordinates.
- torch tensors are `array2<int>`. Batching, `detach().numpy()` and the pytest mock of the neighbourhood are not modelled.
- Iterating the dataset is modelled as `GetItem` at 0, 1, …; there is no iterator object.

## Findings

| source | as written | input that shows it | evidently intended | confidence | as-written member | corrected member |
|---|---|---|---|---|---|---|
| srai/loaders/osm_loaders/_base.py:123-151 | a group with no `True`, string or non-empty-list entry leaves `case_when_clauses` empty, so line 142 writes `CASE  END AS "g"`, which SQL rejects when lines 149-151 run the query | `group_filter = {"g": {"amenity": False}}` | the group's column is all NULL, as the GeoDataFrame path (lines 191-207) makes it | medium, not executed | OsmSql.EmptyGroupCaseRejected | OsmSql.IntendedColumnAgrees |

The query builders (`CaseWhenClauses`, `BuildCaseClause`, `BuildCaseClauses`, `GroupFeaturesRelation`) keep modelling the text as written. `IntendedColumn` is the corrected column definition.
