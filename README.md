# Referendum results by region: a verified model of the pandas pipeline

This project models in Dafny the relational core of `pandas_questions.py`. That core is the
three stages that turn a referendum table, a regions table and a departments table into vote
totals per region:

1. `merge_regions_and_departments` builds the area lookup. It left-joins the departments
   table to the regions table on `departments.region_code = regions.code`, resolves the
   `code`/`name` column collision with the suffixes `_dep`/`_reg`, and projects the result to
   `[code_reg, name_reg, code_dep, name_dep]`.
2. `merge_referendum_and_areas` pads the department codes on both sides with `str.zfill(2)`,
   so `"1"` becomes `"01"`. It then inner-joins referendum rows to the lookup on the padded
   codes. Rows whose department cannot be resolved are dropped.
3. `compute_referendum_result_by_regions` groups the joined rows by `name_reg` and sums
   `Registered`, `Abstentions`, `Null`, `Choice A` and `Choice B`. The pandas defaults apply:
   rows whose region name is missing (NaN) are dropped, an empty-string name is a key like
   any other, and the groups come out sorted by name.

Tables are sequences of records (`tables.dfy`). Each stage is a function over them, and the
properties are lemmas:

- `padding.dfy`: Python's `zfill`, including its rule that a leading `+`/`-` stays in front
  of the zeros. Department codes never carry a sign, so modelling the rule changes nothing
  for them. `Pad` is `zfill(2)`.
- `schema.dfy`: the column names through the merge, the renames and the projection.
- `area_joiner.dfy`, `result_joiner.dfy`, `aggregator.dfy`: the three stages.
- `ordering.dfy`: Python's `<` on `str`, the order in which the groups come out.
- `pipeline.dfy`: the stages composed as the script's driver runs them, with a worked
  example and the general fact that a referendum row of an unknown department changes
  nothing.

Every stage returns a new table; the second stage pads copies of both inputs
(`pandas_questions.py`, lines 56-70).
In the model, tables are values, so no stage can change its inputs.

Three behaviours of the code are worth stating plainly:

- The area lookup is a left join, so every department is kept even when no region code
  matches it; its region cells are then empty.
- A department whose region code matches several regions gets one lookup row per match, so
  the lookup has one row per department only when region codes are unique.
- `groupby` sorts its groups by key (`sort=True` is the pandas default), so the result comes
  out in ascending order of region name.

## Model

| member | source | states |
|---|---|---|
| `Padding.ZFill` | pandas_questions.py:60-70 | The result has length max(width, \|s\|). A string already that long is returned unchanged. A shorter one ends with the original text (after its sign, if any) and is otherwise all zeros. |
| `Padding.Pad` | pandas_questions.py:63 | Padding to width 2 gives a code of length max(2, \|s\|). |
| `Padding.ZFillIdempotent` | pandas_questions.py:60-70 | `zfill` at any width is idempotent. |
| `Padding.PadIdempotent` | pandas_questions.py:60-70 | `Pad(Pad(s)) == Pad(s)`, and `Pad(s)` is always in padded form (length at least 2). |
| `Padding.PadFixedPoints` | pandas_questions.py:60-70 | `Pad(s) == s` exactly when `s` has length 2 or more (both directions). |
| `Padding.PadSingleCharacter` | pandas_questions.py:60-64 | An unsigned one-character code `c` becomes `"0" + c`, so `"1"` becomes `"01"`. |
| `Padding.PadEmpty` | pandas_questions.py:60-64 | The empty code becomes `"00"`. |
| `Schema.RenameIdentity` | pandas_questions.py:39-44 | A rename whose every entry maps a name to itself leaves the columns unchanged. |
| `Schema.SharedColumnGetsBothSuffixes` | pandas_questions.py:31-37 | A column name both tables share comes out of the merge twice, once with each side's suffix. |
| `Schema.AreaMergeColumns` | pandas_questions.py:31-37 | Merging the department and region tables gives the columns `code_dep, name_dep, region_code, code_reg, name_reg`. |
| `Schema.AreaLookupSchemaIsCanonical` | pandas_questions.py:39-52 | The identity rename of the four suffixed names changes nothing on the merged columns. Both `code_dep` and `code_reg` are present after it, so neither guarded fix-up is taken. The lookup has exactly the columns `[code_reg, name_reg, code_dep, name_dep]`, in that order. |
| `Schema.CodeRegFixUpIsNoOp` | pandas_questions.py:49-50 | The fix-up for a missing `code_reg` renames `code_reg` to itself. If it were ever reached, the projection would still fail. |
| `AreaJoiner.RegionsWithCode` | pandas_questions.py:31-37 | The join partners of one department are exactly the regions whose code is its `region_code`. |
| `AreaJoiner.LookupRow` | pandas_questions.py:31-37 | A department's lookup row carries its code and name. Its region cells are filled exactly when some region has its `region_code`. When filled, `code_reg` is that `region_code` and `name_reg` is the name of that region. When not filled, both cells are empty. |
| `AreaJoiner.UniqueCodesAtMostOneMatch` | pandas_questions.py:31-37 | With unique region codes, a department matches at most one region: the one found by code. |
| `AreaJoiner.LeftJoinOneRowPerDepartment` | pandas_questions.py:31-52 | With unique region codes, the lookup has one row per department, in department order. Row `i` is department `i`'s lookup row. |
| `AreaJoiner.LeftJoinKeepsEveryDepartment` | pandas_questions.py:31-37 | For any region table, every department appears with its code and name. The lookup is at least as long as the department table. |
| `AreaJoiner.LookupRowsComeFromDepartments` | pandas_questions.py:31-52 | For any region table, every lookup row belongs to a department. Its region cells are both filled or both empty. When filled, they hold that department's region code and the name of a region with that code. |
| `ResultJoiner.AreasWithCode` | pandas_questions.py:72-77 | The join partners of a code are exactly the lookup rows whose `code_dep` equals it. |
| `ResultJoiner.JoinRowMembership` | pandas_questions.py:72-77 | The rows joined to one referendum row are exactly its pairings with the lookup rows of the same code. |
| `ResultJoiner.InnerJoinMembership` | pandas_questions.py:72-77 | The inner join holds exactly the pairs of rows whose codes are equal. |
| `ResultJoiner.MergeReferendumMembership` | pandas_questions.py:55-79 | The output holds exactly the padded copies of the referendum and lookup rows whose padded department codes are equal. |
| `ResultJoiner.JoinedKeysAgree` | pandas_questions.py:60-77 | In every output row, `Department code` equals `code_dep`, and both are in padded form. |
| `ResultJoiner.RowKeptIffResolvable` | pandas_questions.py:72-77 | A referendum row reaches the output exactly when its padded code equals the padded `code_dep` of some lookup row (both directions). |
| `ResultJoiner.UniqueCodesOneMatch` | pandas_questions.py:66-77 | When padded `code_dep` values are unique, a code has at most one join partner: the lookup row found for it. |
| `ResultJoiner.JoinIsRowByRowLookup` | pandas_questions.py:55-79 | When padded `code_dep` values are unique, the join equals a row-by-row lookup. Referendum rows keep their order, each gets its one match, and unresolvable rows are dropped. |
| `ResultJoiner.UnresolvableJoinsNothing` | pandas_questions.py:72-77 | A referendum row whose padded code matches no padded `code_dep` is joined to no lookup row. |
| `ResultJoiner.UnresolvableRowsDoNotMatter` | pandas_questions.py:55-79 | Joining the whole referendum gives the same table as joining only its resolvable rows, in order. |
| `ResultJoiner.UnresolvableRowLeavesJoinUnchanged` | pandas_questions.py:55-79 | Inserting an unresolvable referendum row anywhere in the referendum leaves the join unchanged. |
| `ResultJoiner.ResolvedRowsCount` | pandas_questions.py:72-77 | The row-by-row lookup has at most as many rows as the referendum. It has exactly as many when every referendum row resolves (both directions). |
| `ResultJoiner.JoinCardinality` | pandas_questions.py:72-77 | When padded `code_dep` values are unique, the join has at most as many rows as the referendum. It has exactly as many when every department code resolves (both directions). |
| `Ordering.StrLessIrreflexive` | pandas_questions.py:87-88 | The order used to sort group keys is irreflexive. |
| `Ordering.StrLessTransitive` | pandas_questions.py:87-88 | The order used to sort group keys is transitive. |
| `Ordering.StrLessTotal` | pandas_questions.py:87-88 | Any two different keys are ordered one way or the other. |
| `Ordering.StrLessAsymmetric` | pandas_questions.py:87-88 | If `a` sorts before `b`, then `b` does not sort before `a`, and `a != b`. |
| `Aggregator.AddToGroupSorted` | pandas_questions.py:85-89 | Adding a row to a sorted list of groups keeps it strictly sorted. The row's region name is added to the set of group names. |
| `Aggregator.AddToGroupVotes` | pandas_questions.py:85-89 | Adding a row's counts to a sorted list of groups adds them to the group with its name and to no other group. |
| `Aggregator.AddToGroupTotal` | pandas_questions.py:85-89 | Adding a row's counts to a list of groups adds them to the column totals. |
| `Aggregator.GroupingSorted` | pandas_questions.py:85-89 | The groups are strictly ascending by name. Their names are exactly the present (non-missing) `name_reg` values of the input. |
| `Aggregator.GroupingVotes` | pandas_questions.py:85-89 | For every name, the counts the result holds under that name equal the sum over the input rows with that `name_reg`; for a name with no rows, both are zero. |
| `Aggregator.ResultByRegions` | pandas_questions.py:82-91 | There is one result row per distinct present `name_reg`, in ascending order. Every input name appears. Each row holds the column sums over the input rows with its name. |
| `Aggregator.SumPreserved` | pandas_questions.py:82-91 | Each column's total over the result equals its total over the input rows that have a region name. |
| `Pipeline.LookupHasUniquePaddedCodes` | pandas_questions.py:30-77 | Suppose region codes are unique and department codes stay distinct once padded. Then the lookup built by the first stage has unique padded `code_dep`, which is what the cardinality results of the second stage need. |
| `Pipeline.UnknownDepartmentLeavesResultUnchanged` | pandas_questions.py:116-124 | For any tables, inserting anywhere in the referendum a row whose department is not in the area lookup leaves the result by region unchanged. |
| `Pipeline.AinLookup` | pandas_questions.py:30-52 | Region `84` and department `01` (Ain) give one filled lookup row. |
| `Pipeline.AinResolves` | pandas_questions.py:55-79 | Department code `"1"` joins to the lookup row of department `"01"`. |
| `Pipeline.SingleRowGroup` | pandas_questions.py:82-91 | A single joined row with a region name makes a single group holding its counts. |
| `Pipeline.EndToEndExample` | pandas_questions.py:116-124 | The referendum row `{"1", 100, 10, 2, 50, 38}`, department `{"01", "Ain", "84"}` and region `{"84", "Auvergne-Rhône-Alpes"}` give exactly one result row, for Auvergne-Rhône-Alpes, with the same five counts. |
| `Pipeline.UnknownDepartmentExcluded` | pandas_questions.py:116-124 | Adding a referendum row for the unknown department `"99"` leaves that result unchanged. |

## Left out

- `load_data` (CSV reading and dtype coercion) is not modelled. The tables are taken as already-parsed inputs, with codes as text.
- `plot_referendum_map` is not modelled. It reads GeoJSON, calls the plotting library, and computes a floating-point ratio that is NaN when `Choice A + Choice B = 0`.
- The printing and `plt.show()` of the `__main__` driver are not modelled. Only its composition of the three stages is modelled (`Pipeline.ReferendumResultByRegions`).
- Missing codes are not modelled: `astype(str)` turns a missing code into `"nan"`, and pandas `merge` matches NaN keys to NaN keys. Join keys are non-null strings here. Empty cells (`Option`) occur only in the region columns that the left join leaves unmatched.
- Referendum columns other than `Department code` and the five counts are left out. pandas carries them through the join unchanged, and the aggregation selects only the five counts.
- Vote counts are unbounded integers. pandas' 64-bit integer overflow is not modelled.
- pandas versions before 2.2 emit inner-join rows grouped by key rather than in left-row order; the model uses left-row order. The aggregation result does not depend on this: `Aggregator.ResultByRegions` fixes it from the set of names and the per-name sums alone.
- `AreaJoiner.LeftJoinOneRowPerDepartment`: the exact one-row-per-department correspondence is stated only for unique region codes. For any region table, `AreaJoiner.LeftJoinKeepsEveryDepartment` and `AreaJoiner.LookupRowsComeFromDepartments` state the weaker facts.
- `ResultJoiner.JoinCardinality`: the row-count bounds are stated only for a lookup with unique padded `code_dep`. Otherwise a referendum row is repeated once per matching lookup row, as `ResultJoiner.MergeReferendumMembership` describes.
