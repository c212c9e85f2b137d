/**
 * The column names of the area lookup.
 *
 * Both input tables of `merge_regions_and_departments` have columns named
 * `code` and `name`. The merge keys are differently named (`region_code`
 * on the left, `code` on the right), so pandas suffixes every column name
 * the two tables share: `_dep` on the department side, `_reg` on the
 * region side. The function then renames and projects. This module models
 * that column bookkeeping on lists of column names.
 */
module Schema {
  import opened Tables

  type Column = string

  const DepartmentColumns: seq<Column> := ["code", "name", "region_code"]
  const RegionColumns: seq<Column> := ["code", "name"]

  /** The canonical schema of the area lookup. */
  const AreaLookupColumns: seq<Column> := ["code_reg", "name_reg", "code_dep", "name_dep"]

  /** A column name after a merge: suffixed when the other table has a column of that name. */
  function Suffixed(c: Column, other: seq<Column>, suffix: string): Column {
    if c in other then c + suffix else c
  }

  /** The columns of a merge on differently named keys: left columns, then right columns. */
  function MergedColumns(left: seq<Column>, right: seq<Column>, leftSuffix: string, rightSuffix: string): seq<Column> {
    seq(|left|, i requires 0 <= i < |left| => Suffixed(left[i], right, leftSuffix)) +
    seq(|right|, i requires 0 <= i < |right| => Suffixed(right[i], left, rightSuffix))
  }

  /** `DataFrame.rename(columns=mapping)`: a column named by a key of `mapping` takes its value. */
  function Rename(cols: seq<Column>, mapping: map<Column, Column>): seq<Column> {
    seq(|cols|, i requires 0 <= i < |cols| => if cols[i] in mapping then mapping[cols[i]] else cols[i])
  }

  /** `frame[wanted]`: the wanted columns in the wanted order, or None for pandas' KeyError. */
  function Select(cols: seq<Column>, wanted: seq<Column>): (r: Option<seq<Column>>)
    ensures r.Some? <==> forall w :: w in wanted ==> w in cols
    ensures r.Some? ==> r.value == wanted
  {
    if forall w :: w in wanted ==> w in cols then Some(wanted) else None
  }

  /** The column names produced by `merge_regions_and_departments`, step by step. */
  function AreaLookupSchema(): Option<seq<Column>> {
    var merged := MergedColumns(DepartmentColumns, RegionColumns, "_dep", "_reg");
    var renamed := Rename(merged, map["code_dep" := "code_dep", "name_dep" := "name_dep",
                                      "code_reg" := "code_reg", "name_reg" := "name_reg"]);
    var depFixed := if "code_dep" !in renamed
                    then Rename(renamed, map["code" := "code_dep", "name" := "name_dep"])
                    else renamed;
    var regFixed := if "code_reg" !in depFixed
                    then Rename(depFixed, map["code_reg" := "code_reg"])
                    else depFixed;
    Select(regFixed, AreaLookupColumns)
  }

  /** A rename whose every entry maps a name to itself changes nothing. */
  lemma RenameIdentity(cols: seq<Column>, mapping: map<Column, Column>)
    requires forall k :: k in mapping ==> mapping[k] == k
    ensures Rename(cols, mapping) == cols
  {
  }

  /** A column name the two tables share comes out of the merge under both suffixes. */
  lemma SharedColumnGetsBothSuffixes(left: seq<Column>, right: seq<Column>, leftSuffix: string, rightSuffix: string, c: Column)
    requires c in left && c in right
    ensures c + leftSuffix in MergedColumns(left, right, leftSuffix, rightSuffix)
    ensures c + rightSuffix in MergedColumns(left, right, leftSuffix, rightSuffix)
  {
    var merged := MergedColumns(left, right, leftSuffix, rightSuffix);
    var i :| 0 <= i < |left| && left[i] == c;
    var j :| 0 <= j < |right| && right[j] == c;
    assert merged[i] == c + leftSuffix;
    assert merged[|left| + j] == c + rightSuffix;
  }

  /** The merge of the department and region tables suffixes `code` and `name` on both sides. */
  lemma {:induction false} AreaMergeColumns()
    ensures MergedColumns(DepartmentColumns, RegionColumns, "_dep", "_reg") ==
      ["code_dep", "name_dep", "region_code", "code_reg", "name_reg"]
  {
    var merged := MergedColumns(DepartmentColumns, RegionColumns, "_dep", "_reg");
    assert RegionColumns[0] == "code" && RegionColumns[1] == "name";
    assert DepartmentColumns[0] == "code" && DepartmentColumns[1] == "name";
    assert "region_code" !in RegionColumns by {
      assert "region_code" != "code" && "region_code" != "name";
    }
    assert |merged| == 5;
    assert merged[0] == "code_dep" && merged[1] == "name_dep" && merged[2] == "region_code";
    assert merged[3] == "code_reg" && merged[4] == "name_reg";
  }

  /**
   * The identity rename of the four suffixed names leaves the merged
   * columns as they are, neither guarded fix-up is taken (both `code_dep`
   * and `code_reg` are present), and the projection yields exactly the
   * canonical schema.
   */
  lemma {:induction false} AreaLookupSchemaIsCanonical()
    ensures var merged := MergedColumns(DepartmentColumns, RegionColumns, "_dep", "_reg");
      && Rename(merged, map["code_dep" := "code_dep", "name_dep" := "name_dep",
                            "code_reg" := "code_reg", "name_reg" := "name_reg"]) == merged
      && "code_dep" in merged
      && "code_reg" in merged
    ensures AreaLookupSchema() == Some(AreaLookupColumns)
  {
    AreaMergeColumns();
    var merged := MergedColumns(DepartmentColumns, RegionColumns, "_dep", "_reg");
    var mapping := map["code_dep" := "code_dep", "name_dep" := "name_dep",
                       "code_reg" := "code_reg", "name_reg" := "name_reg"];
    RenameIdentity(merged, mapping);
    assert merged[0] == "code_dep" && merged[1] == "name_dep";
    assert merged[3] == "code_reg" && merged[4] == "name_reg";
    assert forall w :: w in AreaLookupColumns ==> w in merged;
  }

  /**
   * The fix-up guarded by a missing `code_reg` renames `code_reg` to
   * itself, so it could never supply that column: were the guard ever
   * taken, the projection would fail.
   */
  lemma CodeRegFixUpIsNoOp(cols: seq<Column>)
    requires "code_reg" !in cols
    ensures Rename(cols, map["code_reg" := "code_reg"]) == cols
    ensures Select(Rename(cols, map["code_reg" := "code_reg"]), AreaLookupColumns).None?
  {
  }
}
