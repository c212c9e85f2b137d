/**
 * `merge_regions_and_departments`: the department-to-region lookup.
 *
 * The departments table is left-joined to the regions table on
 * `departments.region_code = regions.code`. Every department is kept; one
 * without a matching region gets empty region cells. The result is
 * projected to the canonical columns, which here is the shape of `AreaRow`
 * (the column names themselves are modelled in module `Schema`).
 */
module AreaJoiner {
  import opened Tables

  /** The regions whose code is `code`, in table order: the right-hand matches of one left row. */
  function RegionsWithCode(regions: seq<Region>, code: string): (matches: seq<Region>)
    ensures |matches| <= |regions|
    ensures forall m :: m in matches ==> m in regions && m.code == code
    ensures forall r :: r in regions && r.code == code ==> r in matches
  {
    if regions == [] then []
    else (if regions[0].code == code then [regions[0]] else []) + RegionsWithCode(regions[1..], code)
  }

  /** The output rows of one department: one per matching region, or one with empty region cells. */
  function JoinDepartment(d: Department, regions: seq<Region>): (rows: seq<AreaRow>)
  {
    var matches := RegionsWithCode(regions, d.regionCode);
    if matches == [] then [AreaRow(None, None, d.code, d.name)]
    else seq(|matches|, i requires 0 <= i < |matches| =>
           AreaRow(Some(matches[i].code), Some(matches[i].name), d.code, d.name))
  }

  /** `merge_regions_and_departments(regions, departments)`: departments in order, each followed through to its region. */
  function MergeRegionsAndDepartments(regions: seq<Region>, departments: seq<Department>): (lookup: seq<AreaRow>)
  {
    if departments == [] then []
    else JoinDepartment(departments[0], regions) + MergeRegionsAndDepartments(regions, departments[1..])
  }

  // ---------------------------------------------------------------------------
  // A reference definition: look the region up by code

  predicate UniqueRegionCodes(regions: seq<Region>) {
    forall i, j :: 0 <= i < j < |regions| ==> regions[i].code != regions[j].code
  }

  /** The first region with code `code`, if any. */
  function FindRegion(regions: seq<Region>, code: string): (found: Option<Region>)
    ensures found.Some? ==> found.value in regions && found.value.code == code
    ensures found.None? <==> forall r :: r in regions ==> r.code != code
  {
    if regions == [] then None
    else if regions[0].code == code then Some(regions[0])
    else FindRegion(regions[1..], code)
  }

  /**
   * The lookup row of one department when region codes are unique: its own
   * code and name, and the code and name of its region when there is one.
   */
  function LookupRow(d: Department, regions: seq<Region>): (row: AreaRow)
    ensures row.codeDep == d.code && row.nameDep == d.name
    ensures row.codeReg.Some? <==> exists r :: r in regions && r.code == d.regionCode
    ensures row.codeReg.Some? ==>
      row.codeReg == Some(d.regionCode) && row.nameReg.Some? &&
      Region(d.regionCode, row.nameReg.value) in regions
    ensures row.codeReg.None? ==> row.nameReg.None?
  {
    match FindRegion(regions, d.regionCode)
    case None => AreaRow(None, None, d.code, d.name)
    case Some(r) => AreaRow(Some(r.code), Some(r.name), d.code, d.name)
  }

  lemma {:induction false} UniqueCodesAtMostOneMatch(regions: seq<Region>, code: string)
    requires UniqueRegionCodes(regions)
    ensures RegionsWithCode(regions, code) ==
      match FindRegion(regions, code) case None => [] case Some(r) => [r]
  {
    if regions != [] {
      assert UniqueRegionCodes(regions[1..]) by {
        forall i, j | 0 <= i < j < |regions| - 1
          ensures regions[1..][i].code != regions[1..][j].code
        {
          assert regions[1..][i] == regions[i + 1] && regions[1..][j] == regions[j + 1];
        }
      }
      UniqueCodesAtMostOneMatch(regions[1..], code);
      if regions[0].code == code {
        assert FindRegion(regions[1..], code).None? by {
          forall r | r in regions[1..] ensures r.code != code {
            var k :| 0 <= k < |regions[1..]| && regions[1..][k] == r;
            assert regions[k + 1] == r;
          }
        }
      }
    }
  }

  /**
   * With unique region codes the left join keeps every department exactly
   * once, in order: row `i` of the lookup is department `i`'s lookup row.
   */
  lemma {:induction false} LeftJoinOneRowPerDepartment(regions: seq<Region>, departments: seq<Department>)
    requires UniqueRegionCodes(regions)
    ensures |MergeRegionsAndDepartments(regions, departments)| == |departments|
    ensures forall i :: 0 <= i < |departments| ==>
      MergeRegionsAndDepartments(regions, departments)[i] == LookupRow(departments[i], regions)
  {
    if departments != [] {
      var d := departments[0];
      UniqueCodesAtMostOneMatch(regions, d.regionCode);
      var head := JoinDepartment(d, regions);
      assert head == [LookupRow(d, regions)];
      LeftJoinOneRowPerDepartment(regions, departments[1..]);
      var rest := MergeRegionsAndDepartments(regions, departments[1..]);
      var lookup := MergeRegionsAndDepartments(regions, departments);
      assert lookup == [LookupRow(d, regions)] + rest;
      forall i | 1 <= i < |departments|
        ensures lookup[i] == LookupRow(departments[i], regions)
      {
        assert lookup[i] == rest[i - 1];
        assert departments[1..][i - 1] == departments[i];
      }
    }
  }

  /**
   * Whatever the region table, the left join drops no department: every
   * department has a row carrying its code and name, and the lookup is at
   * least as long as the department table.
   */
  lemma {:induction false} LeftJoinKeepsEveryDepartment(regions: seq<Region>, departments: seq<Department>)
    ensures |MergeRegionsAndDepartments(regions, departments)| >= |departments|
    ensures forall i :: 0 <= i < |departments| ==>
      (exists row :: row in MergeRegionsAndDepartments(regions, departments) &&
         row.codeDep == departments[i].code && row.nameDep == departments[i].name)
  {
    if departments != [] {
      var head := JoinDepartment(departments[0], regions);
      var rest := MergeRegionsAndDepartments(regions, departments[1..]);
      LeftJoinKeepsEveryDepartment(regions, departments[1..]);
      assert head[0] in head + rest;
      forall i | 1 <= i < |departments|
        ensures exists row :: (row in head + rest &&
          row.codeDep == departments[i].code && row.nameDep == departments[i].name)
      {
        assert departments[1..][i - 1] == departments[i];
        var row :| row in rest &&
          row.codeDep == departments[i].code && row.nameDep == departments[i].name;
        assert row in head + rest;
      }
    }
  }

  /**
   * `row` is a lookup row of department `d`: it carries the department's
   * code and name, its region cells are both filled or both empty, and
   * filled ones hold the department's region code and the name of a region
   * with that code.
   */
  predicate RowOfDepartment(row: AreaRow, d: Department, regions: seq<Region>) {
    && row.codeDep == d.code
    && row.nameDep == d.name
    && (row.codeReg.Some? <==> row.nameReg.Some?)
    && (row.codeReg.Some? ==>
          row.codeReg.value == d.regionCode && Region(d.regionCode, row.nameReg.value) in regions)
  }

  /** Whatever the region table, every lookup row is a row of some department. */
  lemma {:induction false} LookupRowsComeFromDepartments(regions: seq<Region>, departments: seq<Department>)
    ensures forall row :: row in MergeRegionsAndDepartments(regions, departments) ==>
      (exists d :: d in departments && RowOfDepartment(row, d, regions))
  {
    if departments != [] {
      var d := departments[0];
      var head := JoinDepartment(d, regions);
      var rest := MergeRegionsAndDepartments(regions, departments[1..]);
      LookupRowsComeFromDepartments(regions, departments[1..]);
      var matches := RegionsWithCode(regions, d.regionCode);
      forall row | row in head + rest
        ensures exists d': Department :: d' in departments && RowOfDepartment(row, d', regions)
      {
        if row in head {
          if matches != [] {
            var k :| 0 <= k < |head| && head[k] == row;
            assert matches[k] in matches;
          }
          assert RowOfDepartment(row, d, regions);
        } else {
          var d': Department :| d' in departments[1..] && RowOfDepartment(row, d', regions);
          assert d' in departments;
        }
      }
    }
  }
}
