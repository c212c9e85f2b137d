/**
 * The three stages composed, as the script's driver runs them: the area
 * lookup, the referendum join, then the aggregation by region.
 */
module Pipeline {
  import opened Tables
  import opened Padding
  import opened AreaJoiner
  import opened ResultJoiner
  import opened Aggregator

  function ReferendumResultByRegions(
    referendum: seq<ReferendumRow>, regions: seq<Region>, departments: seq<Department>): seq<RegionResult>
  {
    var areas := MergeRegionsAndDepartments(regions, departments);
    ComputeReferendumResultByRegions(MergeReferendumAndAreas(referendum, areas))
  }

  predicate UniquePaddedDepartmentCodes(departments: seq<Department>) {
    forall i, j :: 0 <= i < j < |departments| ==> Pad(departments[i].code) != Pad(departments[j].code)
  }

  /**
   * With unique region codes and department codes that stay distinct once
   * padded, the area lookup has one row per padded department code, so the
   * referendum join is the row-by-row lookup and never grows the table.
   */
  lemma LookupHasUniquePaddedCodes(regions: seq<Region>, departments: seq<Department>)
    requires UniqueRegionCodes(regions) && UniquePaddedDepartmentCodes(departments)
    ensures UniquePaddedCodes(MergeRegionsAndDepartments(regions, departments))
  {
    LeftJoinOneRowPerDepartment(regions, departments);
  }

  /**
   * A referendum row whose department is not in the area lookup leaves the
   * result by region unchanged, wherever it stands in the referendum table.
   */
  lemma UnknownDepartmentLeavesResultUnchanged(
    before: seq<ReferendumRow>, r: ReferendumRow, after: seq<ReferendumRow>,
    regions: seq<Region>, departments: seq<Department>)
    requires !Resolvable(r, MergeRegionsAndDepartments(regions, departments))
    ensures ReferendumResultByRegions(before + [r] + after, regions, departments) ==
      ReferendumResultByRegions(before + after, regions, departments)
  {
    UnresolvableRowLeavesJoinUnchanged(before, r, after, MergeRegionsAndDepartments(regions, departments));
  }

  const AraName := "Auvergne-Rhône-Alpes"
  const Ara := Region("84", AraName)
  const Ain := Department("01", "Ain", "84")
  const AinLookupRow := AreaRow(Some("84"), Some(AraName), "01", "Ain")

  /** The lookup built from region "84" and department "01" is one filled row. */
  lemma AinLookup()
    ensures MergeRegionsAndDepartments([Ara], [Ain]) == [AinLookupRow]
  {
  }

  /** Department code "1" resolves to the lookup row of department "01". */
  lemma AinResolves(v: Votes)
    ensures MergeReferendumAndAreas([ReferendumRow("1", v)], [AinLookupRow]) ==
      [JoinedRow(ReferendumRow("01", v), AinLookupRow)]
  {
    PadSingleCharacter('1');
    assert Pad("01") == "01";
    JoinIsRowByRowLookup([ReferendumRow("1", v)], [AinLookupRow]);
    assert FindArea([AinLookupRow], "1") == Some(AinLookupRow);
    assert [ReferendumRow("1", v)][1..] == [];
  }

  /** A single joined row with a region name makes a single group. */
  lemma SingleRowGroup(r: ReferendumRow, a: AreaRow)
    requires a.nameReg.Some?
    ensures ComputeReferendumResultByRegions([JoinedRow(r, a)]) == [RegionResult(a.nameReg.value, r.votes)]
  {
  }

  /**
   * One referendum row for department "1", department "01" (Ain) in region
   * "84": the result is one row for that region with the same five counts.
   */
  lemma EndToEndExample()
    ensures ReferendumResultByRegions(
              [ReferendumRow("1", Votes(100, 10, 2, 50, 38))], [Ara], [Ain])
            == [RegionResult(AraName, Votes(100, 10, 2, 50, 38))]
  {
    var v := Votes(100, 10, 2, 50, 38);
    AinLookup();
    AinResolves(v);
    SingleRowGroup(ReferendumRow("01", v), AinLookupRow);
  }

  /** A referendum row whose department ("99") is unknown contributes nothing to the result. */
  lemma UnknownDepartmentExcluded()
    ensures ReferendumResultByRegions(
              [ReferendumRow("1", Votes(100, 10, 2, 50, 38)), ReferendumRow("99", Votes(7, 1, 1, 3, 2))],
              [Ara], [Ain])
            == [RegionResult(AraName, Votes(100, 10, 2, 50, 38))]
  {
    var v, w := Votes(100, 10, 2, 50, 38), Votes(7, 1, 1, 3, 2);
    var referendum := [ReferendumRow("1", v), ReferendumRow("99", w)];
    AinLookup();
    PadSingleCharacter('1');
    assert Pad("01") == "01" && Pad("99") == "99";
    JoinIsRowByRowLookup(referendum, [AinLookupRow]);
    assert FindArea([AinLookupRow], "1") == Some(AinLookupRow);
    assert FindArea([AinLookupRow], "99") == None;
    assert referendum[1..] == [ReferendumRow("99", w)];
    assert referendum[1..][1..] == [];
    assert ResolvedRows(referendum[1..], [AinLookupRow]) == [];
    assert MergeReferendumAndAreas(referendum, [AinLookupRow]) ==
      [JoinedRow(ReferendumRow("01", v), AinLookupRow)];
    SingleRowGroup(ReferendumRow("01", v), AinLookupRow);
  }
}
