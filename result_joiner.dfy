/**
 * `merge_referendum_and_areas`: attach the area lookup to referendum rows.
 *
 * Both the referendum's `Department code` and the lookup's `code_dep` are
 * padded with the same `Pad` (on copies: the inputs are values and are not
 * changed), then the two tables are inner-joined on equality of the padded
 * codes. A referendum row whose department cannot be resolved is dropped.
 *
 * Row order: left rows in order, each followed by its matches in the
 * lookup's order.
 */
module ResultJoiner {
  import opened Tables
  import opened Padding

  function PadReferendumRow(r: ReferendumRow): ReferendumRow {
    r.(departmentCode := Pad(r.departmentCode))
  }

  function PadAreaRow(a: AreaRow): AreaRow {
    a.(codeDep := Pad(a.codeDep))
  }

  /** The referendum copy with its `Department code` column padded. */
  function PadReferendumCodes(referendum: seq<ReferendumRow>): seq<ReferendumRow> {
    seq(|referendum|, i requires 0 <= i < |referendum| => PadReferendumRow(referendum[i]))
  }

  /** The lookup copy with its `code_dep` column padded. */
  function PadAreaCodes(areas: seq<AreaRow>): seq<AreaRow> {
    seq(|areas|, k requires 0 <= k < |areas| => PadAreaRow(areas[k]))
  }

  /** The lookup rows whose `code_dep` is `code`, in table order. */
  function AreasWithCode(areas: seq<AreaRow>, code: string): (matches: seq<AreaRow>)
    ensures |matches| <= |areas|
    ensures forall a :: a in matches <==> a in areas && a.codeDep == code
  {
    if areas == [] then []
    else (if areas[0].codeDep == code then [areas[0]] else []) + AreasWithCode(areas[1..], code)
  }

  /** The joined rows of one referendum row: one per lookup row with the same code. */
  function JoinRow(r: ReferendumRow, areas: seq<AreaRow>): seq<JoinedRow> {
    var matches := AreasWithCode(areas, r.departmentCode);
    seq(|matches|, k requires 0 <= k < |matches| => JoinedRow(r, matches[k]))
  }

  /** `left.merge(right, left_on="Department code", right_on="code_dep", how="inner")`. */
  function InnerJoin(left: seq<ReferendumRow>, areas: seq<AreaRow>): seq<JoinedRow> {
    if left == [] then []
    else JoinRow(left[0], areas) + InnerJoin(left[1..], areas)
  }

  /** `merge_referendum_and_areas(referendum, regions_and_departments)`. */
  function MergeReferendumAndAreas(referendum: seq<ReferendumRow>, areas: seq<AreaRow>): seq<JoinedRow> {
    InnerJoin(PadReferendumCodes(referendum), PadAreaCodes(areas))
  }

  // ---------------------------------------------------------------------------
  // The join as a relation

  /** A referendum row and a lookup row agree on the department once both codes are padded. */
  predicate SameDepartment(r: ReferendumRow, a: AreaRow) {
    Pad(r.departmentCode) == Pad(a.codeDep)
  }

  /** The referendum row's department is in the lookup. */
  predicate Resolvable(r: ReferendumRow, areas: seq<AreaRow>) {
    exists a :: a in areas && SameDepartment(r, a)
  }

  lemma JoinRowMembership(r: ReferendumRow, areas: seq<AreaRow>, row: JoinedRow)
    ensures row in JoinRow(r, areas) <==>
      exists k :: 0 <= k < |areas| && r.departmentCode == areas[k].codeDep && row == JoinedRow(r, areas[k])
  {
    var matches := AreasWithCode(areas, r.departmentCode);
    if row in JoinRow(r, areas) {
      var j :| 0 <= j < |matches| && JoinRow(r, areas)[j] == row;
      assert matches[j] in matches;
    }
    if exists k :: 0 <= k < |areas| && r.departmentCode == areas[k].codeDep && row == JoinedRow(r, areas[k]) {
      var k :| 0 <= k < |areas| && r.departmentCode == areas[k].codeDep && row == JoinedRow(r, areas[k]);
      assert areas[k] in matches;
      var j :| 0 <= j < |matches| && matches[j] == areas[k];
      assert JoinRow(r, areas)[j] == row;
    }
  }

  /** The inner join holds exactly the pairs of rows with equal codes. */
  lemma {:induction false} InnerJoinMembership(left: seq<ReferendumRow>, areas: seq<AreaRow>, row: JoinedRow)
    ensures row in InnerJoin(left, areas) <==>
      exists i, k :: 0 <= i < |left| && 0 <= k < |areas| &&
        left[i].departmentCode == areas[k].codeDep && row == JoinedRow(left[i], areas[k])
  {
    if left != [] {
      JoinRowMembership(left[0], areas, row);
      InnerJoinMembership(left[1..], areas, row);
      if exists i, k :: 0 <= i < |left| && 0 <= k < |areas| &&
          left[i].departmentCode == areas[k].codeDep && row == JoinedRow(left[i], areas[k]) {
        var i, k :| 0 <= i < |left| && 0 <= k < |areas| &&
          left[i].departmentCode == areas[k].codeDep && row == JoinedRow(left[i], areas[k]);
        if i > 0 {
          assert left[1..][i - 1] == left[i];
        }
      }
      if row in InnerJoin(left[1..], areas) {
        var i, k :| 0 <= i < |left[1..]| && 0 <= k < |areas| &&
          left[1..][i].departmentCode == areas[k].codeDep && row == JoinedRow(left[1..][i], areas[k]);
        assert left[i + 1] == left[1..][i];
      }
    }
  }

  /**
   * The output of `merge_referendum_and_areas` holds exactly the padded
   * copies of the referendum and lookup rows that agree on the padded
   * department code.
   */
  lemma MergeReferendumMembership(referendum: seq<ReferendumRow>, areas: seq<AreaRow>, row: JoinedRow)
    ensures row in MergeReferendumAndAreas(referendum, areas) <==>
      exists i, k :: 0 <= i < |referendum| && 0 <= k < |areas| &&
        SameDepartment(referendum[i], areas[k]) &&
        row == JoinedRow(PadReferendumRow(referendum[i]), PadAreaRow(areas[k]))
  {
    var left, right := PadReferendumCodes(referendum), PadAreaCodes(areas);
    InnerJoinMembership(left, right, row);
    if row in InnerJoin(left, right) {
      var i, k :| 0 <= i < |left| && 0 <= k < |right| &&
        left[i].departmentCode == right[k].codeDep && row == JoinedRow(left[i], right[k]);
      assert SameDepartment(referendum[i], areas[k]);
    }
    if exists i, k :: 0 <= i < |referendum| && 0 <= k < |areas| &&
        SameDepartment(referendum[i], areas[k]) &&
        row == JoinedRow(PadReferendumRow(referendum[i]), PadAreaRow(areas[k])) {
      var i, k :| 0 <= i < |referendum| && 0 <= k < |areas| &&
        SameDepartment(referendum[i], areas[k]) &&
        row == JoinedRow(PadReferendumRow(referendum[i]), PadAreaRow(areas[k]));
      assert left[i] == PadReferendumRow(referendum[i]) && right[k] == PadAreaRow(areas[k]);
    }
  }

  /** In every output row the padded `Department code` equals the padded `code_dep`. */
  lemma JoinedKeysAgree(referendum: seq<ReferendumRow>, areas: seq<AreaRow>)
    ensures forall row :: row in MergeReferendumAndAreas(referendum, areas) ==>
      row.referendum.departmentCode == row.area.codeDep && IsPadded(row.area.codeDep)
  {
    forall row | row in MergeReferendumAndAreas(referendum, areas)
      ensures row.referendum.departmentCode == row.area.codeDep && IsPadded(row.area.codeDep)
    {
      MergeReferendumMembership(referendum, areas, row);
      var i, k :| 0 <= i < |referendum| && 0 <= k < |areas| &&
        SameDepartment(referendum[i], areas[k]) &&
        row == JoinedRow(PadReferendumRow(referendum[i]), PadAreaRow(areas[k]));
      PadIdempotent(areas[k].codeDep);
    }
  }

  /** A referendum row reaches the output exactly when its department can be resolved. */
  lemma RowKeptIffResolvable(referendum: seq<ReferendumRow>, areas: seq<AreaRow>, i: nat)
    requires i < |referendum|
    ensures (exists row :: row in MergeReferendumAndAreas(referendum, areas) &&
               row.referendum == PadReferendumRow(referendum[i]))
            <==> Resolvable(referendum[i], areas)
  {
    var out := MergeReferendumAndAreas(referendum, areas);
    if Resolvable(referendum[i], areas) {
      var a :| a in areas && SameDepartment(referendum[i], a);
      var k :| 0 <= k < |areas| && areas[k] == a;
      var row := JoinedRow(PadReferendumRow(referendum[i]), PadAreaRow(areas[k]));
      MergeReferendumMembership(referendum, areas, row);
      assert row in out;
    }
    if exists row :: row in out && row.referendum == PadReferendumRow(referendum[i]) {
      var row :| row in out && row.referendum == PadReferendumRow(referendum[i]);
      MergeReferendumMembership(referendum, areas, row);
      var i', k :| 0 <= i' < |referendum| && 0 <= k < |areas| &&
        SameDepartment(referendum[i'], areas[k]) &&
        row == JoinedRow(PadReferendumRow(referendum[i']), PadAreaRow(areas[k]));
      assert Pad(referendum[i].departmentCode) == Pad(referendum[i'].departmentCode);
      assert areas[k] in areas;
    }
  }

  // ---------------------------------------------------------------------------
  // Unresolvable referendum rows do not matter

  /** The referendum rows whose department resolves, in order. */
  function KeepResolvable(referendum: seq<ReferendumRow>, areas: seq<AreaRow>): seq<ReferendumRow> {
    if referendum == [] then []
    else (if Resolvable(referendum[0], areas) then [referendum[0]] else [])
         + KeepResolvable(referendum[1..], areas)
  }

  lemma {:induction false} KeepResolvableConcat(a: seq<ReferendumRow>, b: seq<ReferendumRow>, areas: seq<AreaRow>)
    ensures KeepResolvable(a + b, areas) == KeepResolvable(a, areas) + KeepResolvable(b, areas)
  {
    if a != [] {
      assert (a + b)[0] == a[0];
      assert (a + b)[1..] == a[1..] + b;
      KeepResolvableConcat(a[1..], b, areas);
    } else {
      assert a + b == b;
    }
  }

  lemma MergeUnfold(referendum: seq<ReferendumRow>, areas: seq<AreaRow>)
    requires referendum != []
    ensures MergeReferendumAndAreas(referendum, areas) ==
      JoinRow(PadReferendumRow(referendum[0]), PadAreaCodes(areas)) +
      MergeReferendumAndAreas(referendum[1..], areas)
  {
    assert PadReferendumCodes(referendum)[1..] == PadReferendumCodes(referendum[1..]);
  }

  /** A referendum row whose department does not resolve is joined to nothing. */
  lemma UnresolvableJoinsNothing(r: ReferendumRow, areas: seq<AreaRow>)
    requires !Resolvable(r, areas)
    ensures JoinRow(PadReferendumRow(r), PadAreaCodes(areas)) == []
  {
    var matches := AreasWithCode(PadAreaCodes(areas), Pad(r.departmentCode));
    if matches != [] {
      assert matches[0] in PadAreaCodes(areas);
      var k :| 0 <= k < |areas| && PadAreaCodes(areas)[k] == matches[0];
      assert areas[k] in areas && SameDepartment(r, areas[k]);
    }
  }

  /**
   * The join of the whole referendum equals the join of its resolvable
   * rows alone: dropping the unresolvable rows beforehand changes nothing.
   */
  lemma {:induction false} UnresolvableRowsDoNotMatter(referendum: seq<ReferendumRow>, areas: seq<AreaRow>)
    ensures MergeReferendumAndAreas(referendum, areas) ==
      MergeReferendumAndAreas(KeepResolvable(referendum, areas), areas)
  {
    if referendum != [] {
      var r := referendum[0];
      var tail := referendum[1..];
      MergeUnfold(referendum, areas);
      UnresolvableRowsDoNotMatter(tail, areas);
      if Resolvable(r, areas) {
        var kept := KeepResolvable(referendum, areas);
        assert kept == [r] + KeepResolvable(tail, areas);
        MergeUnfold(kept, areas);
        assert kept[1..] == KeepResolvable(tail, areas);
      } else {
        UnresolvableJoinsNothing(r, areas);
        assert KeepResolvable(referendum, areas) == [] + KeepResolvable(tail, areas);
        assert MergeReferendumAndAreas(referendum, areas) == [] + MergeReferendumAndAreas(tail, areas);
        assert KeepResolvable(referendum, areas) == KeepResolvable(tail, areas);
        assert MergeReferendumAndAreas(referendum, areas) == MergeReferendumAndAreas(tail, areas);
      }
    }
  }

  /** Inserting a referendum row whose department does not resolve leaves the join unchanged. */
  lemma UnresolvableRowLeavesJoinUnchanged(
    before: seq<ReferendumRow>, r: ReferendumRow, after: seq<ReferendumRow>, areas: seq<AreaRow>)
    requires !Resolvable(r, areas)
    ensures MergeReferendumAndAreas(before + [r] + after, areas) ==
      MergeReferendumAndAreas(before + after, areas)
  {
    KeepResolvableConcat(before + [r], after, areas);
    KeepResolvableConcat(before, [r], areas);
    KeepResolvableConcat(before, after, areas);
    assert [r][0] == r && [r][1..] == [];
    assert KeepResolvable([r], areas) == [] + KeepResolvable([], areas);
    assert KeepResolvable(before + [r] + after, areas) == KeepResolvable(before + after, areas);
    UnresolvableRowsDoNotMatter(before + [r] + after, areas);
    UnresolvableRowsDoNotMatter(before + after, areas);
  }

  // ---------------------------------------------------------------------------
  // With one lookup row per department: a row-by-row reference definition

  predicate UniquePaddedCodes(areas: seq<AreaRow>) {
    forall k, l :: 0 <= k < l < |areas| ==> Pad(areas[k].codeDep) != Pad(areas[l].codeDep)
  }

  /** The first lookup row whose padded `code_dep` equals the padded `code`. */
  function FindArea(areas: seq<AreaRow>, code: string): (found: Option<AreaRow>)
    ensures found.Some? ==> found.value in areas && Pad(found.value.codeDep) == Pad(code)
    ensures found.None? <==> forall a :: a in areas ==> Pad(a.codeDep) != Pad(code)
  {
    if areas == [] then None
    else if Pad(areas[0].codeDep) == Pad(code) then Some(areas[0])
    else FindArea(areas[1..], code)
  }

  /** Each referendum row in order, looked up on its own, kept only when found. */
  function ResolvedRows(referendum: seq<ReferendumRow>, areas: seq<AreaRow>): seq<JoinedRow> {
    if referendum == [] then []
    else
      (match FindArea(areas, referendum[0].departmentCode)
       case None => []
       case Some(a) => [JoinedRow(PadReferendumRow(referendum[0]), PadAreaRow(a))])
      + ResolvedRows(referendum[1..], areas)
  }

  lemma {:induction false} UniqueCodesOneMatch(areas: seq<AreaRow>, code: string)
    requires UniquePaddedCodes(areas)
    ensures AreasWithCode(PadAreaCodes(areas), Pad(code)) ==
      match FindArea(areas, code) case None => [] case Some(a) => [PadAreaRow(a)]
  {
    if areas != [] {
      var tail := areas[1..];
      assert PadAreaCodes(areas)[1..] == PadAreaCodes(tail);
      assert UniquePaddedCodes(tail) by {
        forall k, l | 0 <= k < l < |tail| ensures Pad(tail[k].codeDep) != Pad(tail[l].codeDep) {
          assert tail[k] == areas[k + 1] && tail[l] == areas[l + 1];
        }
      }
      UniqueCodesOneMatch(tail, code);
      PadIdempotent(code);
      PadIdempotent(areas[0].codeDep);
      if Pad(areas[0].codeDep) == Pad(code) {
        assert FindArea(tail, code).None? by {
          forall a | a in tail ensures Pad(a.codeDep) != Pad(code) {
            var l :| 0 <= l < |tail| && tail[l] == a;
            assert areas[l + 1] == a;
          }
        }
      }
    }
  }

  /**
   * With one lookup row per padded department code, the join is the
   * row-by-row lookup: referendum rows in order, each with its one match,
   * unresolvable ones dropped.
   */
  lemma {:induction false} JoinIsRowByRowLookup(referendum: seq<ReferendumRow>, areas: seq<AreaRow>)
    requires UniquePaddedCodes(areas)
    ensures MergeReferendumAndAreas(referendum, areas) == ResolvedRows(referendum, areas)
  {
    if referendum != [] {
      var r := referendum[0];
      var left := PadReferendumCodes(referendum);
      assert left[0] == PadReferendumRow(r);
      assert left[1..] == PadReferendumCodes(referendum[1..]);
      UniqueCodesOneMatch(areas, r.departmentCode);
      JoinIsRowByRowLookup(referendum[1..], areas);
    }
  }

  lemma {:induction false} ResolvedRowsCount(referendum: seq<ReferendumRow>, areas: seq<AreaRow>)
    ensures |ResolvedRows(referendum, areas)| <= |referendum|
    ensures |ResolvedRows(referendum, areas)| == |referendum| <==>
      forall i :: 0 <= i < |referendum| ==> Resolvable(referendum[i], areas)
  {
    if referendum != [] {
      var tail := referendum[1..];
      ResolvedRowsCount(tail, areas);
      assert forall i :: 1 <= i < |referendum| ==> referendum[i] == tail[i - 1];
      var found := FindArea(areas, referendum[0].departmentCode);
      assert found.Some? <==> Resolvable(referendum[0], areas);
      if forall i :: 0 <= i < |referendum| ==> Resolvable(referendum[i], areas) {
        assert forall i :: 0 <= i < |tail| ==> Resolvable(tail[i], areas) by {
          forall i | 0 <= i < |tail| ensures Resolvable(tail[i], areas) {
            assert tail[i] == referendum[i + 1];
          }
        }
      }
    }
  }

  /**
   * With one lookup row per padded department code, the join has at most as
   * many rows as the referendum, and exactly as many when every referendum
   * row's department resolves.
   */
  lemma JoinCardinality(referendum: seq<ReferendumRow>, areas: seq<AreaRow>)
    requires UniquePaddedCodes(areas)
    ensures |MergeReferendumAndAreas(referendum, areas)| <= |referendum|
    ensures |MergeReferendumAndAreas(referendum, areas)| == |referendum| <==>
      forall i :: 0 <= i < |referendum| ==> Resolvable(referendum[i], areas)
  {
    JoinIsRowByRowLookup(referendum, areas);
    ResolvedRowsCount(referendum, areas);
  }
}
