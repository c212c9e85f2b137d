/**
 * `compute_referendum_result_by_regions`: group the joined rows by
 * `name_reg` and sum the five vote-count columns.
 *
 * pandas' `groupby` defaults apply: rows whose `name_reg` is missing
 * (NaN) are dropped, an empty-string name is a key like any other, and
 * the groups come out sorted by key. The model is a fold that adds each
 * row to a list of groups kept in ascending key order.
 */
module Aggregator {
  import opened Tables
  import opened Ordering

  /** The result rows are in strictly ascending order of region name (so no name repeats). */
  predicate StrictlySorted(results: seq<RegionResult>) {
    forall i, j :: 0 <= i < j < |results| ==> StrLess(results[i].nameReg, results[j].nameReg)
  }

  /** The region names of the result rows. */
  function NamesOf(results: seq<RegionResult>): set<string> {
    if results == [] then {} else {results[0].nameReg} + NamesOf(results[1..])
  }

  /** The counts of the group named `name`, or none when there is no such group. */
  function VotesOf(results: seq<RegionResult>, name: string): Votes {
    if results == [] then NoVotes
    else if results[0].nameReg == name then results[0].votes
    else VotesOf(results[1..], name)
  }

  /** Column totals over the result rows. */
  function TotalVotes(results: seq<RegionResult>): Votes {
    if results == [] then NoVotes else results[0].votes.Plus(TotalVotes(results[1..]))
  }

  /** The distinct non-missing `name_reg` values of the joined rows. */
  function RegionNames(rows: seq<JoinedRow>): set<string> {
    if rows == [] then {}
    else (match rows[0].area.nameReg case None => {} case Some(n) => {n}) + RegionNames(rows[1..])
  }

  /** Reference sum: the counts of the joined rows whose `name_reg` is `name`. */
  function VotesFor(rows: seq<JoinedRow>, name: string): Votes {
    if rows == [] then NoVotes
    else (if rows[0].area.nameReg == Some(name) then rows[0].referendum.votes else NoVotes)
         .Plus(VotesFor(rows[1..], name))
  }

  /** Column totals over the joined rows that have a region name. */
  function TotalNamedVotes(rows: seq<JoinedRow>): Votes {
    if rows == [] then NoVotes
    else (if rows[0].area.nameReg.Some? then rows[0].referendum.votes else NoVotes)
         .Plus(TotalNamedVotes(rows[1..]))
  }

  /** Add the counts `v` of one row to the group `name`, creating it in its sorted place. */
  function AddToGroup(results: seq<RegionResult>, name: string, v: Votes): seq<RegionResult>
  {
    if results == [] then [RegionResult(name, v)]
    else if results[0].nameReg == name then [RegionResult(name, results[0].votes.Plus(v))] + results[1..]
    else if StrLess(name, results[0].nameReg) then [RegionResult(name, v)] + results
    else [results[0]] + AddToGroup(results[1..], name, v)
  }

  /** `referendum_and_areas.groupby("name_reg", as_index=False)[cols].sum()`. */
  function ComputeReferendumResultByRegions(rows: seq<JoinedRow>): seq<RegionResult> {
    if rows == [] then []
    else
      var rest := ComputeReferendumResultByRegions(rows[1..]);
      match rows[0].area.nameReg
      case None => rest
      case Some(n) => AddToGroup(rest, n, rows[0].referendum.votes)
  }

  // ---------------------------------------------------------------------------
  // Facts about sorted group lists

  lemma {:induction false} SortedTail(results: seq<RegionResult>)
    requires StrictlySorted(results) && results != []
    ensures StrictlySorted(results[1..])
    ensures forall n :: n in NamesOf(results[1..]) ==> StrLess(results[0].nameReg, n)
  {
    var tail := results[1..];
    forall n | n in NamesOf(tail) ensures StrLess(results[0].nameReg, n) {
      var j := NameHasIndex(tail, n);
      assert tail[j] == results[j + 1];
    }
  }

  lemma {:induction false} NameHasIndex(results: seq<RegionResult>, n: string) returns (j: nat)
    requires n in NamesOf(results)
    ensures j < |results| && results[j].nameReg == n
  {
    if results[0].nameReg == n {
      j := 0;
    } else {
      var k := NameHasIndex(results[1..], n);
      j := k + 1;
    }
  }

  lemma {:induction false} IndexHasName(results: seq<RegionResult>, j: nat)
    requires j < |results|
    ensures results[j].nameReg in NamesOf(results)
  {
    if j > 0 {
      IndexHasName(results[1..], j - 1);
    }
  }

  lemma {:induction false} AbsentNameHasNoVotes(results: seq<RegionResult>, name: string)
    requires name !in NamesOf(results)
    ensures VotesOf(results, name) == NoVotes
  {
    if results != [] {
      AbsentNameHasNoVotes(results[1..], name);
    }
  }

  /** Adding a row's counts to a sorted group list keeps it sorted and adds the row's name to the group names. */
  lemma {:induction false} AddToGroupSorted(results: seq<RegionResult>, name: string, v: Votes)
    requires StrictlySorted(results)
    ensures StrictlySorted(AddToGroup(results, name, v))
    ensures NamesOf(AddToGroup(results, name, v)) == NamesOf(results) + {name}
  {
    var r := AddToGroup(results, name, v);
    if results == [] {
      assert r[1..] == [];
    } else {
      var h := results[0];
      var tail := results[1..];
      SortedTail(results);
      if h.nameReg == name {
        assert r[1..] == tail;
      } else if StrLess(name, h.nameReg) {
        assert r[1..] == results;
        forall j | 0 <= j < |results| ensures StrLess(name, results[j].nameReg) {
          if j > 0 {
            IndexHasName(tail, j - 1);
            StrLessTransitive(name, h.nameReg, results[j].nameReg);
          }
        }
      } else {
        StrLessTotal(name, h.nameReg);
        var rest := AddToGroup(tail, name, v);
        AddToGroupSorted(tail, name, v);
        assert r[1..] == rest;
        forall j | 0 <= j < |rest| ensures StrLess(h.nameReg, rest[j].nameReg) {
          IndexHasName(rest, j);
        }
      }
    }
  }

  /** A name smaller than the first of a sorted group list is none of its names. */
  lemma SmallerNameAbsent(results: seq<RegionResult>, name: string)
    requires StrictlySorted(results) && results != [] && StrLess(name, results[0].nameReg)
    ensures name !in NamesOf(results)
  {
    if name in NamesOf(results) {
      var j := NameHasIndex(results, name);
      if j > 0 {
        StrLessTransitive(name, results[0].nameReg, name);
      }
      StrLessIrreflexive(name);
    }
  }

  /** Adding a row's counts to a sorted group list adds them to the group of its name and to no other. */
  lemma {:induction false} AddToGroupVotes(results: seq<RegionResult>, name: string, v: Votes, k: string)
    requires StrictlySorted(results)
    ensures VotesOf(AddToGroup(results, name, v), k) ==
      (if k == name then VotesOf(results, k).Plus(v) else VotesOf(results, k))
  {
    var r := AddToGroup(results, name, v);
    if results != [] {
      var h := results[0];
      var tail := results[1..];
      if h.nameReg == name {
        assert r[1..] == tail;
      } else if StrLess(name, h.nameReg) {
        assert r[1..] == results;
        SmallerNameAbsent(results, name);
        AbsentNameHasNoVotes(results, name);
      } else {
        SortedTail(results);
        AddToGroupVotes(tail, name, v, k);
        assert r[1..] == AddToGroup(tail, name, v);
      }
    }
  }

  /** Adding a row's counts to a group list adds them to the column totals. */
  lemma {:induction false} AddToGroupTotal(results: seq<RegionResult>, name: string, v: Votes)
    ensures TotalVotes(AddToGroup(results, name, v)) == TotalVotes(results).Plus(v)
  {
    var r := AddToGroup(results, name, v);
    if results == [] {
      assert r[1..] == [];
    } else if results[0].nameReg == name {
      assert r[1..] == results[1..];
    } else if StrLess(name, results[0].nameReg) {
      assert r[1..] == results;
    } else {
      AddToGroupTotal(results[1..], name, v);
      assert r[1..] == AddToGroup(results[1..], name, v);
    }
  }

  /**
   * The grouping yields region names in strictly ascending order (one row
   * per name), exactly the present (non-missing) `name_reg` values of its input.
   */
  lemma {:induction false} GroupingSorted(rows: seq<JoinedRow>)
    ensures StrictlySorted(ComputeReferendumResultByRegions(rows))
    ensures NamesOf(ComputeReferendumResultByRegions(rows)) == RegionNames(rows)
  {
    if rows != [] {
      GroupingSorted(rows[1..]);
      match rows[0].area.nameReg
      case None =>
      case Some(n) =>
        AddToGroupSorted(ComputeReferendumResultByRegions(rows[1..]), n, rows[0].referendum.votes);
    }
  }

  /**
   * Every group of the grouping holds the sum of the counts of the input
   * rows with its name; a name no input row carries has zero counts.
   */
  lemma {:induction false} GroupingVotes(rows: seq<JoinedRow>, k: string)
    ensures VotesOf(ComputeReferendumResultByRegions(rows), k) == VotesFor(rows, k)
    ensures k !in RegionNames(rows) ==> VotesFor(rows, k) == NoVotes
  {
    if rows != [] {
      var rest := ComputeReferendumResultByRegions(rows[1..]);
      var v := rows[0].referendum.votes;
      var before := VotesFor(rows[1..], k);
      GroupingVotes(rows[1..], k);
      if rows[0].area.nameReg.Some? {
        var n := rows[0].area.nameReg.value;
        assert ComputeReferendumResultByRegions(rows) == AddToGroup(rest, n, v);
        assert VotesFor(rows, k) == (if n == k then v else NoVotes).Plus(before);
        GroupingSorted(rows[1..]);
        AddToGroupVotes(rest, n, v, k);
        if n == k {
          PlusCommutes(v, before);
        } else {
          PlusNoVotes(before);
        }
      } else {
        assert ComputeReferendumResultByRegions(rows) == rest;
        assert VotesFor(rows, k) == NoVotes.Plus(before);
        PlusNoVotes(before);
      }
    }
    if k !in RegionNames(rows) {
      GroupingSorted(rows);
      AbsentNameHasNoVotes(ComputeReferendumResultByRegions(rows), k);
    }
  }

  lemma {:induction false} SortedVotesAt(results: seq<RegionResult>, j: nat)
    requires StrictlySorted(results) && j < |results|
    ensures VotesOf(results, results[j].nameReg) == results[j].votes
  {
    if j > 0 {
      SortedTail(results);
      IndexHasName(results[1..], j - 1);
      assert results[1..][j - 1] == results[j];
      StrLessIrreflexive(results[0].nameReg);
      SortedVotesAt(results[1..], j - 1);
    }
  }

  lemma {:induction false} SortedNamesCount(results: seq<RegionResult>)
    requires StrictlySorted(results)
    ensures |NamesOf(results)| == |results|
  {
    if results != [] {
      SortedTail(results);
      SortedNamesCount(results[1..]);
      StrLessIrreflexive(results[0].nameReg);
    }
  }

  /**
   * `compute_referendum_result_by_regions` yields one row per distinct
   * present `name_reg`, in ascending order of name, each holding the
   * column sums over the input rows with that name; rows without a region
   * name contribute nothing.
   */
  lemma ResultByRegions(rows: seq<JoinedRow>)
    ensures StrictlySorted(ComputeReferendumResultByRegions(rows))
    ensures |ComputeReferendumResultByRegions(rows)| == |RegionNames(rows)|
    ensures forall j :: 0 <= j < |ComputeReferendumResultByRegions(rows)| ==>
      ComputeReferendumResultByRegions(rows)[j].nameReg in RegionNames(rows) &&
      ComputeReferendumResultByRegions(rows)[j].votes ==
        VotesFor(rows, ComputeReferendumResultByRegions(rows)[j].nameReg)
    ensures forall n :: n in RegionNames(rows) ==>
      exists j :: 0 <= j < |ComputeReferendumResultByRegions(rows)| &&
        ComputeReferendumResultByRegions(rows)[j].nameReg == n
  {
    var out := ComputeReferendumResultByRegions(rows);
    GroupingSorted(rows);
    SortedNamesCount(out);
    forall j | 0 <= j < |out|
      ensures out[j].nameReg in RegionNames(rows) && out[j].votes == VotesFor(rows, out[j].nameReg)
    {
      IndexHasName(out, j);
      SortedVotesAt(out, j);
      GroupingVotes(rows, out[j].nameReg);
    }
    forall n | n in RegionNames(rows) ensures exists j :: 0 <= j < |out| && out[j].nameReg == n {
      var j := NameHasIndex(out, n);
    }
  }

  /**
   * The grouping preserves column totals: summed over the result rows, each
   * count equals its sum over the input rows that have a region name.
   */
  lemma {:induction false} SumPreserved(rows: seq<JoinedRow>)
    ensures TotalVotes(ComputeReferendumResultByRegions(rows)) == TotalNamedVotes(rows)
  {
    if rows != [] {
      var rest := ComputeReferendumResultByRegions(rows[1..]);
      var v := rows[0].referendum.votes;
      var before := TotalNamedVotes(rows[1..]);
      SumPreserved(rows[1..]);
      if rows[0].area.nameReg.Some? {
        AddToGroupTotal(rest, rows[0].area.nameReg.value, v);
        PlusCommutes(v, before);
      } else {
        PlusNoVotes(before);
      }
    }
  }
}
