/**
 * The tables the referendum pipeline works on, one record type per row.
 *
 * Every stage of the pipeline takes in-memory tables and returns a new one,
 * so a table is a `seq` of rows and a stage is a function. Codes are text,
 * never numbers, so that leading zeros survive loading.
 */
module Tables {

  /** A cell that a left join may leave empty (pandas' NaN). */
  datatype Option<T> = None | Some(value: T)

  /** The five vote-count columns that the aggregation sums. */
  datatype Votes = Votes(
    registered: int,
    abstentions: int,
    nullBallots: int,
    choiceA: int,
    choiceB: int)
  {
    /** Column-wise sum of two rows of counts. */
    function Plus(other: Votes): Votes {
      Votes(registered + other.registered,
            abstentions + other.abstentions,
            nullBallots + other.nullBallots,
            choiceA + other.choiceA,
            choiceB + other.choiceB)
    }
  }

  /** The counts of an empty group. */
  const NoVotes := Votes(0, 0, 0, 0, 0)

  lemma PlusNoVotes(v: Votes)
    ensures NoVotes.Plus(v) == v && v.Plus(NoVotes) == v
  {
  }

  lemma PlusCommutes(a: Votes, b: Votes)
    ensures a.Plus(b) == b.Plus(a)
  {
  }

  /** A row of the regions table: columns `code`, `name`. */
  datatype Region = Region(code: string, name: string)

  /** A row of the departments table: columns `code`, `name`, `region_code`. */
  datatype Department = Department(code: string, name: string, regionCode: string)

  /**
   * A row of the area lookup, with the canonical columns
   * `code_reg`, `name_reg`, `code_dep`, `name_dep` in that order.
   * The region cells are empty for a department whose region is unknown.
   */
  datatype AreaRow = AreaRow(
    codeReg: Option<string>,
    nameReg: Option<string>,
    codeDep: string,
    nameDep: string)

  /** A row of the referendum table: `Department code` and the five counts. */
  datatype ReferendumRow = ReferendumRow(departmentCode: string, votes: Votes)

  /** A row of the referendum table with the area-lookup columns attached. */
  datatype JoinedRow = JoinedRow(referendum: ReferendumRow, area: AreaRow)

  /** A row of the result: one region name and the summed counts. */
  datatype RegionResult = RegionResult(nameReg: string, votes: Votes)
}
