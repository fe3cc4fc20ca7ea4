/** The rows of results.csv and the sums `loaded` and `mouseOverFunc` build
    from them with `filter` and `reduce` (script.js:48-64, 152-157, 165-171,
    187-200). Rows are taken as already parsed: the `+` coercions of the
    source are the identity on them. The hover formats `cand_tot_votes`
    without `+` (script.js:204, 207); taking it as a number assumes the CSV
    field is a canonical numeral. */
module Results {

  /** One row of results.csv: one candidate's count in one precinct. */
  datatype Row = Row(precinctCode: nat, candName: string, candTotVotes: nat)

  datatype Option<T> = None | Some(value: T)

  const REPUBLICAN: string := "STEPHANIE BICE"
  const DEMOCRAT: string := "KENDRA S. HORN"

  /** `rows.filter(keep)`: the rows that satisfy `keep`, in their order. */
  function Filter(rows: seq<Row>, keep: Row -> bool): (kept: seq<Row>)
    ensures |kept| <= |rows|
  {
    if rows == [] then []
    else if keep(rows[0]) then [rows[0]] + Filter(rows[1..], keep)
    else Filter(rows[1..], keep)
  }

  /** `(o) => o.cand_name === name` */
  function IsCandidate(name: string): Row -> bool
  {
    (r: Row) => r.candName == name
  }

  /** `(o) => +o.precinct_code === code` */
  function InPrecinct(code: nat): Row -> bool
  {
    (r: Row) => r.precinctCode == code
  }

  /** `rows.reduce((tot, num) => (tot += +num.cand_tot_votes), acc)`: a left
      fold from `acc`. */
  function Reduce(rows: seq<Row>, acc: nat): nat
  {
    if rows == [] then acc else Reduce(rows[1..], acc + rows[0].candTotVotes)
  }

  /** Reference definition of the sum of the counts. */
  function Sum(rows: seq<Row>): nat
  {
    if rows == [] then 0 else rows[0].candTotVotes + Sum(rows[1..])
  }

  /** Reference definition of one candidate's total: every row adds its count
      when it names the candidate and nothing otherwise. */
  function VotesFor(rows: seq<Row>, name: string): nat
  {
    if rows == [] then 0
    else (if rows[0].candName == name then rows[0].candTotVotes else 0) + VotesFor(rows[1..], name)
  }

  /** `totalresult` in `loaded` (script.js:55-57). */
  function GrandTotal(rows: seq<Row>): nat
  {
    Reduce(rows, 0)
  }

  /** `republicanResults` / `democratResults` in `loaded` (script.js:49-54). */
  function CandidateTotal(rows: seq<Row>, name: string): nat
  {
    Reduce(Filter(rows, IsCandidate(name)), 0)
  }

  /** `precinct` in `getColorElection`, `getOpacity` and `mouseOverFunc`. */
  function PrecinctRows(rows: seq<Row>, code: nat): seq<Row>
  {
    Filter(rows, InPrecinct(code))
  }

  /** `totalresult` in `getColorElection`, `getOpacity` and `mouseOverFunc`
      (script.js:152-157, 165-171, 188-195). */
  function PrecinctTotal(rows: seq<Row>, code: nat): nat
  {
    Reduce(PrecinctRows(rows, code), 0)
  }

  /** `rows.filter((o) => o.cand_name === name)[0] || 0` followed by
      `.cand_tot_votes` (script.js:197-200): the count on the earliest row for
      `name`, or None where JavaScript yields `undefined`. */
  function FirstCount(rows: seq<Row>, name: string): Option<nat>
  {
    var matching := Filter(rows, IsCandidate(name));
    if matching == [] then None else Some(matching[0].candTotVotes)
  }

  /** The largest count among the rows, or 0 for none; built up in row order
      with the strict comparison of the `highNum` loop. */
  function MaxVotes(rows: seq<Row>): (m: nat)
    ensures forall i :: 0 <= i < |rows| ==> rows[i].candTotVotes <= m
    ensures m == 0 || exists i :: 0 <= i < |rows| && rows[i].candTotVotes == m
  {
    if rows == [] then 0
    else
      var m := MaxVotes(rows[..|rows| - 1]);
      if rows[|rows| - 1].candTotVotes > m then rows[|rows| - 1].candTotVotes else m
  }

  /** The `highNum` loop of `loaded` (script.js:59-64). */
  method HighestVoteCount(results: seq<Row>) returns (highNum: nat)
    ensures highNum == MaxVotes(results)
    ensures forall i :: 0 <= i < |results| ==> results[i].candTotVotes <= highNum
    ensures highNum == 0 || exists i :: 0 <= i < |results| && results[i].candTotVotes == highNum
  {
    highNum := 0;
    for i := 0 to |results|
      invariant highNum == MaxVotes(results[..i])
    {
      assert results[..i + 1][..i] == results[..i];
      if results[i].candTotVotes > highNum {
        highNum := results[i].candTotVotes;
      }
    }
    assert results[..|results|] == results;
  }

  // ---------------------------------------------------------------------
  // Filtering

  /** `filter` keeps exactly the rows that satisfy the predicate. */
  lemma {:induction false} FilterKeepsExactly(rows: seq<Row>, keep: Row -> bool)
    ensures forall i :: 0 <= i < |Filter(rows, keep)| ==> keep(Filter(rows, keep)[i]) && Filter(rows, keep)[i] in rows
    ensures forall i :: 0 <= i < |rows| && keep(rows[i]) ==> rows[i] in Filter(rows, keep)
  {
    if rows != [] {
      FilterKeepsExactly(rows[1..], keep);
      forall i | 0 <= i < |rows| && keep(rows[i]) ensures rows[i] in Filter(rows, keep) {
        if i > 0 { assert rows[i] == rows[1..][i - 1]; }
      }
    }
  }

  /** The count `FirstCount` reports is missing exactly when no row names the
      candidate, and otherwise comes from the earliest row that does. */
  lemma FirstCountIsEarliestRow(rows: seq<Row>, name: string)
    ensures FirstCount(rows, name).None? <==> forall i :: 0 <= i < |rows| ==> rows[i].candName != name
    ensures FirstCount(rows, name).Some? ==>
              exists i :: 0 <= i < |rows| && rows[i].candName == name
                          && rows[i].candTotVotes == FirstCount(rows, name).value
                          && forall j :: 0 <= j < i ==> rows[j].candName != name
  {
    FilterHead(rows, IsCandidate(name));
  }

  /** The first kept row is the earliest row of `rows` that `keep` accepts. */
  lemma {:induction false} FilterHead(rows: seq<Row>, keep: Row -> bool)
    ensures Filter(rows, keep) == [] <==> forall i :: 0 <= i < |rows| ==> !keep(rows[i])
    ensures Filter(rows, keep) != [] ==>
              exists i :: 0 <= i < |rows| && rows[i] == Filter(rows, keep)[0] && keep(rows[i])
                          && forall j :: 0 <= j < i ==> !keep(rows[j])
  {
    if rows != [] && !keep(rows[0]) {
      FilterHead(rows[1..], keep);
      if Filter(rows, keep) != [] {
        var i :| 0 <= i < |rows[1..]| && rows[1..][i] == Filter(rows[1..], keep)[0] && keep(rows[1..][i])
                 && forall j :: 0 <= j < i ==> !keep(rows[1..][j]);
        assert rows[i + 1] == Filter(rows, keep)[0];
        forall j | 0 <= j < i + 1 ensures !keep(rows[j]) {
          if j > 0 { assert rows[j] == rows[1..][j - 1]; }
        }
      } else {
        forall i | 0 <= i < |rows| ensures !keep(rows[i]) {
          if i > 0 { assert rows[i] == rows[1..][i - 1]; }
        }
      }
    }
  }

  // ---------------------------------------------------------------------
  // Sums

  /** The left fold from `acc` is `acc` plus the sum of the counts. */
  lemma {:induction false} ReduceIsSum(rows: seq<Row>, acc: nat)
    ensures Reduce(rows, acc) == acc + Sum(rows)
  {
    if rows != [] {
      ReduceIsSum(rows[1..], acc + rows[0].candTotVotes);
    }
  }

  lemma {:induction false} SumAppend(a: seq<Row>, b: seq<Row>)
    ensures Sum(a + b) == Sum(a) + Sum(b)
  {
    if a == [] {
      assert a + b == b;
    } else {
      assert (a + b)[1..] == a[1..] + b;
      SumAppend(a[1..], b);
    }
  }

  lemma {:induction false} VotesForAppend(a: seq<Row>, b: seq<Row>, name: string)
    ensures VotesFor(a + b, name) == VotesFor(a, name) + VotesFor(b, name)
  {
    if a == [] {
      assert a + b == b;
    } else {
      assert (a + b)[1..] == a[1..] + b;
      VotesForAppend(a[1..], b, name);
    }
  }

  /** A filtered sum never exceeds the sum over all rows. */
  lemma {:induction false} FilteredSumAtMost(rows: seq<Row>, keep: Row -> bool)
    ensures Sum(Filter(rows, keep)) <= Sum(rows)
  {
    if rows != [] {
      FilteredSumAtMost(rows[1..], keep);
    }
  }

  /** Two filters that never accept the same row: their sums together never
      exceed the sum over all rows, and equal it exactly when every row that
      neither accepts has a count of zero. */
  lemma {:induction false} DisjointFilteredSums(rows: seq<Row>, k1: Row -> bool, k2: Row -> bool)
    requires forall r :: !(k1(r) && k2(r))
    ensures Sum(Filter(rows, k1)) + Sum(Filter(rows, k2)) <= Sum(rows)
    ensures Sum(Filter(rows, k1)) + Sum(Filter(rows, k2)) == Sum(rows)
            <==> forall i :: 0 <= i < |rows| && !k1(rows[i]) && !k2(rows[i]) ==> rows[i].candTotVotes == 0
  {
    if rows != [] {
      DisjointFilteredSums(rows[1..], k1, k2);
      var tail := rows[1..];
      if forall i :: 0 <= i < |tail| && !k1(tail[i]) && !k2(tail[i]) ==> tail[i].candTotVotes == 0 {
        if !k1(rows[0]) && !k2(rows[0]) && rows[0].candTotVotes == 0 {
          forall i | 0 <= i < |rows| && !k1(rows[i]) && !k2(rows[i]) ensures rows[i].candTotVotes == 0 {
            if i > 0 { assert rows[i] == tail[i - 1]; }
          }
        }
        if k1(rows[0]) || k2(rows[0]) {
          forall i | 0 <= i < |rows| && !k1(rows[i]) && !k2(rows[i]) ensures rows[i].candTotVotes == 0 {
            assert i > 0 && rows[i] == tail[i - 1];
          }
        }
      } else {
        var i :| 0 <= i < |tail| && !k1(tail[i]) && !k2(tail[i]) && tail[i].candTotVotes != 0;
        assert rows[i + 1] == tail[i];
      }
    }
  }

  // ---------------------------------------------------------------------
  // Candidate totals

  /** A candidate's total is the sum of the counts on exactly the rows that
      name that candidate. */
  lemma {:induction false} CandidateTotalIsVotesFor(rows: seq<Row>, name: string)
    ensures CandidateTotal(rows, name) == VotesFor(rows, name)
  {
    ReduceIsSum(Filter(rows, IsCandidate(name)), 0);
    SumOfCandidateRows(rows, name);
  }

  lemma {:induction false} SumOfCandidateRows(rows: seq<Row>, name: string)
    ensures Sum(Filter(rows, IsCandidate(name))) == VotesFor(rows, name)
  {
    if rows != [] {
      SumOfCandidateRows(rows[1..], name);
    }
  }

  /** Rows for other names contribute nothing to a candidate's total,
      wherever they stand. */
  lemma OtherNamesContributeNothing(before: seq<Row>, others: seq<Row>, after: seq<Row>, name: string)
    requires forall i :: 0 <= i < |others| ==> others[i].candName != name
    ensures CandidateTotal(before + others + after, name) == CandidateTotal(before + after, name)
  {
    CandidateTotalIsVotesFor(before + others + after, name);
    CandidateTotalIsVotesFor(before + after, name);
    VotesForAppend(before + others, after, name);
    VotesForAppend(before, others, name);
    VotesForAppend(before, after, name);
    NoVotesForOthers(others, name);
  }

  lemma {:induction false} NoVotesForOthers(rows: seq<Row>, name: string)
    requires forall i :: 0 <= i < |rows| ==> rows[i].candName != name
    ensures VotesFor(rows, name) == 0
  {
    if rows != [] {
      NoVotesForOthers(rows[1..], name);
    }
  }

  /** The two candidates' totals together never exceed the grand total; they
      equal it exactly when every row naming neither candidate has a count of
      zero, in particular when every row names one of the two. */
  lemma CandidateTotalsWithinGrandTotal(rows: seq<Row>)
    ensures CandidateTotal(rows, REPUBLICAN) + CandidateTotal(rows, DEMOCRAT) <= GrandTotal(rows)
    ensures CandidateTotal(rows, REPUBLICAN) + CandidateTotal(rows, DEMOCRAT) == GrandTotal(rows)
            <==> forall i :: 0 <= i < |rows| && rows[i].candName != REPUBLICAN && rows[i].candName != DEMOCRAT
                             ==> rows[i].candTotVotes == 0
    ensures (forall i :: 0 <= i < |rows| ==> rows[i].candName == REPUBLICAN || rows[i].candName == DEMOCRAT)
            ==> CandidateTotal(rows, REPUBLICAN) + CandidateTotal(rows, DEMOCRAT) == GrandTotal(rows)
  {
    assert REPUBLICAN[0] != DEMOCRAT[0];
    DisjointFilteredSums(rows, IsCandidate(REPUBLICAN), IsCandidate(DEMOCRAT));
    ReduceIsSum(Filter(rows, IsCandidate(REPUBLICAN)), 0);
    ReduceIsSum(Filter(rows, IsCandidate(DEMOCRAT)), 0);
    ReduceIsSum(rows, 0);
  }

  // ---------------------------------------------------------------------
  // Precinct scope

  /** A precinct's total never exceeds the grand total of the same rows. */
  lemma PrecinctTotalWithinGrandTotal(rows: seq<Row>, code: nat)
    ensures PrecinctTotal(rows, code) <= GrandTotal(rows)
  {
    FilteredSumAtMost(rows, InPrecinct(code));
    ReduceIsSum(PrecinctRows(rows, code), 0);
    ReduceIsSum(rows, 0);
  }

  /** Every row counts 0. */
  predicate NoVotes(rows: seq<Row>)
  {
    forall i :: 0 <= i < |rows| ==> rows[i].candTotVotes == 0
  }

  /** The earliest row's count never exceeds the candidate's total. It equals
      that total exactly when every later row naming the candidate counts 0,
      in particular when exactly one row names the candidate. */
  lemma FirstCountWithinCandidateTotal(rows: seq<Row>, name: string)
    ensures FirstCount(rows, name).Some? ==> FirstCount(rows, name).value <= CandidateTotal(rows, name)
    ensures FirstCount(rows, name).Some? ==>
              (FirstCount(rows, name).value == CandidateTotal(rows, name)
               <==> NoVotes(Filter(rows, IsCandidate(name))[1..]))
    ensures |Filter(rows, IsCandidate(name))| == 1 ==> FirstCount(rows, name) == Some(CandidateTotal(rows, name))
  {
    var matching := Filter(rows, IsCandidate(name));
    ReduceIsSum(matching, 0);
    if matching != [] {
      assert matching == [matching[0]] + matching[1..];
      SumAppend([matching[0]], matching[1..]);
      SumIsZero(matching[1..]);
    }
  }

  /** A sum is 0 exactly when every row counts 0. */
  lemma {:induction false} SumIsZero(rows: seq<Row>)
    ensures Sum(rows) == 0 <==> NoVotes(rows)
  {
    if rows != [] {
      SumIsZero(rows[1..]);
      assert forall i :: 1 <= i < |rows| ==> rows[i] == rows[1..][i - 1];
    }
  }

  /** In any set of rows, the earliest Republican row and the earliest
      Democratic row together count at most the rows' total. */
  lemma FirstCountsWithinTotal(rows: seq<Row>)
    requires FirstCount(rows, REPUBLICAN).Some? && FirstCount(rows, DEMOCRAT).Some?
    ensures FirstCount(rows, REPUBLICAN).value + FirstCount(rows, DEMOCRAT).value <= GrandTotal(rows)
  {
    FirstCountWithinCandidateTotal(rows, REPUBLICAN);
    FirstCountWithinCandidateTotal(rows, DEMOCRAT);
    CandidateTotalsWithinGrandTotal(rows);
  }
}
