/** The page state that `loaded` builds and that the hover handlers write:
    the rows and totals the handlers close over, and the scoreboard's seven
    DOM fields, which `.text(...)` and `.classed("win", ...)` overwrite in
    place (script.js:48-74, 175-232). */
module MapView {
  import opened Formatting
  import opened Results
  import opened Scoreboard

  class ElectionMap {
    // What `loaded` computes once and its handlers read.
    const results: seq<Row>
    const republicanResults: nat
    const democratResults: nat
    const totalResult: nat

    // The scoreboard: `.precinct-num`, `.democrat-vote`, `.republican-vote`,
    // `.democrat-percentage`, `.republican-percentage` and the `win` class of
    // `.republican-row` and `.democrat-row`.
    var precinctNum: string
    var democratVote: string
    var republicanVote: string
    var democratPct: Share
    var republicanPct: Share
    var republicanWin: bool
    var democratWin: bool

    /** The scoreboard as displayed. */
    function Shown(): Display
      reads this
    {
      Display(precinctNum, democratVote, republicanVote, democratPct, republicanPct,
              republicanWin, democratWin)
    }

    ghost predicate Valid()
      reads this
    {
      republicanResults == CandidateTotal(results, REPUBLICAN)
      && democratResults == CandidateTotal(results, DEMOCRAT)
      && totalResult == GrandTotal(results)
      && AtMostOneWinner(Shown()) && SharesBounded(Shown())
    }

    /** `loaded`: aggregate the rows, scan for `highNum`, show the global
        view. */
    constructor Loaded(rows: seq<Row>)
      ensures Valid() && results == rows
      ensures Shown() == GlobalDisplay(rows)
    {
      var rep := Reduce(Filter(rows, IsCandidate(REPUBLICAN)), 0);
      var dem := Reduce(Filter(rows, IsCandidate(DEMOCRAT)), 0);
      var total := Reduce(rows, 0);
      var highNum := HighestVoteCount(rows);
      results, republicanResults, democratResults, totalResult := rows, rep, dem, total;

      precinctNum := "";
      democratVote := NumberWithCommas(dem);
      republicanVote := NumberWithCommas(rep);
      democratPct := Share(dem, total);
      republicanPct := Share(rep, total);
      republicanWin := rep > dem;
      democratWin := dem > rep;
      GlobalDisplayShowsTotals(rows);
    }

    /** `mouseOutFunc`: restore the global view. */
    method MouseOut()
      requires Valid()
      modifies this
      ensures Valid()
      ensures Shown() == GlobalDisplay(results)
    {
      precinctNum := "";
      democratVote := NumberWithCommas(democratResults);
      republicanVote := NumberWithCommas(republicanResults);
      democratPct := Share(democratResults, totalResult);
      republicanPct := Share(republicanResults, totalResult);
      republicanWin := republicanResults > democratResults;
      democratWin := democratResults > republicanResults;
      GlobalDisplayShowsTotals(results);
    }

    /** `mouseOverFunc` over the precinct shape `d`. `raised` is true when the
        handler ends with a TypeError from `numberWithCommas(undefined)`. */
    method MouseOver(d: Feature) returns (raised: bool)
      requires Valid()
      modifies this
      ensures Valid()
      ensures Shown() == HoverDisplay(old(Shown()), results, d)
      ensures raised == HoverRaises(results, d)
    {
      ghost var before := Shown();
      HoverKeepsInvariants(before, results, d);
      raised := false;
      var precinct := Filter(results, InPrecinct(d.pctCeb));
      var total := Reduce(precinct, 0);
      var precinctRepublicanResults := FirstCount(precinct, REPUBLICAN);
      var precinctDemocratResults := FirstCount(precinct, DEMOCRAT);
      assert HoverDisplay(before, results, d)
             == PrecinctDisplay(before, d.precinct, total, precinctDemocratResults, precinctRepublicanResults);
      assert HoverRaises(results, d) == PrecinctRaises(total, precinctDemocratResults, precinctRepublicanResults);
      if total != 0 {
        precinctNum := PrecinctLabel(d.precinct);
        if precinctDemocratResults.None? {
          raised := true;
          return;
        }
        democratVote := NumberWithCommas(precinctDemocratResults.value);
        if precinctRepublicanResults.None? {
          raised := true;
          return;
        }
        var dem, rep := precinctDemocratResults.value, precinctRepublicanResults.value;
        republicanVote := NumberWithCommas(rep);
        democratPct := Share(dem, total);
        republicanPct := Share(rep, total);
        republicanWin := rep > dem;
        democratWin := dem > rep;
      }
    }
  }
}
