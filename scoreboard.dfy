/** What the scoreboard shows, and how `loaded`, `mouseOverFunc` and
    `mouseOutFunc` change it (script.js:66-74, 175-232). The seven fields are
    the precinct label, the two vote counts as text, the two percentages
    (kept as count and total rather than as `toFixed(2)` strings) and the two
    `win` classes. */
module Scoreboard {
  import opened Formatting
  import opened Results

  /** A percentage field: `(count / total) * 100` before `toFixed(2)`. */
  datatype Share = Share(count: nat, total: nat)

  datatype Display = Display(
    precinctNum: string,
    democratVote: string,
    republicanVote: string,
    democratPct: Share,
    republicanPct: Share,
    republicanWin: bool,
    democratWin: bool)

  /** The two properties of a hovered precinct shape the handler reads: the
      join key `PCT_CEB` and the `Precinct` number printed in the label. */
  datatype Feature = Feature(pctCeb: nat, precinct: nat)

  /** The two events wired to the precinct overlay (script.js:145-146). */
  datatype Event = MouseMove(feature: Feature) | MouseOut

  /** The label text `Precinct ${+d.properties.Precinct}`. */
  function PrecinctLabel(n: nat): string
  {
    "Precinct " + Decimal(n)
  }

  /** The global view that `loaded` sets and `mouseOutFunc` restores: label
      cleared (`text(null)`), the candidates' totals over all rows, and the
      strict-greater win rule. */
  function GlobalDisplay(rows: seq<Row>): Display
  {
    var rep := CandidateTotal(rows, REPUBLICAN);
    var dem := CandidateTotal(rows, DEMOCRAT);
    var total := GrandTotal(rows);
    Display("", NumberWithCommas(dem), NumberWithCommas(rep),
            Share(dem, total), Share(rep, total), rep > dem, dem > rep)
  }

  /** The scoreboard after `mouseOverFunc` over `f`, starting from `d`. */
  function HoverDisplay(d: Display, rows: seq<Row>, f: Feature): Display
  {
    var precinct := PrecinctRows(rows, f.pctCeb);
    PrecinctDisplay(d, f.precinct, PrecinctTotal(rows, f.pctCeb),
                    FirstCount(precinct, DEMOCRAT), FirstCount(precinct, REPUBLICAN))
  }

  /** Whether `mouseOverFunc` over `f` ends with a TypeError. */
  predicate HoverRaises(rows: seq<Row>, f: Feature)
  {
    var precinct := PrecinctRows(rows, f.pctCeb);
    PrecinctRaises(PrecinctTotal(rows, f.pctCeb),
                   FirstCount(precinct, DEMOCRAT), FirstCount(precinct, REPUBLICAN))
  }

  /** The body of `mouseOverFunc` once the precinct's total and each
      candidate's first count are known. Nothing changes when the total is 0.
      Otherwise the label is written first; a candidate without a row makes
      `numberWithCommas(undefined)` throw, which ends the handler with the
      fields written so far (the label, and the Democratic count when only the
      Republican row is missing). */
  function PrecinctDisplay(d: Display, precinct: nat, total: nat, dem: Option<nat>, rep: Option<nat>): Display
  {
    if total == 0 then d
    else if dem.None? then d.(precinctNum := PrecinctLabel(precinct))
    else if rep.None? then d.(precinctNum := PrecinctLabel(precinct),
                              democratVote := NumberWithCommas(dem.value))
    else Display(PrecinctLabel(precinct), NumberWithCommas(dem.value), NumberWithCommas(rep.value),
                 Share(dem.value, total), Share(rep.value, total),
                 rep.value > dem.value, dem.value > rep.value)
  }

  predicate PrecinctRaises(total: nat, dem: Option<nat>, rep: Option<nat>)
  {
    total != 0 && (dem.None? || rep.None?)
  }

  function Step(d: Display, rows: seq<Row>, e: Event): Display
  {
    match e
    case MouseMove(f) => HoverDisplay(d, rows, f)
    case MouseOut => GlobalDisplay(rows)
  }

  /** The scoreboard after the events in order, one handler at a time. */
  function Replay(d: Display, rows: seq<Row>, events: seq<Event>): Display
    decreases |events|
  {
    if events == [] then d else Replay(Step(d, rows, events[0]), rows, events[1..])
  }

  // ---------------------------------------------------------------------
  // Invariants of the displayed state

  predicate AtMostOneWinner(d: Display)
  {
    !(d.republicanWin && d.democratWin)
  }

  /** Both percentages share one total, and together they stay within it. */
  predicate SharesBounded(d: Display)
  {
    d.democratPct.total == d.republicanPct.total
    && d.democratPct.count + d.republicanPct.count <= d.democratPct.total
  }

  /** The texts show the counts the percentages are taken of, and the `win`
      class sits on exactly the row whose count is strictly larger. */
  predicate Consistent(d: Display)
  {
    AllDigits(StripCommas(d.democratVote)) && AllDigits(StripCommas(d.republicanVote))
    && ShownValue(d.democratVote) == d.democratPct.count
    && ShownValue(d.republicanVote) == d.republicanPct.count
    && d.republicanWin == (d.republicanPct.count > d.democratPct.count)
    && d.democratWin == (d.democratPct.count > d.republicanPct.count)
  }

  /** The global view shows the two candidates' totals over all rows as
      fractions of the grand total, marks the strictly larger one, and marks
      neither on a tie. */
  lemma GlobalDisplayShowsTotals(rows: seq<Row>)
    ensures GlobalDisplay(rows).precinctNum == ""
    ensures ShownValue(GlobalDisplay(rows).democratVote) == CandidateTotal(rows, DEMOCRAT)
    ensures ShownValue(GlobalDisplay(rows).republicanVote) == CandidateTotal(rows, REPUBLICAN)
    ensures GlobalDisplay(rows).democratPct.total == GrandTotal(rows)
    ensures Consistent(GlobalDisplay(rows)) && SharesBounded(GlobalDisplay(rows))
    ensures AtMostOneWinner(GlobalDisplay(rows))
    ensures CandidateTotal(rows, DEMOCRAT) == CandidateTotal(rows, REPUBLICAN)
            ==> !GlobalDisplay(rows).republicanWin && !GlobalDisplay(rows).democratWin
  {
    CandidateTotalsWithinGrandTotal(rows);
  }

  /** Hovering a precinct whose total is 0 changes no field and raises
      nothing. */
  lemma HoverOverEmptyPrecinct(d: Display, rows: seq<Row>, f: Feature)
    requires PrecinctTotal(rows, f.pctCeb) == 0
    ensures HoverDisplay(d, rows, f) == d && !HoverRaises(rows, f)
  {
  }

  /** Hovering a precinct with votes and a row for each candidate shows the
      precinct's label and its two counts as fractions of the precinct's
      total, and marks the strictly larger count only. */
  lemma HoverShowsPrecinct(d: Display, rows: seq<Row>, f: Feature)
    requires PrecinctTotal(rows, f.pctCeb) != 0 && !HoverRaises(rows, f)
    ensures var h, precinct := HoverDisplay(d, rows, f), PrecinctRows(rows, f.pctCeb);
            && h.precinctNum == PrecinctLabel(f.precinct)
            && FirstCount(precinct, DEMOCRAT).Some? && FirstCount(precinct, REPUBLICAN).Some?
            && ShownValue(h.democratVote) == FirstCount(precinct, DEMOCRAT).value
            && ShownValue(h.republicanVote) == FirstCount(precinct, REPUBLICAN).value
            && h.democratPct.total == PrecinctTotal(rows, f.pctCeb)
            && Consistent(h) && SharesBounded(h)
  {
    var precinct := PrecinctRows(rows, f.pctCeb);
    FirstCountsWithinTotal(precinct);
  }

  /** When the precinct has exactly one row per candidate, the hovered view
      shows the precinct-scoped candidate totals, and a tie marks neither. */
  lemma HoverShowsPrecinctTotals(d: Display, rows: seq<Row>, f: Feature)
    requires PrecinctTotal(rows, f.pctCeb) != 0
    requires |Filter(PrecinctRows(rows, f.pctCeb), IsCandidate(DEMOCRAT))| == 1
    requires |Filter(PrecinctRows(rows, f.pctCeb), IsCandidate(REPUBLICAN))| == 1
    ensures var h, precinct := HoverDisplay(d, rows, f), PrecinctRows(rows, f.pctCeb);
            && !HoverRaises(rows, f)
            && ShownValue(h.democratVote) == CandidateTotal(precinct, DEMOCRAT)
            && ShownValue(h.republicanVote) == CandidateTotal(precinct, REPUBLICAN)
            && (CandidateTotal(precinct, DEMOCRAT) == CandidateTotal(precinct, REPUBLICAN)
                ==> !h.republicanWin && !h.democratWin)
  {
    var precinct := PrecinctRows(rows, f.pctCeb);
    FirstCountWithinCandidateTotal(precinct, DEMOCRAT);
    FirstCountWithinCandidateTotal(precinct, REPUBLICAN);
    HoverShowsPrecinct(d, rows, f);
  }

  /** A hover that raises has written the label, perhaps the Democratic
      count, and nothing else. */
  lemma HoverAbortsOnMissingRow(d: Display, rows: seq<Row>, f: Feature)
    requires HoverRaises(rows, f)
    ensures var h := HoverDisplay(d, rows, f);
            && h.precinctNum == PrecinctLabel(f.precinct)
            && h.republicanVote == d.republicanVote
            && h.democratPct == d.democratPct && h.republicanPct == d.republicanPct
            && h.republicanWin == d.republicanWin && h.democratWin == d.democratWin
            && (FirstCount(PrecinctRows(rows, f.pctCeb), DEMOCRAT).None? ==> h.democratVote == d.democratVote)
            && (FirstCount(PrecinctRows(rows, f.pctCeb), DEMOCRAT).Some?
                ==> h.democratVote == NumberWithCommas(FirstCount(PrecinctRows(rows, f.pctCeb), DEMOCRAT).value))
  {
  }

  /** Every hover keeps at most one `win` class and the shares within their
      total, whether or not it raises. */
  lemma HoverKeepsInvariants(d: Display, rows: seq<Row>, f: Feature)
    ensures AtMostOneWinner(d) ==> AtMostOneWinner(HoverDisplay(d, rows, f))
    ensures SharesBounded(d) ==> SharesBounded(HoverDisplay(d, rows, f))
  {
    if PrecinctTotal(rows, f.pctCeb) != 0 && !HoverRaises(rows, f) {
      HoverShowsPrecinct(d, rows, f);
    }
  }

  /** A hover that does not raise keeps the texts, percentages and classes
      consistent. */
  lemma HoverKeepsConsistency(d: Display, rows: seq<Row>, f: Feature)
    requires Consistent(d) && !HoverRaises(rows, f)
    ensures Consistent(HoverDisplay(d, rows, f))
  {
  }

  // ---------------------------------------------------------------------
  // Event sequences

  lemma {:induction false} ReplayAppend(d: Display, rows: seq<Row>, a: seq<Event>, b: seq<Event>)
    ensures Replay(d, rows, a + b) == Replay(Replay(d, rows, a), rows, b)
    decreases |a|
  {
    if a == [] {
      assert a + b == b;
    } else {
      assert (a + b)[0] == a[0] && (a + b)[1..] == a[1..] + b;
      ReplayAppend(Step(d, rows, a[0]), rows, a[1..], b);
    }
  }

  /** `mouseOutFunc` leaves the scoreboard exactly as `loaded` set it,
      whatever events came before. */
  lemma MouseOutRestoresLoadedView(rows: seq<Row>, events: seq<Event>)
    ensures Replay(GlobalDisplay(rows), rows, events + [MouseOut]) == GlobalDisplay(rows)
  {
    ReplayAppend(GlobalDisplay(rows), rows, events, [MouseOut]);
  }

  /** Hovers over precincts whose total is 0 leave the scoreboard as it was. */
  lemma {:induction false} EmptyHoversChangeNothing(d: Display, rows: seq<Row>, events: seq<Event>)
    requires forall i :: 0 <= i < |events| ==>
               events[i].MouseMove? && PrecinctTotal(rows, events[i].feature.pctCeb) == 0
    ensures Replay(d, rows, events) == d
    decreases |events|
  {
    if events != [] {
      EmptyHoversChangeNothing(d, rows, events[1..]);
    }
  }

  /** From any state with at most one `win` class and bounded shares, every
      sequence of events keeps both. */
  lemma {:induction false} ReplayKeepsInvariants(d: Display, rows: seq<Row>, events: seq<Event>)
    requires AtMostOneWinner(d) && SharesBounded(d)
    ensures AtMostOneWinner(Replay(d, rows, events)) && SharesBounded(Replay(d, rows, events))
    decreases |events|
  {
    if events != [] {
      match events[0] {
        case MouseMove(f) => HoverKeepsInvariants(d, rows, f);
        case MouseOut => GlobalDisplayShowsTotals(rows);
      }
      ReplayKeepsInvariants(Step(d, rows, events[0]), rows, events[1..]);
    }
  }

  /** From a consistent state, every sequence of events in which no hover
      raises keeps the scoreboard consistent. */
  lemma {:induction false} ReplayKeepsConsistency(d: Display, rows: seq<Row>, events: seq<Event>)
    requires Consistent(d)
    requires forall i :: 0 <= i < |events| && events[i].MouseMove? ==> !HoverRaises(rows, events[i].feature)
    ensures Consistent(Replay(d, rows, events))
    decreases |events|
  {
    if events != [] {
      match events[0] {
        case MouseMove(f) => HoverKeepsConsistency(d, rows, f);
        case MouseOut => GlobalDisplayShowsTotals(rows);
      }
      ReplayKeepsConsistency(Step(d, rows, events[0]), rows, events[1..]);
    }
  }

  /** After `loaded` and any events, at most one `win` class is set. */
  lemma AtMostOneWinnerAfterLoad(rows: seq<Row>, events: seq<Event>)
    ensures AtMostOneWinner(Replay(GlobalDisplay(rows), rows, events))
    ensures SharesBounded(Replay(GlobalDisplay(rows), rows, events))
  {
    GlobalDisplayShowsTotals(rows);
    ReplayKeepsInvariants(GlobalDisplay(rows), rows, events);
  }
}
