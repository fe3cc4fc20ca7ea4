# Election map scoreboard — a Dafny model

`script.js` draws a county precinct map for one congressional race. It
keeps a scoreboard next to the map. The scoreboard shows each candidate's vote
count, their share of the votes, and a `win` class on the leading row. When
the page loads (`loaded`), it adds up the CSV rows with `filter`/`reduce` and
shows the race-wide totals. Moving the mouse over a precinct
(`mouseOverFunc`) shows that precinct's own counts. Leaving it
(`mouseOutFunc`) puts the race-wide view back. `numberWithCommas` formats
every count.

This project models that core:

- `Formatting` (`formatting.dfy`): `numberWithCommas`. It covers
  `toString` and the effect of the look-ahead regular expression.
  - Proved against a reference split into three-digit groups.
  - Proved against the decimal value the text denotes.
- `Results` (`results.dfy`): the rows, `filter`, `reduce` as a left fold,
  the candidate, grand and precinct totals, the earliest-row lookup
  `filter(...)[0]`, and the `highNum` loop.
- `Scoreboard` (`scoreboard.dfy`): the displayed values as a datatype, with
  what `loaded`, `mouseOverFunc` and `mouseOutFunc` leave on the scoreboard as
  pure functions, and lemmas about them and about any sequence of mouse events.
- `MapView` (`mapview.dfy`): the page state as a class.
  - The constants `loaded` computes once are `const` fields.
  - The seven scoreboard elements are `var` fields.
  - The three handlers are a constructor and two methods that overwrite
    those fields. Each is proved to leave exactly the display the matching
    `Scoreboard` function describes.
- `Scenario` (`scenario.dfy`): worked examples on concrete rows.

Details of the model:

- A percentage is kept as the pair `Share(count, total)`. `toFixed(2) + "%"`
  is not modelled.
- The `classed("win", …)` flags use strict `>`, so a tie sets neither.
- `precinctNum.text(null)` empties the element. It is modelled as `""`.

**The code's behaviour, followed here:**

- When a precinct lacks a row for a candidate, the code does not show 0:
  `filter(...)[0] || 0` gives the number `0`, so `.cand_tot_votes` is
  `undefined`, and `numberWithCommas(undefined)` throws a `TypeError`. The
  handler then stops part-way:
  - a missing Democratic row leaves only the new label written;
  - a missing Republican row leaves the label and the Democratic count
    written.
- The model follows this: `HoverDisplay` gives the partly updated display,
  and `HoverRaises` / `MouseOver`'s `raised` say that the handler threw.
- A precinct's counts come from the FIRST row that names the candidate in
  that precinct (`[0]`), not from a sum. A count equals the precinct-scoped
  candidate total exactly when every later row naming that candidate counts
  0, in particular when there is only one such row.
- The hover label uses the feature's `Precinct` property. The rows are
  matched on its `PCT_CEB` property. `Feature` keeps the two apart.

## Model

| member | source | states |
|---|---|---|
| Formatting.NumberWithCommas | script.js:235-237 | removing the commas gives back `toString` of the count, so the text denotes the count itself |
| Formatting.NumberWithCommasGroups | script.js:235-237 | the text is the decimal digits split into groups of three from the right (the first group one to three digits long), joined by single commas |
| Formatting.NumberWithCommasShape | script.js:235-237 | the text has no comma at either end, and its length is digits + (digits-1)/3 |
| Formatting.NumberWithCommasBelowThousand | script.js:235-237 | counts below 1000 come back as plain `toString`; from 1000 on there is a comma |
| Formatting.NumberWithCommasInjective | script.js:235-237 | two distinct counts are never shown as the same text |
| Formatting.SeparateIsJoinedGroups | script.js:236 | the replacement `\B(?=(\d{3})+(?!\d))` → `,` on a digit string equals the reference three-digit grouping |
| Formatting.SeparateAppend | script.js:236 | splitting off a tail whose length is a positive multiple of three puts a comma at the split and changes neither side |
| Formatting.DecimalOfValue | script.js:236 | a numeral without leading zeros is `toString` of its value; `toString` on naturals is a bijection onto such numerals |
| Formatting.DecimalLength | script.js:236 | `toString(n)` has at most k digits exactly when n < 10^k |
| Results.FilterKeepsExactly | script.js:49-54 | `filter` keeps exactly the rows the predicate accepts: every kept row is accepted and comes from the input, and every accepted input row is kept |
| Results.FilterHead | script.js:197-200 | `filter(...)` is empty exactly when no row is accepted; otherwise its first row is the earliest row accepted |
| Results.ReduceIsSum | script.js:55-57 | the left fold `reduce((tot, num) => tot += num.cand_tot_votes, acc)` is acc plus the sum of the counts |
| Results.CandidateTotalIsVotesFor | script.js:49-54 | a candidate's total is the sum of the counts on exactly the rows that name that candidate |
| Results.OtherNamesContributeNothing | script.js:49-54 | inserting rows for other names anywhere leaves a candidate's total unchanged |
| Results.DisjointFilteredSums | script.js:49-57 | two filters that never accept the same row total at most the unfiltered total, with equality exactly when every row neither accepts counts 0 |
| Results.CandidateTotalsWithinGrandTotal | script.js:49-57 | republicanResults + democratResults ≤ totalresult, with equality exactly when every row naming neither candidate counts 0, in particular when every row names one of them |
| Results.PrecinctTotalWithinGrandTotal | script.js:188-195 | a precinct's total never exceeds the total over all rows |
| Results.FirstCountIsEarliestRow | script.js:197-200 | the first-row lookup is missing exactly when no row names the candidate; otherwise it is the count of the earliest row that does |
| Results.FirstCountWithinCandidateTotal | script.js:197-200 | the first row's count is at most the candidate's total; it equals that total exactly when every later row naming the candidate counts 0, and in particular when exactly one row names the candidate |
| Results.SumIsZero | script.js:55-57 | a sum of counts is 0 exactly when every row counts 0 |
| Results.FirstCountsWithinTotal | script.js:196-219 | when both candidates have a row, their first counts sum to at most the total of the same rows (the two shares never exceed 100%) |
| Results.MaxVotes | script.js:59-64 | the highest count is at least every row's count, and is 0 or some row's count |
| Results.HighestVoteCount | script.js:59-64 | the `highNum` loop returns the highest count: an upper bound of every row's count that is 0 or attained by a row |
| Scoreboard.GlobalDisplayShowsTotals | script.js:66-74 | the loaded view has an empty label, shows the two candidate totals (as values of their texts) over the grand total, is consistent, marks only a strictly larger total, and marks neither on a tie |
| Scoreboard.HoverOverEmptyPrecinct | script.js:192-196 | hovering a precinct whose total is 0 changes nothing and does not throw |
| Scoreboard.HoverShowsPrecinct | script.js:196-230 | over a precinct with votes and a row for each candidate: the label is `Precinct <n>`, the texts show the earliest rows' counts, the shares are over the precinct total, and the view is consistent and bounded |
| Scoreboard.HoverShowsPrecinctTotals | script.js:187-230 | with exactly one row per candidate in the precinct, the hover does not throw, shows the precinct-scoped candidate totals, and marks neither on a tie |
| Scoreboard.HoverAbortsOnMissingRow | script.js:197-208 | a hover that throws has written the label; the Democratic text is unchanged when the Democratic row is missing and is `numberWithCommas` of its earliest row's count when only the Republican row is missing; the Republican text, both shares and both classes are unchanged |
| Scoreboard.HoverKeepsInvariants | script.js:187-232 | every hover, throwing or not, keeps at most one `win` class and both shares over one total with counts summing to at most that total |
| Scoreboard.HoverKeepsConsistency | script.js:196-230 | a hover that does not throw keeps the texts, shares and classes in agreement |
| Scoreboard.ReplayAppend | script.js:145-146 | replaying two event sequences one after the other is replaying their concatenation |
| Scoreboard.MouseOutRestoresLoadedView | script.js:175-185 | after any events, a mouse-out leaves the scoreboard exactly as `loaded` set it |
| Scoreboard.EmptyHoversChangeNothing | script.js:196 | any sequence of hovers over precincts with total 0 leaves the scoreboard unchanged |
| Scoreboard.ReplayKeepsInvariants | script.js:145-146 | from a state with at most one `win` class and bounded shares, every event sequence keeps both |
| Scoreboard.ReplayKeepsConsistency | script.js:145-146 | from a consistent state, every event sequence in which no hover throws keeps the scoreboard consistent |
| Scoreboard.AtMostOneWinnerAfterLoad | script.js:66-74 | after `loaded` and any events, at most one `win` class is set and the shares stay bounded |
| MapView.ElectionMap.Loaded | script.js:48-74 | stores the rows and their republican, democrat and grand totals, runs the `highNum` loop, and writes the loaded view; the invariants hold afterwards |
| MapView.ElectionMap.MouseOut | script.js:175-185 | rewrites the seven scoreboard fields to exactly the loaded view and keeps the invariants |
| MapView.ElectionMap.MouseOver | script.js:187-232 | leaves exactly the display `HoverDisplay` gives from the previous one, reports whether the handler throws, and keeps the invariants |
| Scenario.ExampleGlobalView | script.js:49-74 | on two precincts with 300/700 and 50/50 votes, the loaded view shows 350 and 750 of 1100 and marks only the Republican row |
| Scenario.ExamplePrecinctTie | script.js:187-230 | hovering the tied precinct shows 50 of 100 for each candidate and marks neither row |
| Scenario.ExampleNumberWithCommas | script.js:235-237 | 999 is shown as "999" and 1234 as "1,234" |

## Left out

- The TopoJSON features, the projection fit (scale and translate from the path bounds) and every SVG path, place point and place label. They are rendering.
- `getColorElection` and `getOpacity` beyond the precinct total they share with `mouseOverFunc`. The colour and opacity scales are floating-point interpolation. These scales are never clamped, so no bound on their output is claimed.
- `toFixed(2) + "%"`. Percentages are kept as count/total pairs. When the total is 0, JavaScript prints `NaN%`; the model keeps `Share(count, 0)`.
- The asynchronous loading of the three files (`queue().defer(...).await`) and CSV parsing. The rows are taken as already parsed.
- The unary `+` coercion of CSV fields and shape properties. Each row's `precinct_code` and `cand_tot_votes`, and each shape's `PCT_CEB` and `Precinct` (script.js:153, 166, 189, 202), are taken as natural numbers. A non-numeric value is not modelled: `+` would turn it into `NaN`, which matches no row and gives the label "Precinct NaN". The hover formats the raw `cand_tot_votes` text without `+` (script.js:204, 207), which matches `NumberWithCommas(n)` only when the CSV field is a canonical numeral (no leading zeros, spaces or sign); other field texts are not modelled.
- The removal of the `.Norman` and `.Bartlesville` shapes. It only affects the DOM.
- `highNum` is computed and never read. The model computes it in `Loaded` and discards it the same way.
- `numberWithCommas` on inputs other than natural numbers (negative numbers, fractions, `undefined`). `undefined` appears only as the `TypeError` that `HoverRaises` records.
- Formatting.NumberWithCommas: does not model JavaScript's switch to exponent notation at 10^21 or above, or the loss of integer precision above 2^53, because vote counts stay far below both.
