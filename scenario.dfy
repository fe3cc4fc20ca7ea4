/** Worked examples: two precincts, one of them tied, and the formatting of
    a few counts. */
module Scenario {
  import opened Formatting
  import opened Results
  import opened Scoreboard

  /** Two precincts; precinct 2 is a tie, 50 votes each. */
  function ExampleRows(): seq<Row>
  {
    [Row(1, DEMOCRAT, 300), Row(1, REPUBLICAN, 700), Row(2, DEMOCRAT, 50), Row(2, REPUBLICAN, 50)]
  }

  /** Globally the Republican candidate leads 750 to 350 of 1100. */
  lemma ExampleGlobalView()
    ensures GlobalDisplay(ExampleRows()).democratPct == Share(350, 1100)
    ensures GlobalDisplay(ExampleRows()).republicanPct == Share(750, 1100)
    ensures GlobalDisplay(ExampleRows()).republicanWin && !GlobalDisplay(ExampleRows()).democratWin
  {
    var rows := ExampleRows();
    var a, b, c, e := rows[0], rows[1], rows[2], rows[3];
    assert REPUBLICAN[0] != DEMOCRAT[0];
    assert rows[1..] == [b, c, e] && [b, c, e][1..] == [c, e] && [c, e][1..] == [e] && [e][1..] == [];
    assert Filter([c, e], IsCandidate(DEMOCRAT)) == [c];
    assert Filter(rows, IsCandidate(DEMOCRAT)) == [a, c];
    assert Filter([c, e], IsCandidate(REPUBLICAN)) == [e];
    assert Filter(rows, IsCandidate(REPUBLICAN)) == [b, e];
    assert [a, c][1..] == [c] && [b, e][1..] == [e];
    assert Reduce([c], 300) == 350 && Reduce([e], 700) == 750;
    assert Reduce([e], 1050) == 1100 && Reduce([c, e], 1000) == 1100 && Reduce([b, c, e], 300) == 1100;
  }

  /** Hovering the tied precinct shows 50 of 100 each and marks neither. */
  lemma ExamplePrecinctTie()
    ensures HoverDisplay(GlobalDisplay(ExampleRows()), ExampleRows(), Feature(2, 17)).democratPct == Share(50, 100)
    ensures HoverDisplay(GlobalDisplay(ExampleRows()), ExampleRows(), Feature(2, 17)).republicanPct == Share(50, 100)
    ensures !HoverDisplay(GlobalDisplay(ExampleRows()), ExampleRows(), Feature(2, 17)).republicanWin
    ensures !HoverDisplay(GlobalDisplay(ExampleRows()), ExampleRows(), Feature(2, 17)).democratWin
  {
  }

  /** A count of 1234 is shown as "1,234"; 999 is shown as is. */
  lemma ExampleNumberWithCommas()
    ensures NumberWithCommas(999) == "999"
    ensures NumberWithCommas(1234) == "1,234"
  {
    assert Decimal(9) == "9";
    assert Decimal(99) == "99";
    assert Decimal(999) == "999";
    assert Decimal(1) == "1";
    assert Decimal(12) == "12";
    assert Decimal(123) == "123";
    assert Decimal(1234) == "1234";
  }
}
