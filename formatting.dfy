/** The text the scoreboard shows for a vote count: the decimal form of the
    number with a comma before every full group of three digits counted from
    the right (`numberWithCommas`, script.js:235-237). */
module Formatting {

  predicate IsDigit(c: char) { '0' <= c <= '9' }

  predicate AllDigits(s: string) { forall i :: 0 <= i < |s| ==> IsDigit(s[i]) }

  /** A decimal numeral as JavaScript prints one: at least one digit, and no
      leading zero unless the numeral is "0" itself. */
  predicate IsCanonical(s: string)
  {
    |s| >= 1 && AllDigits(s) && (s[0] == '0' ==> |s| == 1)
  }

  function DigitValue(c: char): nat
    requires IsDigit(c)
  {
    c as int - '0' as int
  }

  function DigitChar(d: nat): (c: char)
    requires d < 10
    ensures IsDigit(c) && DigitValue(c) == d
  {
    ('0' as int + d) as char
  }

  function Pow10(k: nat): (p: nat)
    ensures p >= 1
  {
    if k == 0 then 1 else 10 * Pow10(k - 1)
  }

  /** `x.toString()` for a natural number `x` (below 10^21, where JavaScript
      would switch to exponent notation). */
  function Decimal(n: nat): (s: string)
    ensures IsCanonical(s)
    ensures s[0] == '0' <==> n == 0
    ensures |s| == 1 <==> n < 10
  {
    if n < 10 then [DigitChar(n)] else Decimal(n / 10) + [DigitChar(n % 10)]
  }

  /** The number a string of digits denotes. */
  function ValueOf(s: string): nat
    requires AllDigits(s)
  {
    if s == [] then 0 else ValueOf(s[..|s| - 1]) * 10 + DigitValue(s[|s| - 1])
  }

  /** The regular-expression replacement `replace(/\B(?=(\d{3})+(?!\d))/g, ",")`
      on a string of digits. Between two digits `\B` always matches, so a comma
      goes after every digit that is followed by a positive multiple of three
      digits; there is never one before the first digit. */
  function Separate(s: string): string
    requires AllDigits(s)
  {
    if s == [] then []
    else [s[0]] + (if |s| > 1 && (|s| - 1) % 3 == 0 then "," else "") + Separate(s[1..])
  }

  /** `numberWithCommas(x)` for a natural number `x`. Removing the commas
      gives back the decimal form, so the text shows `n` and nothing else. */
  function NumberWithCommas(n: nat): (t: string)
    ensures StripCommas(t) == Decimal(n)
    ensures AllDigits(StripCommas(t)) && ShownValue(t) == n
  {
    StripSeparate(Decimal(n));
    ValueOfDecimal(n);
    Separate(Decimal(n))
  }

  /** The string with every comma removed. */
  function StripCommas(t: string): string
  {
    if t == [] then [] else (if t[0] == ',' then "" else [t[0]]) + StripCommas(t[1..])
  }

  /** Reference grouping: split a numeral into groups of three digits from the
      right; only the first group may be shorter. */
  function Groups(s: string): (gs: seq<string>)
    requires |s| >= 1 && AllDigits(s)
    ensures |gs| >= 1 && 1 <= |gs[0]| <= 3
    ensures forall i :: 1 <= i < |gs| ==> |gs[i]| == 3
    ensures forall i :: 0 <= i < |gs| ==> AllDigits(gs[i])
    ensures Concat(gs) == s
    decreases |s|
  {
    if |s| <= 3 then [s]
    else
      var front := Groups(s[..|s| - 3]);
      var gs := front + [s[|s| - 3..]];
      assert gs[..|gs| - 1] == front;
      gs
  }

  function Concat(gs: seq<string>): string
  {
    if gs == [] then [] else Concat(gs[..|gs| - 1]) + gs[|gs| - 1]
  }

  /** The groups written one after another with a comma between neighbours. */
  function Join(gs: seq<string>): string
  {
    if gs == [] then []
    else if |gs| == 1 then gs[0]
    else Join(gs[..|gs| - 1]) + "," + gs[|gs| - 1]
  }

  // ---------------------------------------------------------------------
  // The decimal form

  lemma {:induction false} ValueOfDecimal(n: nat)
    ensures ValueOf(Decimal(n)) == n
  {
    if n >= 10 {
      var s := Decimal(n);
      assert s[..|s| - 1] == Decimal(n / 10);
      ValueOfDecimal(n / 10);
    }
  }

  lemma {:induction false} ValueOfLeadingNonZero(s: string)
    requires |s| >= 1 && AllDigits(s) && s[0] != '0'
    ensures ValueOf(s) >= 1
  {
    if |s| > 1 {
      ValueOfLeadingNonZero(s[..|s| - 1]);
    }
  }

  /** Every canonical numeral is the decimal form of the number it denotes,
      so Decimal is a bijection between naturals and canonical numerals. */
  lemma {:induction false} DecimalOfValue(s: string)
    requires IsCanonical(s)
    ensures Decimal(ValueOf(s)) == s
  {
    var last := s[|s| - 1];
    if |s| == 1 {
      assert s == [last];
    } else {
      var front := s[..|s| - 1];
      assert IsCanonical(front);
      ValueOfLeadingNonZero(front);
      DecimalOfValue(front);
      var v, d := ValueOf(front), DigitValue(last);
      assert ValueOf(s) == v * 10 + d;
      assert (v * 10 + d) / 10 == v && (v * 10 + d) % 10 == d;
      assert s == front + [last];
    }
  }

  /** Exactly the naturals below 10^k have at most k decimal digits. */
  lemma {:induction false} DecimalLength(n: nat, k: nat)
    requires k >= 1
    ensures |Decimal(n)| <= k <==> n < Pow10(k)
  {
    if n >= 10 && k >= 2 {
      DecimalLength(n / 10, k - 1);
      assert n / 10 < Pow10(k - 1) <==> n < 10 * Pow10(k - 1);
    }
  }

  // ---------------------------------------------------------------------
  // The separators

  lemma {:induction false} StripCommasAppend(a: string, b: string)
    ensures StripCommas(a + b) == StripCommas(a) + StripCommas(b)
  {
    if a != [] {
      var head := if a[0] == ',' then "" else [a[0]];
      assert (a + b)[0] == a[0];
      assert (a + b)[1..] == a[1..] + b;
      StripCommasAppend(a[1..], b);
      assert StripCommas(a + b) == head + (StripCommas(a[1..]) + StripCommas(b));
      assert StripCommas(a) == head + StripCommas(a[1..]);
      assert head + (StripCommas(a[1..]) + StripCommas(b)) == (head + StripCommas(a[1..])) + StripCommas(b);
    } else {
      assert a + b == b;
    }
  }

  /** Removing the commas gives back the digits. */
  lemma {:induction false} StripSeparate(s: string)
    requires AllDigits(s)
    ensures StripCommas(Separate(s)) == s
  {
    if s != [] {
      var sep := if |s| > 1 && (|s| - 1) % 3 == 0 then "," else "";
      StripCommasAppend([s[0]] + sep, Separate(s[1..]));
      StripCommasAppend([s[0]], sep);
      StripSeparate(s[1..]);
    }
  }

  /** A comma is added for every full group of three after the first digit. */
  lemma {:induction false} SeparateLength(s: string)
    requires |s| >= 1 && AllDigits(s)
    ensures |Separate(s)| == |s| + (|s| - 1) / 3
  {
    if |s| > 1 {
      SeparateLength(s[1..]);
    }
  }

  /** The first and the last character of the result are digits. */
  lemma {:induction false} SeparateEnds(s: string)
    requires |s| >= 1 && AllDigits(s)
    ensures |Separate(s)| >= 1
    ensures Separate(s)[0] == s[0]
    ensures Separate(s)[|Separate(s)| - 1] == s[|s| - 1]
  {
    if |s| > 1 {
      SeparateEnds(s[1..]);
    }
  }

  lemma {:induction false} SeparateShort(s: string)
    requires |s| <= 3 && AllDigits(s)
    ensures Separate(s) == s
  {
    if s != [] {
      SeparateShort(s[1..]);
    }
  }

  /** Splitting off a tail whose length is a positive multiple of three puts a
      comma at the split and changes nothing on either side. */
  lemma {:induction false} SeparateAppend(p: string, q: string)
    requires AllDigits(p) && AllDigits(q)
    requires |p| >= 1 && |q| > 0 && |q| % 3 == 0
    ensures Separate(p + q) == Separate(p) + "," + Separate(q)
  {
    assert (p + q)[0] == p[0];
    assert (p + q)[1..] == p[1..] + q;
    if |p| > 1 {
      SeparateAppend(p[1..], q);
    }
  }

  /** The regular expression produces exactly the reference grouping. */
  lemma {:induction false} SeparateIsJoinedGroups(s: string)
    requires |s| >= 1 && AllDigits(s)
    ensures Separate(s) == Join(Groups(s))
    decreases |s|
  {
    if |s| <= 3 {
      SeparateShort(s);
    } else {
      var front, back := s[..|s| - 3], s[|s| - 3..];
      assert s == front + back;
      SeparateAppend(front, back);
      SeparateShort(back);
      SeparateIsJoinedGroups(front);
      var gs := Groups(s);
      assert gs == Groups(front) + [back];
      assert gs[..|gs| - 1] == Groups(front);
    }
  }

  // ---------------------------------------------------------------------
  // numberWithCommas

  /** The number shown by a string of digits and commas. */
  function ShownValue(t: string): nat
    requires AllDigits(StripCommas(t))
  {
    ValueOf(StripCommas(t))
  }

  /** Two counts are displayed alike only when they are equal. */
  lemma NumberWithCommasInjective(m: nat, n: nat)
    requires NumberWithCommas(m) == NumberWithCommas(n)
    ensures m == n
  {
  }

  /** `numberWithCommas(n)` is the digits of `n` in groups: the first group has
      one to three digits, every later group exactly three (see `Groups`), with
      one comma between neighbours. */
  lemma NumberWithCommasGroups(n: nat)
    ensures NumberWithCommas(n) == Join(Groups(Decimal(n)))
  {
    SeparateIsJoinedGroups(Decimal(n));
  }

  /** The text starts and ends with a digit and adds one comma for every full
      group of three digits after the first digit. */
  lemma NumberWithCommasShape(n: nat)
    ensures NumberWithCommas(n)[0] != ','
    ensures NumberWithCommas(n)[|NumberWithCommas(n)| - 1] != ','
    ensures |NumberWithCommas(n)| == |Decimal(n)| + (|Decimal(n)| - 1) / 3
  {
    SeparateEnds(Decimal(n));
    SeparateLength(Decimal(n));
  }

  /** Numbers below 1000 come back unchanged; from 1000 on a comma appears. */
  lemma NumberWithCommasBelowThousand(n: nat)
    ensures n < 1000 ==> NumberWithCommas(n) == Decimal(n)
    ensures n >= 1000 ==> ',' in NumberWithCommas(n)
  {
    var s := Decimal(n);
    DecimalLength(n, 3);
    assert Pow10(3) == 1000;
    if n < 1000 {
      SeparateShort(s);
    } else {
      var front, back := s[..|s| - 3], s[|s| - 3..];
      assert s == front + back;
      SeparateAppend(front, back);
      var t := Separate(front) + "," + Separate(back);
      assert t[|Separate(front)|] == ',';
    }
  }
}
