/**
  The input checks `validate_date` and `validate_time` (Graph.cpp).  Both
  match the whole string against an ECMAScript regular expression built
  only from `\d{n}` and literal separators, so a pattern here is a
  sequence of single-character glyphs, `\d{4}` being four `Digit` glyphs.
 */
module Validation {

  /** One position of a pattern: `\d` (an ASCII digit) or a literal character. */
  datatype Glyph = Digit | Literal(c: char)

  predicate IsDigit(c: char) {
    '0' <= c <= '9'
  }

  predicate Fits(c: char, g: Glyph) {
    match g
    case Digit => IsDigit(c)
    case Literal(l) => c == l
  }

  /** `regex_match`: the pattern must account for the whole string, no more and no less. */
  predicate Matches(s: string, p: seq<Glyph>)
    decreases |p|
  {
    if |p| == 0 then |s| == 0
    else |s| > 0 && Fits(s[0], p[0]) && Matches(s[1..], p[1..])
  }

  /** A whole-string match is a position-by-position fit of equal lengths. */
  lemma {:induction false} MatchesIffFits(s: string, p: seq<Glyph>)
    ensures Matches(s, p) <==> |s| == |p| && forall i :: 0 <= i < |s| ==> Fits(s[i], p[i])
    decreases |p|
  {
    if |p| > 0 && |s| > 0 {
      MatchesIffFits(s[1..], p[1..]);
      if |s| == |p| && Fits(s[0], p[0]) {
        if Matches(s[1..], p[1..]) {
          forall i | 0 <= i < |s|
            ensures Fits(s[i], p[i])
          {
            if i > 0 {
              assert s[1..][i - 1] == s[i] && p[1..][i - 1] == p[i];
            }
          }
        } else {
          var i :| 0 <= i < |s[1..]| && !Fits(s[1..][i], p[1..][i]);
          assert !Fits(s[i + 1], p[i + 1]);
        }
      }
    }
  }

  /** `n` copies of `\d`. */
  function Digits(n: nat): (r: seq<Glyph>)
    ensures |r| == n && forall i :: 0 <= i < n ==> r[i] == Digit
  {
    if n == 0 then [] else [Digit] + Digits(n - 1)
  }

  /** `^\d{4}-\d{2}-\d{2}$` */
  function DatePattern(): seq<Glyph> {
    Digits(4) + [Literal('-')] + Digits(2) + [Literal('-')] + Digits(2)
  }

  /** `^\d{2}:\d{2}$` */
  function TimePattern(): seq<Glyph> {
    Digits(2) + [Literal(':')] + Digits(2)
  }

  /**
    `validate_date`: exactly ten characters, dashes at positions 4 and 7,
    digits everywhere else.  The month and day are not range-checked.
   */
  function ValidateDate(date: string): (r: bool)
    ensures r <==> (|date| == 10 && date[4] == '-' && date[7] == '-' &&
                    forall i :: 0 <= i < 10 && i != 4 && i != 7 ==> IsDigit(date[i]))
  {
    var p := DatePattern();
    MatchesIffFits(date, p);
    assert |p| == 10 && p[4] == Literal('-') && p[7] == Literal('-');
    assert forall i :: 0 <= i < 10 && i != 4 && i != 7 ==> p[i] == Digit;
    Matches(date, p)
  }

  /**
    `validate_time`: exactly five characters, a colon at position 2 and
    digits everywhere else.  Hours and minutes are not range-checked.
   */
  function ValidateTime(time: string): (r: bool)
    ensures r <==> (|time| == 5 && time[2] == ':' &&
                    forall i :: 0 <= i < 5 && i != 2 ==> IsDigit(time[i]))
  {
    var p := TimePattern();
    MatchesIffFits(time, p);
    assert |p| == 5 && p[2] == Literal(':');
    assert forall i :: 0 <= i < 5 && i != 2 ==> p[i] == Digit;
    Matches(time, p)
  }

  /** Shape only: a thirteenth month and a 45th day pass. */
  lemma DateNotRangeChecked()
    ensures ValidateDate("2024-13-45")
  {
    var d := "2024-13-45";
    assert d[4] == '-' && d[7] == '-';
    assert forall i :: 0 <= i < 10 && i != 4 && i != 7 ==> IsDigit(d[i]) by {
      assert IsDigit(d[0]) && IsDigit(d[1]) && IsDigit(d[2]) && IsDigit(d[3]) && IsDigit(d[5]);
      assert IsDigit(d[6]) && IsDigit(d[8]) && IsDigit(d[9]);
    }
  }

  /** Shape only: hour 25 and minute 99 pass. */
  lemma TimeNotRangeChecked()
    ensures ValidateTime("25:99")
  {
    var t := "25:99";
    assert IsDigit(t[0]) && IsDigit(t[1]) && t[2] == ':' && IsDigit(t[3]) && IsDigit(t[4]);
  }

  /** Padding is required: a one-digit month or hour is rejected, as is trailing text. */
  lemma ShapeIsExact()
    ensures !ValidateDate("2024-1-05")
    ensures !ValidateDate("2024-01-05 ")
    ensures !ValidateTime("9:30")
  {
    assert |"2024-1-05"| == 9 && |"2024-01-05 "| == 11 && |"9:30"| == 4;
  }
}
