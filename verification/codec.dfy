/**
  The one-line record format of events, `id,name,date,start,end[,dep]*`,
  written by `operator<<` and by `EventGraph::saveEvents`, and read back by
  `operator>>` (AVLTree.h).

  Reading is modelled on the exact behaviour of the two library routines
  it is built from: `std::getline` with a delimiter on a string stream,
  and `std::stoi`.
 */
module Codec {
  import opened Wrappers
  import opened Events

  /** The failures `std::stoi` reports by throwing. */
  datatype ConvError = InvalidArgument | OutOfRange

  /**
    An input stream over a string: the text not yet read and the `eof` and
    `fail` state bits.
   */
  datatype Stream = Stream(rest: string, eof: bool, fail: bool)

  /** A fresh `std::stringstream` over `s`. */
  function Open(s: string): Stream {
    Stream(s, false, false)
  }

  /** Whether the sentry of an input operation succeeds. */
  predicate Good(st: Stream) {
    !st.eof && !st.fail
  }

  /** What is left to read, counting a good state as one more step. */
  function Remaining(st: Stream): nat {
    |st.rest| + (if Good(st) then 1 else 0)
  }

  /** The position of the first `c` in `s`. */
  function Find(s: string, c: char): (r: Option<nat>)
    ensures r.None? <==> c !in s
    ensures r.Some? ==> r.value < |s| && s[r.value] == c
    ensures r.Some? ==> forall k :: 0 <= k < r.value ==> s[k] != c
  {
    if |s| == 0 then None
    else if s[0] == c then Some(0)
    else
      match Find(s[1..], c)
      case None => None
      case Some(i) => Some(i + 1)
  }

  /**
    `std::getline(st, target, delim)`, returning the stream and the new
    value of `target`.  When the stream is not good the sentry fails and
    `target` keeps its value; otherwise `target` is cleared and receives
    the characters up to the delimiter, which is consumed.  Reaching the
    end sets `eof`, and extracting nothing at all sets `fail`.
   */
  function GetLine(st: Stream, target: string, delim: char): (r: (Stream, string))
    ensures !Good(st) ==> r.0.fail && r.1 == target
    ensures !r.0.fail ==> Remaining(r.0) < Remaining(st) && delim !in r.1
  {
    if !Good(st) then (st.(fail := true), target)
    else if |st.rest| == 0 then (Stream("", true, true), "")
    else
      match Find(st.rest, delim)
      case Some(i) => (Open(st.rest[i + 1..]), st.rest[..i])
      case None => (Stream("", true, false), st.rest)
  }

  /** A line ended by the delimiter is read whole, and the stream stays good after it. */
  lemma GetLineSplit(tok: string, delim: char, rest: string, target: string)
    requires delim !in tok
    ensures GetLine(Open(tok + [delim] + rest), target, delim) == (Open(rest), tok)
  {
    var s := tok + [delim] + rest;
    assert s[|tok|] == delim;
    assert s[..|tok|] == tok && s[|tok| + 1..] == rest;
    assert forall k :: 0 <= k < |tok| ==> s[k] == tok[k] && tok[k] != delim;
  }

  /**
    A nonempty last field, not followed by the delimiter, is read whole and
    leaves the stream at its end with `eof` set but not `fail`.
   */
  lemma GetLineLast(tok: string, delim: char, target: string)
    requires delim !in tok && |tok| > 0
    ensures GetLine(Open(tok), target, delim) == (Stream("", true, false), tok)
  {
  }

  /** Whitespace in the C locale, as `isspace` classifies it. */
  predicate IsSpace(c: char) {
    c == ' ' || c == '\t' || c == '\n' || c == '\U{000B}' || c == '\U{000C}' || c == '\r'
  }

  predicate IsDigit(c: char) {
    '0' <= c <= '9'
  }

  function DigitValue(c: char): int {
    c as int - '0' as int
  }

  function DigitChar(d: nat): (c: char)
    requires d < 10
    ensures IsDigit(c) && DigitValue(c) == d
  {
    ('0' as int + d) as char
  }

  /** The first position at or after `i` that does not hold whitespace. */
  function SkipSpaces(s: string, i: nat): (j: nat)
    requires i <= |s|
    ensures i <= j <= |s|
    decreases |s| - i
  {
    if i < |s| && IsSpace(s[i]) then SkipSpaces(s, i + 1) else i
  }

  /** The first position at or after `i` that does not hold a decimal digit. */
  function SkipDigits(s: string, i: nat): (j: nat)
    requires i <= |s|
    ensures i <= j <= |s|
    decreases |s| - i
  {
    if i < |s| && IsDigit(s[i]) then SkipDigits(s, i + 1) else i
  }

  /** The value of the decimal digits `s[lo..hi]`. */
  function DigitsValue(s: string, lo: nat, hi: nat): int
    requires lo <= hi <= |s|
    decreases hi
  {
    if hi == lo then 0 else DigitsValue(s, lo, hi - 1) * 10 + DigitValue(s[hi - 1])
  }

  /**
    `std::stoi(token)`: leading whitespace, an optional sign, then the
    longest run of decimal digits; anything after the digits is ignored.
    No digits is `InvalidArgument`, a value outside `int` is `OutOfRange`.
   */
  function Stoi(token: string): Result<Int32, ConvError> {
    var i := SkipSpaces(token, 0);
    var signed := i < |token| && (token[i] == '-' || token[i] == '+');
    var j := if signed then i + 1 else i;
    var k := SkipDigits(token, j);
    if k == j then Err(InvalidArgument)
    else
      var magnitude := DigitsValue(token, j, k);
      var v := if signed && token[i] == '-' then -magnitude else magnitude;
      if IntMin <= v <= IntMax then Ok(v) else Err(OutOfRange)
  }

  /** The decimal digits of `n`, most significant first, without leading zeros. */
  function NatToString(n: nat): (s: string)
    ensures |s| > 0 && forall i :: 0 <= i < |s| ==> IsDigit(s[i])
  {
    if n < 10 then [DigitChar(n)] else NatToString(n / 10) + [DigitChar(n % 10)]
  }

  /** How `os << n` writes an `int`. */
  function IntToString(n: int): string {
    if n < 0 then "-" + NatToString(-n) else NatToString(n)
  }

  /** Digits that agree, at an offset, have the same value. */
  lemma {:induction false} DigitsValueShift(s: string, t: string, off: nat, lo: nat, hi: nat)
    requires lo <= hi <= |t| && off + hi <= |s|
    requires forall k :: lo <= k < hi ==> s[off + k] == t[k]
    ensures DigitsValue(s, off + lo, off + hi) == DigitsValue(t, lo, hi)
    decreases hi
  {
    if hi > lo {
      DigitsValueShift(s, t, off, lo, hi - 1);
    }
  }

  lemma {:induction false} NatToStringValue(n: nat)
    ensures DigitsValue(NatToString(n), 0, |NatToString(n)|) == n
  {
    if n >= 10 {
      var s := NatToString(n);
      var p := NatToString(n / 10);
      assert s == p + [DigitChar(n % 10)];
      NatToStringValue(n / 10);
      DigitsValueShift(s, p, 0, 0, |p|);
    }
  }

  lemma {:induction false} SkipDigitsAll(s: string, i: nat)
    requires i <= |s| && forall k :: i <= k < |s| ==> IsDigit(s[k])
    ensures SkipDigits(s, i) == |s|
    decreases |s| - i
  {
    if i < |s| {
      SkipDigitsAll(s, i + 1);
    }
  }

  /** `stoi` of a digit string is its value when that fits. */
  lemma StoiDigits(digits: string)
    requires |digits| > 0 && forall i :: 0 <= i < |digits| ==> IsDigit(digits[i])
    requires 0 <= DigitsValue(digits, 0, |digits|) <= IntMax
    ensures Stoi(digits) == Ok(DigitsValue(digits, 0, |digits|))
  {
    assert SkipSpaces(digits, 0) == 0;
    SkipDigitsAll(digits, 0);
  }

  /** `stoi` of a minus sign and a digit string is the negated value when that fits. */
  lemma StoiNegative(digits: string)
    requires |digits| > 0 && forall i :: 0 <= i < |digits| ==> IsDigit(digits[i])
    requires IntMin <= -DigitsValue(digits, 0, |digits|) <= 0
    ensures Stoi("-" + digits) == Ok(-DigitsValue(digits, 0, |digits|))
  {
    var s := "-" + digits;
    assert SkipSpaces(s, 0) == 0;
    SkipDigitsAll(s, 1);
    DigitsValueShift(s, digits, 1, 0, |digits|);
  }

  /** `SkipSpaces` from `i` stops at `hi` when only whitespace lies in between and none follows. */
  lemma {:induction false} SkipSpacesTo(s: string, i: nat, hi: nat)
    requires i <= hi <= |s| && forall k :: i <= k < hi ==> IsSpace(s[k])
    requires hi < |s| ==> !IsSpace(s[hi])
    ensures SkipSpaces(s, i) == hi
    decreases hi - i
  {
    if i < hi {
      SkipSpacesTo(s, i + 1, hi);
    }
  }

  /** `SkipDigits` from `i` stops at `hi` when only digits lie in between and none follows. */
  lemma {:induction false} SkipDigitsTo(s: string, i: nat, hi: nat)
    requires i <= hi <= |s| && forall k :: i <= k < hi ==> IsDigit(s[k])
    requires hi < |s| ==> !IsDigit(s[hi])
    ensures SkipDigits(s, i) == hi
    decreases hi - i
  {
    if i < hi {
      SkipDigitsTo(s, i + 1, hi);
    }
  }

  /**
    Leading whitespace is skipped and whatever follows the digits is
    ignored: the surroundings do not change what `stoi` makes of the digits.
   */
  lemma StoiIgnoresSurroundings(pre: string, digits: string, post: string)
    requires forall k :: 0 <= k < |pre| ==> IsSpace(pre[k])
    requires |digits| > 0 && forall k :: 0 <= k < |digits| ==> IsDigit(digits[k])
    requires |post| > 0 ==> !IsDigit(post[0])
    ensures Stoi(pre + digits + post) == Stoi(digits)
  {
    var s := pre + digits + post;
    var a, b := |pre|, |pre| + |digits|;
    assert forall k :: a <= k < b ==> s[k] == digits[k - a];
    SkipSpacesTo(s, 0, a);
    assert s[a] == digits[0];
    SkipDigitsTo(s, a, b);
    DigitsValueShift(s, digits, a, 0, |digits|);
    assert SkipSpaces(digits, 0) == 0;
    SkipDigitsAll(digits, 0);
  }

  /** A token without a single digit is rejected as an invalid argument. */
  lemma StoiRejects(token: string)
    requires forall k :: 0 <= k < |token| ==> !IsDigit(token[k])
    ensures Stoi(token) == Err(InvalidArgument)
  {
    var i := SkipSpaces(token, 0);
    var j := if i < |token| && (token[i] == '-' || token[i] == '+') then i + 1 else i;
    SkipDigitsTo(token, j, j);
  }

  /** Digits whose value exceeds the largest `int` are out of range. */
  lemma StoiOverflows(digits: string)
    requires |digits| > 0 && forall k :: 0 <= k < |digits| ==> IsDigit(digits[k])
    requires DigitsValue(digits, 0, |digits|) > IntMax
    ensures Stoi(digits) == Err(OutOfRange)
  {
    assert SkipSpaces(digits, 0) == 0;
    SkipDigitsAll(digits, 0);
  }

  /** A minus sign before digits whose value exceeds the magnitude of the least `int` is out of range. */
  lemma StoiUnderflows(digits: string)
    requires |digits| > 0 && forall k :: 0 <= k < |digits| ==> IsDigit(digits[k])
    requires -DigitsValue(digits, 0, |digits|) < IntMin
    ensures Stoi("-" + digits) == Err(OutOfRange)
  {
    var s := "-" + digits;
    assert SkipSpaces(s, 0) == 0;
    SkipDigitsAll(s, 1);
    DigitsValueShift(s, digits, 1, 0, |digits|);
  }

  /** Nothing `<<` writes for an `int` contains a comma or a line end. */
  lemma IntToStringPlain(n: int)
    ensures ',' !in IntToString(n) && '\n' !in IntToString(n)
  {
    var s := IntToString(n);
    var digits := NatToString(if n < 0 then -n else n);
    forall i | 0 <= i < |s|
      ensures s[i] != ',' && s[i] != '\n'
    {
      if n < 0 && i > 0 {
        assert s[i] == digits[i - 1];
      }
    }
  }

  /** `stoi` reads back every `int` that `<<` writes. */
  lemma StoiIntToString(n: Int32)
    ensures Stoi(IntToString(n)) == Ok(n)
    ensures ',' !in IntToString(n) && '\n' !in IntToString(n)
  {
    var m: nat := if n < 0 then -(n as int) else n;
    NatToStringValue(m);
    if n < 0 {
      StoiNegative(NatToString(m));
    } else {
      StoiDigits(NatToString(m));
    }
    IntToStringPlain(n);
  }

  /** The least element of a nonempty set. */
  function Least(s: set<Int32>): (m: Int32)
    requires s != {}
    ensures m in s && forall x :: x in s ==> m <= x
  {
    HasLeast(s);
    var m :| m in s && forall x :: x in s ==> m <= x;
    m
  }

  lemma HasLeast(s: set<Int32>)
    requires s != {}
    ensures exists m :: m in s && forall x :: x in s ==> m <= x
  {
    var m := LeastOf(s);
  }

  lemma {:induction false} LeastOf(s: set<Int32>) returns (m: Int32)
    requires s != {}
    ensures m in s && forall x :: x in s ==> m <= x
    decreases |s|
  {
    var y :| y in s;
    if s == {y} {
      return y;
    }
    var below := LeastOf(s - {y});
    m := if y < below then y else below;
    forall x | x in s
      ensures m <= x
    {
      if x != y {
        assert x in s - {y};
      }
    }
  }

  /** The elements of a `std::set<int>` in the order its iteration visits them: ascending. */
  function Ascending(s: set<Int32>): (r: seq<Int32>)
    ensures forall i, j :: 0 <= i < j < |r| ==> r[i] < r[j]
    ensures forall x :: x in r <==> x in s
    decreases |s|
  {
    if s == {} then []
    else
      var m := Least(s);
      var tail := Ascending(s - {m});
      assert forall x :: x in tail ==> m < x;
      [m] + tail
  }

  /** Fields joined by commas, as `<<` separates them. */
  function Join(fs: seq<string>): string
    requires |fs| > 0
  {
    if |fs| == 1 then fs[0] else fs[0] + "," + Join(fs[1..])
  }

  /** How `<<` writes each dependency. */
  function Tokens(ds: seq<Int32>): (r: seq<string>)
    ensures |r| == |ds|
  {
    if |ds| == 0 then [] else [IntToString(ds[0])] + Tokens(ds[1..])
  }

  /** The fields of a record: id, name, date, start, end, then the dependencies in ascending order. */
  function Fields(e: Event): seq<string> {
    [IntToString(e.id), e.name, e.date, e.startTime, e.endTime] + Tokens(Ascending(e.dependencies))
  }

  /** `operator<<(ostream&, const Event&)`: one record, without a line end. */
  function Write(e: Event): string {
    Join(Fields(e))
  }

  /** The dependency loop of `operator>>`: every further field is converted and added to the set. */
  function ReadDeps(ss: Stream, token: string, acc: set<Int32>): Result<set<Int32>, ConvError>
    decreases Remaining(ss)
  {
    var g := GetLine(ss, token, ',');
    if g.0.fail then Ok(acc)
    else
      var d :- Stoi(g.1);
      ReadDeps(g.0, g.1, acc + {d})
  }

  /**
    The body of `operator>>` once a line has been read: the fields are
    read into a copy of `e`, so a field missing from the line keeps the
    value `e` had, and the dependencies are added to those `e` had.
   */
  function ParseLine(line: string, e: Event): Result<Event, ConvError> {
    var s1 := GetLine(Open(line), "", ',');
    var id :- Stoi(s1.1);
    var s2 := GetLine(s1.0, e.name, ',');
    var s3 := GetLine(s2.0, e.date, ',');
    var s4 := GetLine(s3.0, e.startTime, ',');
    var s5 := GetLine(s4.0, e.endTime, ',');
    var deps :- ReadDeps(s5.0, s1.1, e.dependencies);
    Ok(Event(id, s2.1, s3.1, s4.1, s5.1, deps))
  }

  /**
    `operator>>(istream&, Event&)`: read one line; at the end of the input
    the event is left as it was.
   */
  function Read(input: Stream, e: Event): (r: Result<(Stream, Event), ConvError>)
    ensures !Good(input) ==> r == Ok((input.(fail := true), e))
    ensures r.Ok? && !r.value.0.fail ==> Remaining(r.value.0) < Remaining(input)
  {
    var g := GetLine(input, "", '\n');
    if g.0.fail then Ok((g.0, e))
    else
      var ev :- ParseLine(g.1, e);
      Ok((g.0, ev))
  }

  /** `EventGraph::saveEvents`: every event in turn, each line ended by `endl`. */
  function SaveText(es: seq<Event>): string {
    if |es| == 0 then "" else Write(es[0]) + "\n" + SaveText(es[1..])
  }

  /** A text field the format can carry: no field separator and no line end. */
  predicate Plain(s: string) {
    ',' !in s && '\n' !in s
  }

  predicate Writable(e: Event) {
    Plain(e.name) && Plain(e.date) && Plain(e.startTime) && Plain(e.endTime)
  }

  /** `toks` are nonempty plain fields that `stoi` converts to `vals`. */
  predicate Converts(toks: seq<string>, vals: seq<Int32>) {
    |toks| == |vals| &&
    forall i :: 0 <= i < |toks| ==> Plain(toks[i]) && |toks[i]| > 0 && Stoi(toks[i]) == Ok(vals[i])
  }

  /** Every dependency `<<` writes is a plain field that `stoi` reads back. */
  lemma {:induction false} TokensConvert(ds: seq<Int32>)
    ensures Converts(Tokens(ds), ds)
    decreases |ds|
  {
    if |ds| > 0 {
      TokensConvert(ds[1..]);
      TokenConverts(ds[0]);
      var t := Tokens(ds);
      forall i | 0 <= i < |t|
        ensures Plain(t[i]) && |t[i]| > 0 && Stoi(t[i]) == Ok(ds[i])
      {
        if i > 0 {
          assert t[i] == Tokens(ds[1..])[i - 1];
        }
      }
    }
  }

  lemma TokenConverts(d: Int32)
    ensures Converts([IntToString(d)], [d])
  {
    StoiIntToString(d);
  }

  lemma {:induction false} JoinPlain(fs: seq<string>)
    requires |fs| > 0 && forall i :: 0 <= i < |fs| ==> '\n' !in fs[i]
    ensures '\n' !in Join(fs)
    decreases |fs|
  {
    if |fs| > 1 {
      JoinPlain(fs[1..]);
    }
  }

  /** A record holds no line end, so it is exactly one line. */
  lemma WriteIsOneLine(e: Event)
    requires Writable(e)
    ensures '\n' !in Write(e)
  {
    var ds := Ascending(e.dependencies);
    TokensConvert(ds);
    IntToStringPlain(e.id);
    var fs := [IntToString(e.id), e.name, e.date, e.startTime, e.endTime] + Tokens(ds);
    forall i | 0 <= i < |fs|
      ensures '\n' !in fs[i]
    {
      if i >= 5 {
        assert fs[i] == Tokens(ds)[i - 5];
      }
    }
    JoinPlain(fs);
  }

  /** Once the stream has failed or reached its end, the dependency loop stops. */
  lemma ReadDepsStops(ss: Stream, token: string, acc: set<Int32>)
    requires !Good(ss)
    ensures ReadDeps(ss, token, acc) == Ok(acc)
  {
  }

  /** One dependency followed by a comma is converted and added, and the loop goes on after the comma. */
  lemma ReadDepsStep(tok: string, rest: string, v: Int32, token: string, acc: set<Int32>, r: set<Int32>)
    requires ',' !in tok && Stoi(tok) == Ok(v)
    requires ReadDeps(Open(rest), tok, acc + {v}) == Ok(r)
    ensures ReadDeps(Open(tok + [','] + rest), token, acc) == Ok(r)
  {
    GetLineSplit(tok, ',', rest, token);
  }

  lemma ConvertsTail(toks: seq<string>, vals: seq<Int32>)
    requires |toks| > 0 && Converts(toks, vals)
    ensures Converts(toks[1..], vals[1..])
  {
    forall i | 0 <= i < |toks| - 1
      ensures Stoi(toks[1..][i]) == Ok(vals[1..][i])
    {
      assert toks[1..][i] == toks[i + 1];
    }
  }

  /** The last dependency is converted and added, and the loop ends. */
  lemma ReadDepsLast(tok: string, token: string, acc: set<Int32>)
    requires ',' !in tok && |tok| > 0 && Stoi(tok).Ok?
    ensures ReadDeps(Open(tok), token, acc) == Ok(acc + {Stoi(tok).value})
  {
    GetLineLast(tok, ',', token);
    ReadDepsStops(Stream("", true, false), tok, acc + {Stoi(tok).value});
  }

  lemma ReadDepsSingle(toks: seq<string>, vals: seq<Int32>, token: string, acc: set<Int32>)
    requires |toks| == 1 && Converts(toks, vals)
    ensures ReadDeps(Open(Join(toks)), token, acc) == Ok(acc + set v | v in vals)
  {
    assert Join(toks) == toks[0];
    ReadDepsLast(toks[0], token, acc);
    assert (set v | v in vals) == {vals[0]};
    assert acc + {vals[0]} == acc + set v | v in vals;
  }

  /** The dependency loop reads back every dependency of a comma-separated list. */
  lemma {:induction false} ReadDepsJoin(toks: seq<string>, vals: seq<Int32>, token: string, acc: set<Int32>)
    requires |toks| > 0 && Converts(toks, vals)
    ensures ReadDeps(Open(Join(toks)), token, acc) == Ok(acc + set v | v in vals)
    decreases |toks|
  {
    if |toks| == 1 {
      ReadDepsSingle(toks, vals, token, acc);
    } else {
      var rest := Join(toks[1..]);
      assert Join(toks) == toks[0] + [','] + rest;
      ConvertsTail(toks, vals);
      ReadDepsJoin(toks[1..], vals[1..], toks[0], acc + {vals[0]});
      var r := acc + {vals[0]} + set v | v in vals[1..];
      ReadDepsStep(toks[0], rest, vals[0], token, acc, r);
      assert r == acc + set v | v in vals;
    }
  }

  /** The end-time field, and the dependencies that may follow it. */
  lemma ReadLastFields(fs: seq<string>, vals: seq<Int32>, target: string, token: string, acc: set<Int32>)
    requires |fs| > 0 && Plain(fs[0]) && Converts(fs[1..], vals)
    ensures var g := GetLine(Open(Join(fs)), target, ',');
            g.1 == fs[0] && ReadDeps(g.0, token, acc) == Ok(acc + set v | v in vals)
  {
    var g := GetLine(Open(Join(fs)), target, ',');
    if |fs| == 1 {
      assert Join(fs) == fs[0] && |vals| == 0;
      assert (set v | v in vals) == {};
      assert acc + (set v | v in vals) == acc;
      if |fs[0]| > 0 {
        GetLineLast(fs[0], ',', target);
      }
      ReadDepsStops(g.0, token, acc);
    } else {
      assert Join(fs) == fs[0] + [','] + Join(fs[1..]);
      GetLineSplit(fs[0], ',', Join(fs[1..]), target);
      ReadDepsJoin(fs[1..], vals, fs[0], acc);
    }
  }

  /** Reading one plain field and its comma leaves the stream at the remaining fields. */
  lemma ReadField(fs: seq<string>, target: string)
    requires |fs| > 1 && Plain(fs[0])
    ensures GetLine(Open(Join(fs)), target, ',') == (Open(Join(fs[1..])), fs[0])
  {
    assert Join(fs) == fs[0] + [','] + Join(fs[1..]);
    GetLineSplit(fs[0], ',', Join(fs[1..]), target);
  }

  /**
    Parsing a line of comma-separated fields: the first converts to the
    id, the next four are the text fields and the rest are dependencies.
   */
  lemma ParseLineJoin(fs: seq<string>, id: Int32, vals: seq<Int32>, into: Event)
    requires |fs| >= 5 && forall i :: 0 <= i < 5 ==> Plain(fs[i])
    requires Stoi(fs[0]) == Ok(id) && Converts(fs[5..], vals)
    ensures ParseLine(Join(fs), into)
         == Ok(Event(id, fs[1], fs[2], fs[3], fs[4], into.dependencies + set v | v in vals))
  {
    ReadField(fs, "");
    ReadField(fs[1..], into.name);
    ReadField(fs[2..], into.date);
    ReadField(fs[3..], into.startTime);
    assert fs[1..][1..] == fs[2..] && fs[2..][1..] == fs[3..] && fs[3..][1..] == fs[4..];
    assert fs[4..][1..] == fs[5..];
    ReadLastFields(fs[4..], vals, into.endTime, fs[0], into.dependencies);
  }

  /** `ParseLineJoin` for the fields of one record, named one by one. */
  lemma ParseRecord(idTok: string, name: string, date: string, start: string, end: string,
                    toks: seq<string>, id: Int32, vals: seq<Int32>, into: Event)
    requires Plain(idTok) && Plain(name) && Plain(date) && Plain(start) && Plain(end)
    requires Stoi(idTok) == Ok(id) && Converts(toks, vals)
    ensures ParseLine(Join([idTok, name, date, start, end] + toks), into)
         == Ok(Event(id, name, date, start, end, into.dependencies + set v | v in vals))
  {
    var fs := [idTok, name, date, start, end] + toks;
    assert fs[5..] == toks;
    ParseLineJoin(fs, id, vals, into);
  }

  /**
    Parsing a written record recovers the event: every field, and the
    dependencies added to those of the event read into.
   */
  lemma ParseLineWrite(e: Event, into: Event)
    requires Writable(e)
    ensures ParseLine(Write(e), into) == Ok(e.(dependencies := into.dependencies + e.dependencies))
  {
    var ds := Ascending(e.dependencies);
    IdField(e.id);
    DependencyFields(ds);
    ParseRecord(IntToString(e.id), e.name, e.date, e.startTime, e.endTime, Tokens(ds), e.id, ds, into);
    var read := into.dependencies + set v | v in ds;
    assert read == into.dependencies + e.dependencies;
    assert Event(e.id, e.name, e.date, e.startTime, e.endTime, read) == e.(dependencies := read);
  }

  lemma IdField(id: Int32)
    ensures Plain(IntToString(id)) && Stoi(IntToString(id)) == Ok(id)
  {
    StoiIntToString(id);
  }

  lemma DependencyFields(ds: seq<Int32>)
    ensures Converts(Tokens(ds), ds)
  {
    TokensConvert(ds);
  }

  /**
    Reading a written record followed by a line end, from a fresh stream,
    recovers the event and leaves the stream good at the next line.
   */
  lemma ReadWrite(e: Event, next: string, into: Event)
    requires Writable(e)
    ensures Read(Open(Write(e) + "\n" + next), into)
         == Ok((Open(next), e.(dependencies := into.dependencies + e.dependencies)))
  {
    WriteIsOneLine(e);
    GetLineSplit(Write(e), '\n', next, "");
    ParseLineWrite(e, into);
  }

  /**
    The file `saveEvents` writes reads back record by record: reading a
    default-constructed event from it yields the first event, and leaves
    the stream at the text saved for the others.
   */
  lemma SaveTextReadsBack(es: seq<Event>)
    requires |es| > 0 && Writable(es[0])
    ensures Read(Open(SaveText(es)), Blank) == Ok((Open(SaveText(es[1..])), es[0]))
  {
    ReadWrite(es[0], SaveText(es[1..]), Blank);
    assert es[0].(dependencies := Blank.dependencies + es[0].dependencies) == es[0];
  }

  /** At the end of the input `operator>>` fails the stream and leaves the event as it was. */
  lemma ReadAtEnd(e: Event)
    ensures Read(Open(""), e) == Ok((Stream("", true, true), e))
  {
  }

  /**
    Reading records one by one, each into a default-constructed event,
    until the stream fails; the first conversion error ends the whole read.
   */
  function ReadAll(input: Stream): Result<seq<Event>, ConvError>
    decreases Remaining(input)
  {
    var (next, e) :- Read(input, Blank);
    if next.fail then Ok([])
    else
      var more :- ReadAll(next);
      Ok([e] + more)
  }

  /** A file `saveEvents` wrote, with every text field plain, reads back as the same events in the same order. */
  lemma {:induction false} SaveTextLoads(es: seq<Event>)
    requires forall k :: 0 <= k < |es| ==> Writable(es[k])
    ensures ReadAll(Open(SaveText(es))) == Ok(es)
    decreases |es|
  {
    if |es| == 0 {
      ReadAtEnd(Blank);
    } else {
      SaveTextLoads(es[1..]);
      SaveTextLoadsStep(es);
    }
  }

  lemma SaveTextLoadsStep(es: seq<Event>)
    requires |es| > 0 && Writable(es[0])
    requires ReadAll(Open(SaveText(es[1..]))) == Ok(es[1..])
    ensures ReadAll(Open(SaveText(es))) == Ok(es)
  {
    SaveTextReadsBack(es);
    var r := Read(Open(SaveText(es)), Blank);
    assert r == Ok((Open(SaveText(es[1..])), es[0]));
    assert es == [es[0]] + es[1..];
  }
}
