/** String operations of Python's `str` that the pipeline relies on:
    `sep.join(parts)`, `s.split(sep)` and the decimal rendering of an
    `int` in an f-string. */
module Text {

  /** `sep.join(parts)`. */
  function Join(parts: seq<string>, sep: string): (r: string)
    ensures |parts| == 1 ==> r == parts[0]
    ensures |parts| == 0 ==> r == ""
  {
    if |parts| == 0 then ""
    else if |parts| == 1 then parts[0]
    else parts[0] + sep + Join(parts[1..], sep)
  }

  /** True when `sep` occurs somewhere in `s` as a substring. */
  predicate Occurs(sep: string, s: string)
    requires |sep| > 0
    decreases |s|
  {
    |s| >= |sep| && (s[..|sep|] == sep || Occurs(sep, s[1..]))
  }

  /** `s.split(sep)` for a non-empty separator: the pieces between the
      leftmost non-overlapping occurrences of `sep`, read from the left. */
  function Split(s: string, sep: string): (r: seq<string>)
    requires |sep| > 0
    ensures |r| >= 1
    decreases |s|
  {
    if |s| < |sep| then [s]
    else if s[..|sep|] == sep then [""] + Split(s[|sep|..], sep)
    else
      var rest := Split(s[1..], sep);
      [[s[0]] + rest[0]] + rest[1..]
  }

  /** A string without the separator is one piece. */
  lemma {:induction false} SplitWithoutSeparator(s: string, sep: string)
    requires |sep| > 0 && !Occurs(sep, s)
    ensures Split(s, sep) == [s]
    decreases |s|
  {
    if |s| >= |sep| {
      SplitWithoutSeparator(s[1..], sep);
      assert [s[0]] + s[1..] == s;
    }
  }

  const Comma: string := ", "

  /** With the separator ", " no occurrence can straddle a piece and the
      separator after it, so a piece free of ", " is cut off exactly. */
  lemma {:induction false} SplitAfterPiece(w: string, rest: string)
    requires !Occurs(Comma, w)
    ensures Split(w + Comma + rest, Comma) == [w] + Split(rest, Comma)
    decreases |w|
  {
    var s := w + Comma + rest;
    if |w| == 0 {
      assert s[..2] == Comma;
      assert s[2..] == rest;
    } else {
      assert s[1..] == w[1..] + Comma + rest;
      assert s[..2] != Comma by {
        if |w| >= 2 {
          assert s[..2] == w[..2];
        } else {
          assert s[1] == ',';
        }
      }
      assert !Occurs(Comma, w[1..]) by {
        if |w| < 2 { assert |w[1..]| < 2; }
      }
      SplitAfterPiece(w[1..], rest);
      assert [w[0]] + w[1..] == w;
    }
  }

  /** Splitting on ", " undoes joining with ", " when no piece contains
      the separator (there is always at least one piece after a split). */
  lemma {:induction false} SplitJoinRoundTrip(parts: seq<string>)
    requires |parts| >= 1
    requires forall i :: 0 <= i < |parts| ==> !Occurs(Comma, parts[i])
    ensures Split(Join(parts, Comma), Comma) == parts
    decreases |parts|
  {
    if |parts| == 1 {
      SplitWithoutSeparator(parts[0], Comma);
    } else {
      SplitJoinRoundTrip(parts[1..]);
      SplitAfterPiece(parts[0], Join(parts[1..], Comma));
      assert [parts[0]] + parts[1..] == parts;
    }
  }

  predicate IsDigit(c: char) {
    '0' <= c <= '9'
  }

  function DigitChar(d: nat): (c: char)
    requires d < 10
    ensures IsDigit(c) && c as int - '0' as int == d
  {
    ('0' as int + d) as char
  }

  /** Decimal digits of `n` with no leading zero. */
  function NatToString(n: nat): (s: string)
    ensures |s| >= 1
    ensures forall i :: 0 <= i < |s| ==> IsDigit(s[i])
    ensures |s| > 1 ==> s[0] != '0'
  {
    if n < 10 then [DigitChar(n)] else NatToString(n / 10) + [DigitChar(n % 10)]
  }

  /** `f"{i}"` for a Python `int`: an optional minus sign, then the digits. */
  function IntToString(i: int): (s: string)
    ensures |s| >= 1 && (s[0] == '-' <==> i < 0)
  {
    if i < 0 then "-" + NatToString(-i) else NatToString(i)
  }

  /** The value of a string of decimal digits. */
  function DigitsValue(s: string): nat
    requires forall i :: 0 <= i < |s| ==> IsDigit(s[i])
  {
    if s == [] then 0
    else
      assert IsDigit(s[|s| - 1]);
      DigitsValue(s[..|s| - 1]) * 10 + (s[|s| - 1] as int - '0' as int)
  }

  /** Reading the digits back gives the number: the rendering loses nothing. */
  lemma {:induction false} NatToStringRoundTrip(n: nat)
    ensures DigitsValue(NatToString(n)) == n
  {
    if n >= 10 {
      NatToStringRoundTrip(n / 10);
      var s := NatToString(n);
      assert s[..|s| - 1] == NatToString(n / 10);
    }
  }

  lemma NatToStringInjective(a: nat, b: nat)
    requires NatToString(a) == NatToString(b)
    ensures a == b
  {
    NatToStringRoundTrip(a);
    NatToStringRoundTrip(b);
  }

  /** Distinct integers render differently, so names built from them differ. */
  lemma IntToStringInjective(a: int, b: int)
    requires IntToString(a) == IntToString(b)
    ensures a == b
  {
    if a < 0 && b < 0 {
      assert NatToString(-a) == IntToString(a)[1..];
      assert NatToString(-b) == IntToString(b)[1..];
      NatToStringInjective(-a, -b);
    } else if a >= 0 && b >= 0 {
      NatToStringInjective(a, b);
    }
  }
}
