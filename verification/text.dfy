/**
  The string operations the report generator leans on: rendering integers the
  way a template literal does, reading them back, the default string order
  used by `Array.prototype.sort()`, and `Array.prototype.join`.
 */
module Text {
  import opened Wrappers

  predicate IsDigit(c: char) {
    '0' <= c <= '9'
  }

  predicate AllDigits(s: string) {
    forall i :: 0 <= i < |s| ==> IsDigit(s[i])
  }

  function DigitChar(d: nat): (c: char)
    requires d < 10
    ensures IsDigit(c)
  {
    (48 + d) as char
  }

  function DigitValue(c: char): nat
    requires IsDigit(c)
  {
    c as int - 48
  }

  /** Decimal rendering of a non-negative integer, without leading zeros. */
  function NatToString(n: nat): (s: string)
    ensures |s| > 0 && AllDigits(s)
    ensures |s| > 1 ==> s[0] != '0'
    decreases n
  {
    if n < 10 then [DigitChar(n)] else NatToString(n / 10) + [DigitChar(n % 10)]
  }

  /** Decimal rendering of any integer: a minus sign in front of negative ones. */
  function IntToString(i: int): (s: string)
    ensures |s| > 0 && (s[0] == '-' <==> i < 0)
    ensures forall k :: 0 < k < |s| ==> IsDigit(s[k])
  {
    if i < 0 then "-" + NatToString(-i) else NatToString(i)
  }

  /** The value of a string of decimal digits, most significant first. */
  function DigitsValue(s: string): nat
    requires AllDigits(s)
  {
    if s == [] then 0 else DigitsValue(s[..|s| - 1]) * 10 + DigitValue(s[|s| - 1])
  }

  /** Reads an optionally signed decimal integer; anything else is rejected. */
  function ParseInt(s: string): Option<int> {
    if |s| > 1 && s[0] == '-' && AllDigits(s[1..]) then Some(0 - DigitsValue(s[1..]))
    else if |s| > 0 && AllDigits(s) then Some(DigitsValue(s))
    else None
  }

  lemma {:induction false} NatToStringRoundTrip(n: nat)
    ensures DigitsValue(NatToString(n)) == n
    decreases n
  {
    if n >= 10 {
      NatToStringRoundTrip(n / 10);
      var s := NatToString(n);
      assert s[..|s| - 1] == NatToString(n / 10);
    }
  }

  lemma IntToStringRoundTrip(i: int)
    ensures ParseInt(IntToString(i)) == Some(i)
  {
    var s := IntToString(i);
    if i < 0 {
      assert s[1..] == NatToString(-i);
      NatToStringRoundTrip(-i);
    } else {
      NatToStringRoundTrip(i);
    }
  }

  /** Length of the longest prefix of `s` whose characters all satisfy `inRun`. */
  function RunLength(s: string, inRun: char -> bool): (k: nat)
    ensures k <= |s|
    ensures forall i :: 0 <= i < k ==> inRun(s[i])
    ensures k < |s| ==> !inRun(s[k])
  {
    if s == [] || !inRun(s[0]) then 0 else 1 + RunLength(s[1..], inRun)
  }

  /** A run stops exactly where its characters stop satisfying the predicate. */
  lemma {:induction false} RunLengthOfConcat(a: string, b: string, inRun: char -> bool)
    requires forall i :: 0 <= i < |a| ==> inRun(a[i])
    requires b == [] || !inRun(b[0])
    ensures RunLength(a + b, inRun) == |a|
  {
    if a != [] {
      assert (a + b)[1..] == a[1..] + b;
      RunLengthOfConcat(a[1..], b, inRun);
    }
  }

  // ---------------------------------------------------------------------------
  // The order `Array.prototype.sort()` uses for strings without a comparator:
  // element-wise comparison of the characters, a proper prefix first.

  predicate LexLess(a: string, b: string) {
    if a == [] then b != []
    else if b == [] then false
    else if a[0] != b[0] then a[0] < b[0]
    else LexLess(a[1..], b[1..])
  }

  lemma {:induction false} LexLessIrreflexive(a: string)
    ensures !LexLess(a, a)
  {
    if a != [] {
      LexLessIrreflexive(a[1..]);
    }
  }

  lemma {:induction false} LexLessAsymmetric(a: string, b: string)
    requires LexLess(a, b)
    ensures !LexLess(b, a)
  {
    if a != [] && b != [] && a[0] == b[0] {
      LexLessAsymmetric(a[1..], b[1..]);
    }
  }

  lemma {:induction false} LexLessTransitive(a: string, b: string, c: string)
    requires LexLess(a, b) && LexLess(b, c)
    ensures LexLess(a, c)
  {
    if a != [] && b != [] && c != [] && a[0] == b[0] && b[0] == c[0] {
      LexLessTransitive(a[1..], b[1..], c[1..]);
    }
  }

  lemma {:induction false} LexLessTotal(a: string, b: string)
    requires a != b
    ensures LexLess(a, b) || LexLess(b, a)
  {
    if a != [] && b != [] && a[0] == b[0] {
      assert a == [a[0]] + a[1..] && b == [b[0]] + b[1..];
      LexLessTotal(a[1..], b[1..]);
    }
  }

  /** Strictly ascending in the default string order, hence free of repeats. */
  predicate StrictlyAscending(s: seq<string>) {
    forall i, j :: 0 <= i < j < |s| ==> LexLess(s[i], s[j])
  }

  /** Two strictly ascending sequences holding the same strings are equal. */
  lemma {:induction false} StrictlyAscendingUnique(s: seq<string>, t: seq<string>)
    requires StrictlyAscending(s) && StrictlyAscending(t)
    requires forall x :: x in s <==> x in t
    ensures s == t
    decreases |s|
  {
    assert s != [] ==> s[0] in t;
    assert t != [] ==> t[0] in s;
    if s != [] && t != [] {
      if s[0] != t[0] {
        var i :| 0 <= i < |t| && t[i] == s[0];
        var j :| 0 <= j < |s| && s[j] == t[0];
        assert 0 < i && 0 < j;
        LexLessAsymmetric(s[0], t[0]);
      }
      forall x
        ensures x in s[1..] <==> x in t[1..]
      {
        if x in s[1..] {
          var j :| 1 <= j < |s| && s[j] == x;
          assert x in t;
          var i :| 0 <= i < |t| && t[i] == x;
          if i == 0 {
            LexLessIrreflexive(x);
          }
          assert t[1..][i - 1] == x;
        }
        if x in t[1..] {
          var j :| 1 <= j < |t| && t[j] == x;
          assert x in s;
          var i :| 0 <= i < |s| && s[i] == x;
          if i == 0 {
            LexLessIrreflexive(x);
          }
          assert s[1..][i - 1] == x;
        }
      }
      StrictlyAscendingUnique(s[1..], t[1..]);
    }
  }

  // ---------------------------------------------------------------------------
  // `Array.prototype.join` and its inverse for parts that hold no comma.

  function Join(parts: seq<string>, sep: string): string {
    if |parts| == 0 then ""
    else if |parts| == 1 then parts[0]
    else parts[0] + sep + Join(parts[1..], sep)
  }

  /** The parts of `s` between occurrences of ", "; always at least one. */
  function Pieces(s: string): (r: seq<string>)
    ensures |r| > 0
  {
    if s == [] then [""]
    else if |s| >= 2 && s[0] == ',' && s[1] == ' ' then [""] + Pieces(s[2..])
    else var rest := Pieces(s[1..]); [[s[0]] + rest[0]] + rest[1..]
  }

  /** Splits a comma-separated column back into its entries. */
  function SplitColumn(s: string): seq<string> {
    if s == [] then [] else Pieces(s)
  }

  predicate NoComma(s: string) {
    forall i :: 0 <= i < |s| ==> s[i] != ','
  }

  lemma {:induction false} PiecesOfPlain(a: string)
    requires NoComma(a)
    ensures Pieces(a) == [a]
  {
    if a != [] {
      PiecesOfPlain(a[1..]);
      assert [a[0]] + a[1..] == a;
    }
  }

  lemma {:induction false} PiecesOfSeparated(a: string, b: string)
    requires NoComma(a)
    ensures Pieces(a + ", " + b) == [a] + Pieces(b)
  {
    var s := a + ", " + b;
    if a == [] {
      assert s == ", " + b && s[2..] == b;
    } else {
      assert s[1..] == a[1..] + ", " + b;
      PiecesOfSeparated(a[1..], b);
      assert [a[0]] + a[1..] == a;
    }
  }

  /** Joining with ", " and splitting again gives back the parts. */
  lemma {:induction false} JoinSplitRoundTrip(parts: seq<string>)
    requires forall i :: 0 <= i < |parts| ==> parts[i] != [] && NoComma(parts[i])
    ensures SplitColumn(Join(parts, ", ")) == parts
  {
    if |parts| == 1 {
      PiecesOfPlain(parts[0]);
    } else if |parts| > 1 {
      JoinSplitRoundTrip(parts[1..]);
      PiecesOfSeparated(parts[0], Join(parts[1..], ", "));
      assert Join(parts[1..], ", ") != [] by {
        assert SplitColumn(Join(parts[1..], ", ")) != [];
      }
    }
  }

  lemma NoCommaConcat(a: string, b: string)
    requires NoComma(a) && NoComma(b)
    ensures NoComma(a + b)
  {
    forall i | 0 <= i < |a + b|
      ensures (a + b)[i] != ','
    {
      if i >= |a| {
        assert (a + b)[i] == b[i - |a|];
      }
    }
  }
}
