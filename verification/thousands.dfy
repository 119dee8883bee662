/**
 The amount display: `text.replace(/\B(?=(\d{3})+(?!\d))/g, ",")`. The
 pattern matches the empty string at every position that is not a word
 boundary and is followed by one or more runs of three digits and then by no
 digit; each match becomes a comma. Over a decimal integer this puts a comma
 in front of every group of three digits counted from the right, except at
 the very front.
 */
module Thousands {
  import opened Text

  /** JavaScript's `\w`. */
  predicate IsWordChar(c: char) {
    'a' <= c <= 'z' || 'A' <= c <= 'Z' || IsDigit(c) || c == '_'
  }

  /** `\B` at position p: the characters on both sides are both word characters or both not. */
  predicate NotWordBoundary(s: string, p: nat)
    requires p <= |s|
  {
    (0 < p && IsWordChar(s[p - 1])) == (p < |s| && IsWordChar(s[p]))
  }

  /** `(\d{3})+(?!\d)` matched at the start of t. */
  predicate DigitTriplesThenNoDigit(t: string)
    decreases |t|
  {
    && 3 <= |t|
    && IsDigit(t[0]) && IsDigit(t[1]) && IsDigit(t[2])
    && (|t| == 3 || !IsDigit(t[3]) || DigitTriplesThenNoDigit(t[3..]))
  }

  /**
   The whole pattern matches the empty string at position p. A match lies
   strictly inside the string, after a word character and before three digits.
   */
  predicate CommaAt(s: string, p: nat): (r: bool)
    requires p <= |s|
    ensures r ==> 0 < p && p + 3 <= |s| && IsWordChar(s[p - 1])
    ensures r ==> IsDigit(s[p]) && IsDigit(s[p + 1]) && IsDigit(s[p + 2])
  {
    NotWordBoundary(s, p) && DigitTriplesThenNoDigit(s[p..])
  }

  /** The output for the first n characters: a comma before each matching position. */
  function ReplacePrefix(s: string, n: nat): (r: string)
    requires n <= |s|
    decreases n
  {
    if n == 0 then ""
    else ReplacePrefix(s, n - 1) + (if CommaAt(s, n - 1) then "," else "") + [s[n - 1]]
  }

  /** The replace only adds commas: its output for the first n characters and those characters agree once all commas are deleted from both. */
  lemma {:induction false} ReplacePrefixOnlyCommas(s: string, n: nat)
    requires n <= |s|
    ensures RemoveCommas(ReplacePrefix(s, n)) == RemoveCommas(s[..n])
    decreases n
  {
    if n > 0 {
      ReplacePrefixOnlyCommas(s, n - 1);
      var prev := ReplacePrefix(s, n - 1);
      var mid := prev + (if CommaAt(s, n - 1) then "," else "");
      var r := mid + [s[n - 1]];
      assert RemoveCommas(mid) == RemoveCommas(prev) by {
        if CommaAt(s, n - 1) {
          assert mid[..|mid| - 1] == prev;
        } else {
          assert mid == prev;
        }
      }
      assert r[..|r| - 1] == mid;
      assert s[..n][..n - 1] == s[..n - 1];
    }
  }

  /**
   The global replace; position |s| is tried too (the lookahead never matches
   there). It only adds commas.
   */
  function InsertSeparators(s: string): (r: string)
    ensures RemoveCommas(r) == RemoveCommas(s)
  {
    var r := ReplacePrefix(s, |s|) + (if CommaAt(s, |s|) then "," else "");
    assert r == ReplacePrefix(s, |s|) by {
      assert !CommaAt(s, |s|);
    }
    assert s[..|s|] == s;
    ReplacePrefixOnlyCommas(s, |s|);
    r
  }

  /** On a text without commas, deleting the commas from the output gives back the text. */
  lemma InsertSeparatorsRestores(s: string)
    requires ',' !in s
    ensures RemoveCommas(InsertSeparators(s)) == s
  {
    RemoveCommasNone(s);
  }

  /** How an amount is shown: its decimal rendering with separators, which deleting the commas gives back. */
  function FormatAmount(n: int): (r: string)
    ensures RemoveCommas(r) == IntToString(n)
  {
    var d := IntToString(n);
    assert ',' !in d by {
      if n < 0 {
        DigitsHaveNo(d[1..], ',');
        assert d == [d[0]] + d[1..];
      } else {
        DigitsHaveNo(d, ',');
      }
    }
    RemoveCommasNone(d);
    InsertSeparators(d)
  }

  /** Reference grouping: the last three digits split off behind a comma, repeatedly. */
  function GroupThousands(s: string): (r: string)
    decreases |s|
  {
    if |s| <= 3 then s else GroupThousands(s[..|s| - 3]) + "," + s[|s| - 3..]
  }

  function RemoveCommas(s: string): (r: string)
    ensures ',' !in r
    decreases |s|
  {
    if |s| == 0 then "" else RemoveCommas(s[..|s| - 1]) + (if s[|s| - 1] == ',' then "" else [s[|s| - 1]])
  }

  // ---------------------------------------------------------------------------
  // The pattern over digits

  lemma {:induction false} TriplesOverDigits(t: string)
    requires AllDigits(t)
    ensures DigitTriplesThenNoDigit(t) <==> 3 <= |t| && |t| % 3 == 0
    decreases |t|
  {
    if 3 < |t| {
      TriplesOverDigits(t[3..]);
    }
  }

  /** Over a digit string a comma goes at p exactly when p is inside and a multiple of three digits follows. */
  lemma CommaAtOverDigits(s: string, p: nat)
    requires AllDigits(s) && p <= |s|
    ensures CommaAt(s, p) <==> 0 < p < |s| && (|s| - p) % 3 == 0
  {
    TriplesOverDigits(s[p..]);
  }

  lemma {:induction false} ShortHasNoCommas(s: string, n: nat)
    requires AllDigits(s) && |s| <= 3 && n <= |s|
    ensures ReplacePrefix(s, n) == s[..n]
    decreases n
  {
    if n > 0 {
      ShortHasNoCommas(s, n - 1);
      CommaAtOverDigits(s, n - 1);
      assert s[..n] == s[..n - 1] + [s[n - 1]];
    }
  }

  /** Cutting three digits off the end moves no comma among the first n characters. */
  lemma {:induction false} ReplacePrefixCut(s: string, t: string, n: nat)
    requires AllDigits(s) && |s| == |t| + 3 && t == s[..|t|] && n <= |t|
    ensures ReplacePrefix(s, n) == ReplacePrefix(t, n)
    decreases n
  {
    if n > 0 {
      ReplacePrefixCut(s, t, n - 1);
      CommaAtOverDigits(s, n - 1);
      CommaAtOverDigits(t, n - 1);
    }
  }

  /** Three steps of the replace, when only the first of the three positions takes a comma. */
  lemma CommaThenTwo(s: string, m: nat)
    requires m + 3 <= |s|
    requires CommaAt(s, m) && !CommaAt(s, m + 1) && !CommaAt(s, m + 2)
    ensures ReplacePrefix(s, m + 3) == ReplacePrefix(s, m) + "," + s[m..m + 3]
  {
    assert ReplacePrefix(s, m + 1) == ReplacePrefix(s, m) + "," + [s[m]];
    assert ReplacePrefix(s, m + 2) == ReplacePrefix(s, m + 1) + [s[m + 1]];
    assert ReplacePrefix(s, m + 3) == ReplacePrefix(s, m + 2) + [s[m + 2]];
    assert s[m..m + 3] == [s[m], s[m + 1], s[m + 2]];
  }

  /** The last three digits of a longer digit string get one comma, in front of them. */
  lemma LastThree(s: string)
    requires AllDigits(s) && 3 < |s|
    ensures ReplacePrefix(s, |s|) == ReplacePrefix(s, |s| - 3) + "," + s[|s| - 3..]
  {
    var m := |s| - 3;
    CommaAtOverDigits(s, m);
    CommaAtOverDigits(s, m + 1);
    CommaAtOverDigits(s, m + 2);
    CommaThenTwo(s, m);
    assert s[m..m + 3] == s[m..];
  }

  lemma NoCommaAtEnd(s: string)
    requires AllDigits(s)
    ensures InsertSeparators(s) == ReplacePrefix(s, |s|)
  {
    CommaAtOverDigits(s, |s|);
  }

  /** Over a digit string the regex replace is the reference grouping. */
  lemma {:induction false} SeparatorsAreGroups(s: string)
    requires AllDigits(s)
    ensures InsertSeparators(s) == GroupThousands(s)
    decreases |s|
  {
    NoCommaAtEnd(s);
    if |s| <= 3 {
      ShortHasNoCommas(s, |s|);
      assert s[..|s|] == s;
    } else {
      var m := |s| - 3;
      var t := s[..m];
      LastThree(s);
      ReplacePrefixCut(s, t, m);
      SeparatorsAreGroups(t);
      NoCommaAtEnd(t);
    }
  }

  /** A leading minus sign is copied and the digits behind it are grouped as before. */
  lemma {:induction false} ReplacePrefixSigned(d: string, n: nat)
    requires AllDigits(d) && n <= |d|
    ensures ReplacePrefix("-" + d, n + 1) == "-" + ReplacePrefix(d, n)
    decreases n
  {
    var s := "-" + d;
    if n == 0 {
      assert !IsDigit(s[0]);
    } else {
      ReplacePrefixSigned(d, n - 1);
      assert s[n..] == d[n - 1..];
      assert s[n] == d[n - 1];
      if n - 1 > 0 {
        assert s[n - 1] == d[n - 2];
      }
    }
  }

  lemma SignedSeparators(d: string)
    requires AllDigits(d)
    ensures InsertSeparators("-" + d) == "-" + InsertSeparators(d)
  {
    ReplacePrefixSigned(d, |d|);
    CommaAtOverDigits(d, |d|);
    var s := "-" + d;
    assert s[|s|..] == "";
  }

  /** Every shown amount is its sign followed by the grouped digits of its magnitude. */
  lemma FormatAmountGroups(n: int)
    ensures FormatAmount(n) == (if n < 0 then "-" else "") + GroupThousands(NatToString(if n < 0 then -n else n))
  {
    if n < 0 {
      assert IntToString(n) == "-" + NatToString(-n);
      SignedSeparators(NatToString(-n));
      SeparatorsAreGroups(NatToString(-n));
    } else {
      SeparatorsAreGroups(NatToString(n));
    }
  }

  // ---------------------------------------------------------------------------
  // What the reference grouping looks like

  lemma {:induction false} RemoveCommasAppend(a: string, b: string)
    ensures RemoveCommas(a + b) == RemoveCommas(a) + RemoveCommas(b)
    decreases |b|
  {
    if |b| == 0 {
      assert a + b == a;
    } else {
      var n := |b| - 1;
      assert (a + b)[..|a + b| - 1] == a + b[..n];
      RemoveCommasAppend(a, b[..n]);
    }
  }

  lemma {:induction false} RemoveCommasNone(s: string)
    requires ',' !in s
    ensures RemoveCommas(s) == s
    decreases |s|
  {
    if |s| > 0 {
      var n := |s| - 1;
      var pre := s[..n];
      assert s == pre + [s[n]];
      assert s[n] != ',' && ',' !in pre;
      RemoveCommasNone(pre);
    }
  }

  /** Deleting the commas gives back the digits. */
  lemma {:induction false} RemoveCommasGrouped(s: string)
    requires AllDigits(s)
    ensures RemoveCommas(GroupThousands(s)) == s
    decreases |s|
  {
    if |s| <= 3 {
      DigitsHaveNo(s, ',');
      RemoveCommasNone(s);
    } else {
      var m := |s| - 3;
      var hi, lo := s[..m], s[m..];
      assert AllDigits(hi) && AllDigits(lo);
      assert GroupThousands(s) == GroupThousands(hi) + "," + lo;
      RemoveCommasGrouped(hi);
      DigitsHaveNo(lo, ',');
      RemoveCommasJoin(GroupThousands(hi), lo);
      assert s == hi + lo;
    }
  }

  lemma RemoveCommasJoin(g: string, lo: string)
    requires ',' !in lo
    ensures RemoveCommas(g + "," + lo) == RemoveCommas(g) + lo
  {
    var x := g + ",";
    RemoveCommasAppend(x, lo);
    RemoveCommasNone(lo);
    assert RemoveCommas(x) == RemoveCommas(g) by {
      assert x[..|x| - 1] == g;
    }
  }

  /**
   The comma-separated groups: the first has one to three digits, every later
   one exactly three, and all are digits.
   */
  lemma {:induction false} GroupShapes(s: string)
    requires AllDigits(s) && 0 < |s|
    ensures var parts := Split(GroupThousands(s), ',');
      && 1 <= |parts[0]| <= 3
      && (forall i :: 1 <= i < |parts| ==> |parts[i]| == 3)
      && (forall i :: 0 <= i < |parts| ==> AllDigits(parts[i]))
    decreases |s|
  {
    if |s| <= 3 {
      DigitsHaveNo(s, ',');
      SplitWithout(s, ',');
    } else {
      var m := |s| - 3;
      GroupShapes(s[..m]);
      DigitsHaveNo(s[m..], ',');
      SplitAround(GroupThousands(s[..m]), ',', s[m..]);
      SplitWithout(s[m..], ',');
    }
  }

  /** The shapes of GroupShapes, read off the formatter's own output for a digit string. */
  lemma SeparatorShapes(s: string)
    requires AllDigits(s) && 0 < |s|
    ensures var parts := Split(InsertSeparators(s), ',');
      && 1 <= |parts[0]| <= 3
      && (forall i :: 1 <= i < |parts| ==> |parts[i]| == 3)
      && (forall i :: 0 <= i < |parts| ==> AllDigits(parts[i]))
  {
    SeparatorsAreGroups(s);
    GroupShapes(s);
  }
}
