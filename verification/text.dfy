/**
 The string primitives of the Rust standard library that the core relies on:
 `str::split` with a one-character separator, `join` over a slice of strings,
 `str::replace` and the decimal `Display` of integers. Strings are sequences of
 characters; no encoding is modelled.
 */
module Text {

  /** Number of occurrences of `c` in `s`. */
  function Count(s: string, c: char): nat
  {
    if |s| == 0 then 0 else (if s[0] == c then 1 else 0) + Count(s[1..], c)
  }

  lemma {:induction false} CountZero(s: string, c: char)
    ensures Count(s, c) == 0 <==> c !in s
  {
    if |s| > 0 {
      CountZero(s[1..], c);
      assert s == [s[0]] + s[1..];
    }
  }

  /**
   `s.split(sep)`: the pieces between separators, left to right. Every
   separator closes a piece, so there is always one piece more than there are
   separators, the empty string gives `[""]` and no piece holds the separator.
   */
  function Split(s: string, sep: char): (parts: seq<string>)
    ensures |parts| == Count(s, sep) + 1
    ensures forall i :: 0 <= i < |parts| ==> sep !in parts[i]
    decreases |s|
  {
    if |s| == 0 then [""]
    else
      var rest := Split(s[1..], sep);
      if s[0] == sep then [""] + rest
      else [[s[0]] + rest[0]] + rest[1..]
  }

  /** `parts.join(sep)`: the pieces with `sep` between each neighbouring pair. */
  function Join(parts: seq<string>, sep: string): string
  {
    if |parts| == 0 then ""
    else if |parts| == 1 then parts[0]
    else parts[0] + sep + Join(parts[1..], sep)
  }

  /** A separator between two strings splits them apart: `(a + "/" + b).split('/')` is `a`'s pieces then `b`'s. */
  lemma {:induction false} SplitConcat(a: string, b: string, sep: char)
    ensures Split(a + [sep] + b, sep) == Split(a, sep) + Split(b, sep)
    decreases |a|
  {
    if |a| == 0 {
      var s := a + [sep] + b;
      assert s == [sep] + b;
      assert s[1..] == b;
      SplitStep(s, sep);
    } else {
      SplitConcat(a[1..], b, sep);
      SplitConcatStep(a, b, sep);
    }
  }

  /** The inductive step of `SplitConcat`: one more character in front of `a`. */
  lemma SplitConcatStep(a: string, b: string, sep: char)
    requires |a| > 0
    requires Split(a[1..] + [sep] + b, sep) == Split(a[1..], sep) + Split(b, sep)
    ensures Split(a + [sep] + b, sep) == Split(a, sep) + Split(b, sep)
  {
    var s := a + [sep] + b;
    assert s[0] == a[0];
    assert s[1..] == a[1..] + [sep] + b;
    var x, y := Split(a[1..], sep), Split(b, sep);
    SplitStep(s, sep);
    SplitStep(a, sep);
    if a[0] == sep {
      PrependOne([""], x, y);
    } else {
      MergeFirst([a[0]], x, y);
    }
  }

  lemma PrependOne<T>(h: seq<T>, x: seq<T>, y: seq<T>)
    ensures h + (x + y) == (h + x) + y
  {
  }

  lemma MergeFirst<T>(c: seq<T>, x: seq<seq<T>>, y: seq<seq<T>>)
    requires |x| > 0
    ensures [c + (x + y)[0]] + (x + y)[1..] == ([c + x[0]] + x[1..]) + y
  {
    assert (x + y)[0] == x[0];
    assert (x + y)[1..] == x[1..] + y;
  }

  /** One step of the split: the first character either closes a piece or opens the first one. */
  lemma SplitStep(s: string, sep: char)
    requires |s| > 0
    ensures var rest := Split(s[1..], sep);
      Split(s, sep) == if s[0] == sep then [""] + rest else [[s[0]] + rest[0]] + rest[1..]
  {
  }

  /** A string without the separator is a single piece. */
  lemma SplitWithoutSeparator(s: string, sep: char)
    requires sep !in s
    ensures Split(s, sep) == [s]
  {
    CountZero(s, sep);
    JoinSplit(s, sep);
  }

  /** One more separator-free piece at the end is one more piece of the split. */
  lemma SplitSnoc(a: string, piece: string, sep: char)
    requires sep !in piece
    ensures Split(a + [sep] + piece, sep) == Split(a, sep) + [piece]
  {
    SplitConcat(a, piece, sep);
    SplitWithoutSeparator(piece, sep);
  }

  /** Splitting and joining back with the same separator gives the string back. */
  lemma {:induction false} JoinSplit(s: string, sep: char)
    ensures Join(Split(s, sep), [sep]) == s
    decreases |s|
  {
    if |s| > 0 {
      var rest := Split(s[1..], sep);
      JoinSplit(s[1..], sep);
      assert s == [s[0]] + s[1..];
      if s[0] != sep {
        if |rest| > 1 {
          assert rest == [rest[0]] + rest[1..];
          assert Join(rest, [sep]) == rest[0] + [sep] + Join(rest[1..], [sep]);
        }
      }
    }
  }

  /** Joining pieces free of the separator and splitting again gives the pieces back. */
  lemma {:induction false} SplitJoin(parts: seq<string>, sep: char)
    requires |parts| > 0
    requires forall i :: 0 <= i < |parts| ==> sep !in parts[i]
    ensures Split(Join(parts, [sep]), sep) == parts
    decreases |parts|
  {
    SplitWithoutSeparator(parts[0], sep);
    if |parts| > 1 {
      var rest := parts[1..];
      assert forall i :: 0 <= i < |rest| ==> rest[i] == parts[i + 1];
      SplitJoin(rest, sep);
      assert Join(parts, [sep]) == parts[0] + [sep] + Join(rest, [sep]);
      SplitConcat(parts[0], Join(rest, [sep]), sep);
      assert parts == [parts[0]] + rest;
    }
  }

  /**
   `s.replace(pat, to)`: every occurrence of `pat`, found left to right without
   overlap, replaced by `to`. An empty pattern matches before every character
   and at the end. Every character of the result comes from `s` or from `to`.
   */
  function ReplaceAll(s: string, pat: string, to: string): (r: string)
    ensures forall i :: 0 <= i < |r| ==> r[i] in s || r[i] in to
    decreases |s|
  {
    if |pat| == 0 then
      (if |s| == 0 then to else to + [s[0]] + ReplaceAll(s[1..], pat, to))
    else if |s| < |pat| then s
    else if s[..|pat|] == pat then to + ReplaceAll(s[|pat|..], pat, to)
    else [s[0]] + ReplaceAll(s[1..], pat, to)
  }

  /** `s` holds `pat` starting at position `i`. */
  predicate OccursAt(s: string, pat: string, i: nat)
  {
    i + |pat| <= |s| && s[i..i + |pat|] == pat
  }

  /** A non-empty pattern that does not occur leaves the string untouched. */
  lemma {:induction false} ReplaceAbsent(s: string, pat: string, to: string)
    requires |pat| > 0
    requires forall i :: 0 <= i <= |s| ==> !OccursAt(s, pat, i)
    ensures ReplaceAll(s, pat, to) == s
    decreases |s|
  {
    if |s| >= |pat| {
      AbsentInTail(s, pat);
      ReplaceAbsent(s[1..], pat, to);
      ReplaceMiss(s, pat, to);
      assert s == [s[0]] + s[1..];
    }
  }

  /** A string that does not start with a non-empty pattern keeps its first character. */
  lemma ReplaceMiss(s: string, pat: string, to: string)
    requires 0 < |pat| <= |s| && !OccursAt(s, pat, 0)
    ensures ReplaceAll(s, pat, to) == [s[0]] + ReplaceAll(s[1..], pat, to)
  {
  }

  /** A pattern absent from `s` is absent from its tail. */
  lemma AbsentInTail(s: string, pat: string)
    requires |s| > 0
    requires forall i :: 0 <= i <= |s| ==> !OccursAt(s, pat, i)
    ensures forall i :: 0 <= i <= |s[1..]| ==> !OccursAt(s[1..], pat, i)
  {
    forall i | 0 <= i <= |s[1..]| ensures !OccursAt(s[1..], pat, i) {
      assert !OccursAt(s, pat, i + 1);
      if i + |pat| <= |s[1..]| {
        assert s[1..][i..i + |pat|] == s[i + 1..i + 1 + |pat|];
      }
    }
  }

  /** Replacing one character is applied character by character: it distributes over `+`. */
  lemma {:induction false} ReplaceCharAppend(a: string, b: string, c: char, to: string)
    ensures ReplaceAll(a + b, [c], to) == ReplaceAll(a, [c], to) + ReplaceAll(b, [c], to)
    decreases |a|
  {
    if |a| > 0 {
      ReplaceCharAppend(a[1..], b, c, to);
      assert (a + b)[1..] == a[1..] + b;
      assert (a + b)[..1] == a[..1];
      assert (a + b)[0] == a[0];
      calc {
        ReplaceAll(a + b, [c], to);
        (if a[..1] == [c] then to else [a[0]]) + ReplaceAll(a[1..] + b, [c], to);
        (if a[..1] == [c] then to else [a[0]]) + ReplaceAll(a[1..], [c], to) + ReplaceAll(b, [c], to);
      }
    } else {
      assert a + b == b;
    }
  }

  /** Replacing a character that does not occur changes nothing. */
  lemma {:induction false} ReplaceCharAbsent(s: string, c: char, to: string)
    requires c !in s
    ensures ReplaceAll(s, [c], to) == s
    decreases |s|
  {
    if |s| > 0 {
      ReplaceCharAbsent(s[1..], c, to);
      assert s[..1] != [c] by { assert s[..1][0] == s[0]; }
      assert s == [s[0]] + s[1..];
    }
  }

  /** A non-empty pattern replaced in a string equal to it gives the replacement. */
  lemma ReplaceWhole(s: string, to: string)
    requires |s| > 0
    ensures ReplaceAll(s, s, to) == to
  {
    assert s[..|s|] == s;
    assert s[|s|..] == [];
  }

  /** Joining `a` then `b` puts one separator between the two joins. */
  lemma {:induction false} JoinAppend(a: seq<string>, b: seq<string>, sep: string)
    requires |a| > 0 && |b| > 0
    ensures Join(a + b, sep) == Join(a, sep) + sep + Join(b, sep)
    decreases |a|
  {
    if |a| == 1 {
      assert (a + b)[1..] == b;
    } else {
      JoinAppend(a[1..], b, sep);
      assert (a + b)[1..] == a[1..] + b;
    }
  }

  /** Pieces free of the separator, joined by it, hold one separator per gap. */
  lemma {:induction false} CountJoin(parts: seq<string>, sep: char)
    requires |parts| > 0
    requires forall i :: 0 <= i < |parts| ==> sep !in parts[i]
    ensures Count(Join(parts, [sep]), sep) == |parts| - 1
    decreases |parts|
  {
    CountZero(parts[0], sep);
    if |parts| > 1 {
      CountJoin(parts[1..], sep);
      CountAppend(parts[0], [sep], sep);
      CountAppend(parts[0] + [sep], Join(parts[1..], [sep]), sep);
    }
  }

  lemma {:induction false} CountAppend(a: string, b: string, c: char)
    ensures Count(a + b, c) == Count(a, c) + Count(b, c)
    decreases |a|
  {
    if |a| == 0 {
      assert a + b == b;
    } else {
      CountAppend(a[1..], b, c);
      assert (a + b)[1..] == a[1..] + b;
    }
  }

  /** A character absent from every piece and from the separator is absent from the join. */
  lemma {:induction false} JoinOmits(parts: seq<string>, sep: string, c: char)
    requires c !in sep
    requires forall i :: 0 <= i < |parts| ==> c !in parts[i]
    ensures c !in Join(parts, sep)
    decreases |parts|
  {
    if |parts| > 1 {
      JoinOmits(parts[1..], sep, c);
    }
  }

  /** `t` is a suffix of `s`. */
  predicate EndsWith(s: string, t: string)
  {
    |t| <= |s| && s[|s| - |t|..] == t
  }

  /** Replacing a character by text that does not hold it removes it entirely. */
  lemma {:induction false} ReplaceCharRemoves(s: string, c: char, to: string)
    requires c !in to
    ensures c !in ReplaceAll(s, [c], to)
    decreases |s|
  {
    if |s| > 0 {
      ReplaceCharRemoves(s[1..], c, to);
      if s[0] != c {
        assert s[..1] != [c];
      }
    }
  }

  /** The decimal digit for `d`. */
  function Digit(d: nat): char
    requires d < 10
  {
    "0123456789"[d]
  }

  /** The decimal numeral of `n` as Rust's `Display` prints it: no sign, no leading zero. */
  function NatToDecimal(n: nat): (r: string)
    ensures |r| > 0
    ensures forall i :: 0 <= i < |r| ==> '0' <= r[i] <= '9'
    ensures |r| > 1 ==> r[0] != '0'
  {
    if n < 10 then [Digit(n)] else NatToDecimal(n / 10) + [Digit(n % 10)]
  }

  /** The decimal numeral of `n`, with a leading `-` when it is negative. */
  function IntToDecimal(n: int): (r: string)
    ensures |r| > 0
    ensures (r[0] == '-') <==> n < 0
  {
    if n < 0 then "-" + NatToDecimal(-n) else NatToDecimal(n)
  }

  /** After the optional sign, the numeral is digits whose value is the magnitude of `n`. */
  lemma IntToDecimalValue(n: int)
    ensures n < 0 ==> Numeral(IntToDecimal(n)[1..], -n)
    ensures n >= 0 ==> Numeral(IntToDecimal(n), n)
  {
    if n < 0 {
      var d := NatToDecimal(-n);
      NatNumeral(-n);
      SignDropped(d);
      assert IntToDecimal(n)[1..] == d;
    } else {
      var d := NatToDecimal(n);
      NatNumeral(n);
      assert IntToDecimal(n) == d;
    }
  }

  lemma NatNumeral(m: nat)
    ensures Numeral(NatToDecimal(m), m)
  {
    DecimalRoundTrip(m);
  }

  lemma SignDropped(d: string)
    ensures ("-" + d)[1..] == d
  {
  }

  /** `d` is a string of decimal digits whose value is `v`. */
  predicate Numeral(d: string, v: nat)
  {
    (forall i :: 0 <= i < |d| ==> '0' <= d[i] <= '9') && DecimalValue(d) == v
  }

  /** The value of a string of decimal digits. */
  function DecimalValue(s: string): nat
    requires forall i :: 0 <= i < |s| ==> '0' <= s[i] <= '9'
  {
    if |s| == 0 then 0
    else 10 * DecimalValue(s[..|s| - 1]) + (s[|s| - 1] as int - '0' as int)
  }

  /** Reading the printed numeral back gives the number: printing loses nothing. */
  lemma {:induction false} DecimalRoundTrip(n: nat)
    ensures DecimalValue(NatToDecimal(n)) == n
  {
    var r := NatToDecimal(n);
    if n >= 10 {
      DecimalRoundTrip(n / 10);
      assert r[..|r| - 1] == NatToDecimal(n / 10);
    }
  }

  /** Different numbers print differently. */
  lemma NatToDecimalInjective(m: nat, n: nat)
    requires NatToDecimal(m) == NatToDecimal(n)
    ensures m == n
  {
    DecimalRoundTrip(m);
    DecimalRoundTrip(n);
  }
}
