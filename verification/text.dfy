/** The string operations the script relies on, with Python's semantics:
    `str.isdigit` (ASCII digits only), `str.split(sep)` and the ordering
    `<` of `str` values that `max` uses. */
module Text {

  predicate IsAsciiDigit(c: char)
  {
    '0' <= c <= '9'
  }

  /** Every character is an ASCII digit (true of the empty string). */
  predicate AllDigits(s: string)
  {
    forall i :: 0 <= i < |s| ==> IsAsciiDigit(s[i])
  }

  /** `s.isdigit()`: non-empty and made of digits only. */
  predicate IsDigits(s: string)
  {
    |s| > 0 && AllDigits(s)
  }

  // ---------------------------------------------------------------------
  // Ordering of strings
  // ---------------------------------------------------------------------

  /** Lexicographic order by its textbook definition: `a` is a proper prefix
      of `b`, or `a` has the smaller character where they first differ. */
  ghost predicate LexLess(a: string, b: string)
  {
    || (|a| < |b| && a == b[..|a|])
    || exists k :: 0 <= k < |a| && k < |b| && a[..k] == b[..k] && a[k] < b[k]
  }

  /** Python's `a < b` on `str`, compared character by character: it is
      lexicographic order on code points, a proper prefix being smaller. */
  predicate Less(a: string, b: string)
    ensures Less(a, b) <==> LexLess(a, b)
    decreases |a|
  {
    LexLessStep(a, b);
    |b| > 0 && (|a| == 0 || a[0] < b[0] || (a[0] == b[0] && Less(a[1..], b[1..])))
  }

  /** How `LexLess` looks at the first characters. */
  lemma LexLessStep(a: string, b: string)
    ensures |b| == 0 ==> !LexLess(a, b)
    ensures |a| == 0 && |b| > 0 ==> LexLess(a, b)
    ensures |a| > 0 && |b| > 0 ==>
      (LexLess(a, b) <==> a[0] < b[0] || (a[0] == b[0] && LexLess(a[1..], b[1..])))
  {
    if |a| == 0 && |b| > 0 {
      assert a == b[..0];
    }
    if |a| > 0 && |b| > 0 {
      if a[0] != b[0] {
        LexLessHead(a, b);
      } else {
        if LexLess(a, b) {
          LexLessTail(a, b);
        }
        if LexLess(a[1..], b[1..]) {
          LexLessCons(a, b);
        }
      }
    }
  }

  /** Different first characters decide `LexLess`. */
  lemma LexLessHead(a: string, b: string)
    requires |a| > 0 && |b| > 0 && a[0] != b[0]
    ensures LexLess(a, b) <==> a[0] < b[0]
  {
    if a[0] < b[0] {
      assert a[..0] == b[..0];
    }
    if LexLess(a, b) {
      if |a| < |b| {
        assert b[..|a|][0] == b[0];
      }
      var k :| 0 <= k < |a| && k < |b| && a[..k] == b[..k] && a[k] < b[k];
      if k > 0 {
        assert a[..k][0] == b[..k][0];
      }
    }
  }

  /** Equal first characters: `LexLess` of the whole gives it of the tails. */
  lemma LexLessTail(a: string, b: string)
    requires |a| > 0 && |b| > 0 && a[0] == b[0] && LexLess(a, b)
    ensures LexLess(a[1..], b[1..])
  {
    var a', b' := a[1..], b[1..];
    if |a| < |b| && a == b[..|a|] {
      assert a' == b'[..|a'|];
    } else {
      var k :| 0 <= k < |a| && k < |b| && a[..k] == b[..k] && a[k] < b[k];
      assert k > 0;
      assert a'[..k - 1] == b'[..k - 1] && a'[k - 1] < b'[k - 1];
    }
  }

  /** Equal first characters: `LexLess` of the tails gives it of the whole. */
  lemma LexLessCons(a: string, b: string)
    requires |a| > 0 && |b| > 0 && a[0] == b[0] && LexLess(a[1..], b[1..])
    ensures LexLess(a, b)
  {
    var a', b' := a[1..], b[1..];
    if |a'| < |b'| && a' == b'[..|a'|] {
      assert a == b[..|a|];
    } else {
      var k :| 0 <= k < |a'| && k < |b'| && a'[..k] == b'[..k] && a'[k] < b'[k];
      assert a[..k + 1] == b[..k + 1] && a[k + 1] < b[k + 1];
    }
  }

  lemma {:induction false} LessIrreflexive(a: string)
    ensures !Less(a, a)
    decreases |a|
  {
    if |a| > 0 {
      LessIrreflexive(a[1..]);
    }
  }

  lemma {:induction false} LessTransitive(a: string, b: string, c: string)
    requires Less(a, b) && Less(b, c)
    ensures Less(a, c)
    decreases |a|
  {
    if |a| > 0 && a[0] == b[0] && b[0] == c[0] {
      LessTransitive(a[1..], b[1..], c[1..]);
    }
  }

  /** Two strings are equal or one of them is smaller: `max` is well defined. */
  lemma {:induction false} LessTotal(a: string, b: string)
    ensures a == b || Less(a, b) || Less(b, a)
    decreases |a|
  {
    if |a| > 0 && |b| > 0 && a[0] == b[0] {
      LessTotal(a[1..], b[1..]);
      if a[1..] == b[1..] {
        assert a == [a[0]] + a[1..] && b == [b[0]] + b[1..];
      }
    }
  }

  lemma LessAsymmetric(a: string, b: string)
    requires Less(a, b)
    ensures !Less(b, a)
  {
    if Less(b, a) {
      LessTransitive(a, b, a);
      LessIrreflexive(a);
    }
  }

  // ---------------------------------------------------------------------
  // Numeric value of a digit string
  // ---------------------------------------------------------------------

  function Pow10(n: nat): (r: nat)
    ensures r >= 1
  {
    if n == 0 then 1 else 10 * Pow10(n - 1)
  }

  /** The decimal number a digit string denotes (leading zeros allowed). */
  function Value(s: string): nat
    requires AllDigits(s)
    decreases |s|
  {
    if |s| == 0 then 0
    else ((s[0] as int) - ('0' as int)) * Pow10(|s| - 1) + Value(s[1..])
  }

  lemma {:induction false} ValueBound(s: string)
    requires AllDigits(s)
    ensures Value(s) < Pow10(|s|)
    decreases |s|
  {
    if |s| > 0 {
      ValueBound(s[1..]);
      var d := (s[0] as int) - ('0' as int);
      assert d * Pow10(|s| - 1) <= 9 * Pow10(|s| - 1) by {
        MulMonotone(d, 9, Pow10(|s| - 1));
      }
    }
  }

  /** The character of the decimal digit `d`. */
  function DigitChar(d: nat): char
    requires d < 10
  {
    ('0' as int + d) as char
  }

  /** The `w`-character decimal text of `n` with leading zeros, most
      significant digit first (Python's `'%0*d' % (w, n)` when `n < 10^w`;
      the digits above `10^w` are dropped). */
  function ZeroPadded(n: nat, w: nat): (s: string)
    ensures |s| == w && AllDigits(s)
    decreases w
  {
    if w == 0 then []
    else [DigitChar((n / Pow10(w - 1)) % 10)] + ZeroPadded(n % Pow10(w - 1), w - 1)
  }

  /** Splitting off the leading digit: `d * P + v` divided by `P`. */
  lemma LeadingDigitDivMod(d: nat, v: nat, p: nat)
    requires v < p
    ensures (d * p + v) / p == d && (d * p + v) % p == v
  {
    var q := (d * p + v) / p;
    var r := (d * p + v) % p;
    assert q * p + r == d * p + v;
    if q < d {
      MulMonotone(q + 1, d, p);
    } else if q > d {
      MulMonotone(d + 1, q, p);
    }
  }

  /** A digit string is the zero-padded text of its own value. */
  lemma {:induction false} ZeroPaddedValue(s: string)
    requires AllDigits(s)
    ensures ZeroPadded(Value(s), |s|) == s
    decreases |s|
  {
    if |s| > 0 {
      var p := Pow10(|s| - 1);
      var d := (s[0] as int) - ('0' as int);
      ValueBound(s[1..]);
      LeadingDigitDivMod(d, Value(s[1..]), p);
      ZeroPaddedValue(s[1..]);
      assert DigitChar(d) == s[0];
    }
  }

  /** Reading the zero-padded text of `n` back gives `n` when it fits. */
  lemma {:induction false} ValueZeroPadded(n: nat, w: nat)
    requires n < Pow10(w)
    ensures Value(ZeroPadded(n, w)) == n
    decreases w
  {
    if w > 0 {
      var p := Pow10(w - 1);
      assert Pow10(w) == 10 * p;
      var d := n / p;
      var r := n % p;
      QuotientDigit(n, p);
      var s := ZeroPadded(n, w);
      assert s == [DigitChar(d)] + ZeroPadded(r, w - 1);
      assert s[1..] == ZeroPadded(r, w - 1);
      ValueZeroPadded(r, w - 1);
      assert Value(s) == d * p + Value(s[1..]);
    }
  }

  /** Below `10 * p`, the quotient by `p` is a single digit. */
  lemma QuotientDigit(n: nat, p: nat)
    requires 1 <= p && n < 10 * p
    ensures n / p < 10 && (n / p) % 10 == n / p && n == (n / p) * p + n % p
  {
    var d := n / p;
    assert n == d * p + n % p;
    if d >= 10 {
      MulMonotone(10, d, p);
    }
  }

  /** `isdigit` holds exactly for the non-empty zero-padded decimal texts:
      a string of `w >= 1` characters passes iff it is the `w`-digit text of
      some number below `10^w`. */
  lemma IsDigitsIffZeroPadded(s: string)
    ensures IsDigits(s) <==> |s| > 0 && exists n: nat :: n < Pow10(|s|) && ZeroPadded(n, |s|) == s
  {
    if IsDigits(s) {
      ValueBound(s);
      ZeroPaddedValue(s);
    }
  }

  lemma MulMonotone(a: int, b: int, m: nat)
    requires a <= b
    ensures a * m <= b * m
  {
  }

  /** For digit strings of equal width (fixed-width, zero-padded fields such
      as `YYYYMMDD`), string order and numeric order agree. */
  lemma {:induction false} LessIsNumericOrder(a: string, b: string)
    requires |a| == |b| && AllDigits(a) && AllDigits(b)
    ensures Less(a, b) <==> Value(a) < Value(b)
    decreases |a|
  {
    if |a| > 0 {
      var p := Pow10(|a| - 1);
      var da := (a[0] as int) - ('0' as int);
      var db := (b[0] as int) - ('0' as int);
      assert Value(a) == da * p + Value(a[1..]);
      assert Value(b) == db * p + Value(b[1..]);
      ValueBound(a[1..]);
      ValueBound(b[1..]);
      if da < db {
        LeadingDigitDecides(da, db, p, Value(a[1..]), Value(b[1..]));
      } else if db < da {
        LeadingDigitDecides(db, da, p, Value(b[1..]), Value(a[1..]));
      } else {
        LessIsNumericOrder(a[1..], b[1..]);
      }
    }
  }

  /** A smaller leading digit makes the whole number smaller. */
  lemma LeadingDigitDecides(x: int, y: int, p: nat, u: nat, v: nat)
    requires x < y && u < p
    ensures x * p + u < y * p + v
  {
    MulMonotone(x + 1, y, p);
    assert (x + 1) * p == x * p + p;
  }

  // ---------------------------------------------------------------------
  // Splitting at a separator
  // ---------------------------------------------------------------------

  /** `sep.join(parts)`. */
  function Join(parts: seq<string>, sep: char): string
    requires |parts| > 0
    decreases |parts|
  {
    if |parts| == 1 then parts[0] else parts[0] + [sep] + Join(parts[1..], sep)
  }

  /** `s.split(sep)` for a one-character separator: the maximal separator-free
      pieces of `s`; there is exactly one piece when `sep` does not occur. */
  function Split(s: string, sep: char): (parts: seq<string>)
    ensures |parts| > 0
    ensures |parts| == 1 <==> sep !in s
    decreases |s|
  {
    if |s| == 0 then [""]
    else
      var rest := Split(s[1..], sep);
      assert s == [s[0]] + s[1..];
      if s[0] == sep then
        [""] + rest
      else
        [[s[0]] + rest[0]] + rest[1..]
  }

  /** The pieces are separator-free. */
  lemma {:induction false} SplitPiecesHaveNoSeparator(s: string, sep: char)
    ensures forall i :: 0 <= i < |Split(s, sep)| ==> sep !in Split(s, sep)[i]
    decreases |s|
  {
    if |s| > 0 {
      SplitPiecesHaveNoSeparator(s[1..], sep);
      if s[0] != sep {
        SplitOtherHead(s[0], s[1..], sep);
        assert s == [s[0]] + s[1..];
      } else {
        SplitSeparatorHead(s[1..], sep);
        assert s == [s[0]] + s[1..];
      }
    }
  }

  /** Round trip: joining the pieces with the separator gives the string back. */
  lemma {:induction false} JoinSplit(s: string, sep: char)
    ensures Join(Split(s, sep), sep) == s
    decreases |s|
  {
    if |s| > 0 {
      JoinSplit(s[1..], sep);
      var rest := Split(s[1..], sep);
      assert s == [s[0]] + s[1..];
      if s[0] == sep {
        SplitSeparatorHead(s[1..], sep);
        assert ([""] + rest)[1..] == rest;
      } else {
        SplitOtherHead(s[0], s[1..], sep);
        var parts := [[s[0]] + rest[0]] + rest[1..];
        assert parts[1..] == rest[1..];
        if |rest| > 1 {
          assert Join(rest, sep) == rest[0] + [sep] + Join(rest[1..], sep);
          assert Join(parts, sep) == [s[0]] + rest[0] + [sep] + Join(rest[1..], sep);
        }
      }
    }
  }

  /** Splitting at a separator occurrence splits the two sides independently. */
  lemma {:induction false} SplitConcat(a: string, b: string, sep: char)
    ensures Split(a + [sep] + b, sep) == Split(a, sep) + Split(b, sep)
    decreases |a|
  {
    if |a| == 0 {
      assert a + [sep] + b == [sep] + b;
      SplitSeparatorHead(b, sep);
    } else {
      SplitConcat(a[1..], b, sep);
      assert a == [a[0]] + a[1..];
      assert a + [sep] + b == [a[0]] + (a[1..] + [sep] + b);
      SplitConcatStep(a[0], a[1..], b, sep);
    }
  }

  /** The inductive step of `SplitConcat`: one more character in front. */
  lemma SplitConcatStep(c: char, a: string, b: string, sep: char)
    requires Split(a + [sep] + b, sep) == Split(a, sep) + Split(b, sep)
    ensures Split([c] + (a + [sep] + b), sep) == Split([c] + a, sep) + Split(b, sep)
  {
    var t := a + [sep] + b;
    var A, B := Split(a, sep), Split(b, sep);
    if c == sep {
      SplitSeparatorHead(a, sep);
      SplitSeparatorHead(t, sep);
      SeqAssoc([""], A, B);
    } else {
      SplitOtherHead(c, a, sep);
      SplitOtherHead(c, t, sep);
      ConsAppend([c], A, B);
    }
  }

  lemma SeqAssoc<T>(x: seq<T>, y: seq<T>, z: seq<T>)
    ensures x + (y + z) == (x + y) + z
  {
  }

  /** Prefixing the first piece commutes with appending more pieces. */
  lemma ConsAppend(c: string, A: seq<string>, B: seq<string>)
    requires |A| > 0
    ensures [c + (A + B)[0]] + (A + B)[1..] == ([c + A[0]] + A[1..]) + B
  {
    assert (A + B)[0] == A[0];
    assert (A + B)[1..] == A[1..] + B;
  }

  lemma SplitSeparatorHead(t: string, sep: char)
    ensures Split([sep] + t, sep) == [""] + Split(t, sep)
  {
    assert ([sep] + t)[1..] == t;
  }

  lemma SplitOtherHead(c: char, t: string, sep: char)
    requires c != sep
    ensures Split([c] + t, sep) == [[c] + Split(t, sep)[0]] + Split(t, sep)[1..]
  {
    assert ([c] + t)[1..] == t;
  }

  /** A string without the separator is its own single piece. */
  lemma SplitWithoutSeparator(s: string, sep: char)
    requires sep !in s
    ensures Split(s, sep) == [s]
  {
    JoinSplit(s, sep);
  }

  /** The inverse round trip: splitting a join of separator-free pieces
      gives the pieces back. */
  lemma {:induction false} SplitJoin(parts: seq<string>, sep: char)
    requires |parts| > 0
    requires forall i :: 0 <= i < |parts| ==> sep !in parts[i]
    ensures Split(Join(parts, sep), sep) == parts
    decreases |parts|
  {
    if |parts| == 1 {
      SplitWithoutSeparator(parts[0], sep);
    } else {
      SplitJoin(parts[1..], sep);
      SplitConcat(parts[0], Join(parts[1..], sep), sep);
      SplitWithoutSeparator(parts[0], sep);
      assert parts == [parts[0]] + parts[1..];
    }
  }

  /** `key` is the text of `s` between the first separator and the next one
      (or the end of `s`). */
  predicate IsSecondField(s: string, sep: char, key: string)
  {
    exists i :: 0 <= i < |s| && s[i] == sep && sep !in s[..i]
      && i + 1 + |key| <= |s| && s[i + 1..i + 1 + |key|] == key && sep !in key
      && (i + 1 + |key| == |s| || s[i + 1 + |key|] == sep)
  }

  /** `s.split(sep)[1]` exists exactly when `sep` occurs, and it is the text
      between the first separator and the next one. */
  lemma SplitSecondField(s: string, sep: char)
    requires sep in s
    ensures |Split(s, sep)| > 1 && IsSecondField(s, sep, Split(s, sep)[1])
  {
    var parts := Split(s, sep);
    JoinSplit(s, sep);
    SplitPiecesHaveNoSeparator(s, sep);
    var rest: string := [];
    if |parts| > 2 {
      assert parts[1..][1..] == parts[2..];
      rest := [sep] + Join(parts[2..], sep);
    }
    assert Join(parts[1..], sep) == parts[1] + rest;
    SecondFieldOf(parts[0], parts[1], rest, sep);
  }

  lemma SecondFieldOf(first: string, key: string, rest: string, sep: char)
    requires sep !in first && sep !in key && (rest == [] || rest[0] == sep)
    ensures IsSecondField(first + [sep] + (key + rest), sep, key)
  {
    var s := first + [sep] + (key + rest);
    var i := |first|;
    assert s[..i] == first && s[i] == sep;
    assert s[i + 1..i + 1 + |key|] == key;
    if rest != [] {
      assert s[i + 1 + |key|] == rest[0];
    }
  }
}
