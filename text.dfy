/**
 * The few Python `str` operations the vehicle-data pipeline relies on:
 * string ordering (what `sorted` uses), `rsplit`/`split` to cut the date
 * out of a file name, slicing with Python's clamping, and `int()` restricted
 * to plain ASCII digit strings.
 */
module Text {
  import opened Wrappers

  // ---------------------------------------------------------------------
  // Ordering of strings
  // ---------------------------------------------------------------------

  /** Python's `a <= b` on `str`: lexicographic by code point, and a proper
      prefix sorts before the longer string. */
  predicate LessEq(a: string, b: string)
  {
    if a == [] then true
    else if b == [] then false
    else if a[0] != b[0] then a[0] < b[0]
    else LessEq(a[1..], b[1..])
  }

  lemma {:induction false} LessEqReflexive(a: string)
    ensures LessEq(a, a)
  {
    if a != [] { LessEqReflexive(a[1..]); }
  }

  lemma {:induction false} LessEqTotal(a: string, b: string)
    ensures LessEq(a, b) || LessEq(b, a)
  {
    if a != [] && b != [] && a[0] == b[0] { LessEqTotal(a[1..], b[1..]); }
  }

  lemma {:induction false} LessEqAntisymmetric(a: string, b: string)
    requires LessEq(a, b) && LessEq(b, a)
    ensures a == b
  {
    if a != [] && b != [] {
      LessEqAntisymmetric(a[1..], b[1..]);
      assert a == [a[0]] + a[1..] && b == [b[0]] + b[1..];
    }
  }

  lemma {:induction false} LessEqTransitive(a: string, b: string, c: string)
    requires LessEq(a, b) && LessEq(b, c)
    ensures LessEq(a, c)
  {
    if a != [] && b != [] && c != [] && a[0] == b[0] && b[0] == c[0] {
      LessEqTransitive(a[1..], b[1..], c[1..]);
    }
  }

  /** A shared prefix does not change how two strings compare. */
  lemma {:induction false} LessEqCommonPrefix(p: string, x: string, y: string)
    ensures LessEq(p + x, p + y) == LessEq(x, y)
  {
    if p == [] {
      assert p + x == x && p + y == y;
    } else {
      assert p + x != [] && p + y != [];
      assert (p + x)[0] == p[0] && (p + x)[1..] == p[1..] + x;
      assert (p + y)[0] == p[0] && (p + y)[1..] == p[1..] + y;
      LessEqCommonPrefix(p[1..], x, y);
    }
  }

  /** Two different strings of equal length are ordered by themselves,
      whatever follows them. */
  lemma {:induction false} LessEqEqualLength(x: string, y: string, s: string, t: string)
    requires |x| == |y| && x != y
    ensures LessEq(x + s, y + t) == LessEq(x, y)
  {
    assert x != [] && y != [];
    assert (x + s)[0] == x[0] && (x + s)[1..] == x[1..] + s;
    assert (y + t)[0] == y[0] && (y + t)[1..] == y[1..] + t;
    if x[0] == y[0] {
      assert x == [x[0]] + x[1..] && y == [y[0]] + y[1..];
      LessEqEqualLength(x[1..], y[1..], s, t);
    }
  }

  // ---------------------------------------------------------------------
  // Splitting
  // ---------------------------------------------------------------------

  /** `s.rsplit(c)[-1]`: the text after the last `c`, or all of `s` when it
      holds no `c`. */
  function AfterLast(c: char, s: string): (r: string)
    ensures c !in r
    ensures |r| <= |s| && r == s[|s| - |r|..]
    ensures |r| < |s| ==> s[|s| - |r| - 1] == c
  {
    if s == [] then []
    else if s[|s| - 1] == c then []
    else AfterLast(c, s[..|s| - 1]) + [s[|s| - 1]]
  }

  /** `s.split(c)[0]`: the text before the first `c`, or all of `s` when it
      holds no `c`. */
  function BeforeFirst(c: char, s: string): (r: string)
    ensures c !in r
    ensures |r| <= |s| && r == s[..|r|]
    ensures |r| < |s| ==> s[|r|] == c
  {
    if s == [] then []
    else if s[0] == c then []
    else [s[0]] + BeforeFirst(c, s[1..])
  }

  lemma {:induction false} AfterLastOfLast(c: char, s: string, t: string)
    requires c !in t
    ensures AfterLast(c, s + [c] + t) == t
  {
    if t != [] {
      var t' := t[..|t| - 1];
      var u := s + [c] + t;
      assert u[|u| - 1] == t[|t| - 1];
      assert u[..|u| - 1] == s + [c] + t';
      AfterLastOfLast(c, s, t');
      assert t == t' + [t[|t| - 1]];
    }
  }

  lemma {:induction false} BeforeFirstOfFirst(c: char, s: string, t: string)
    requires c !in s
    ensures BeforeFirst(c, s + [c] + t) == s
  {
    if s != [] {
      var u := s + [c] + t;
      assert u[0] == s[0] && u[1..] == s[1..] + [c] + t;
      BeforeFirstOfFirst(c, s[1..], t);
      assert s == [s[0]] + s[1..];
    }
  }

  // ---------------------------------------------------------------------
  // Slicing
  // ---------------------------------------------------------------------

  /** `s[:n]` for a non-negative `n`. */
  function Take(s: string, n: nat): string
  {
    if n <= |s| then s[..n] else s
  }

  /** `s[n:]` for a non-negative `n`. */
  function Drop(s: string, n: nat): string
  {
    if n <= |s| then s[n..] else []
  }

  /** `s[lo:hi]` for non-negative bounds. */
  function Slice(s: string, lo: nat, hi: nat): string
    requires lo <= hi
  {
    Take(Drop(s, lo), hi - lo)
  }

  /** `s[:-n]` for a positive `n`: all but the last `n` characters, or the
      empty string when `s` is shorter. */
  function DropLast(s: string, n: nat): (r: string)
    requires n > 0
    ensures |r| == if |s| >= n then |s| - n else 0
    ensures r + Drop(s, |r|) == s
  {
    if |s| >= n then s[..|s| - n] else []
  }

  /** Cutting a string at two points and gluing the pieces back loses nothing. */
  lemma SlicesCover(s: string, i: nat, j: nat)
    requires i <= j
    ensures Take(s, i) + Slice(s, i, j) + Drop(s, j) == s
  {
  }

  // ---------------------------------------------------------------------
  // Digits and `int()`
  // ---------------------------------------------------------------------

  predicate IsDigit(c: char)
  {
    '0' <= c <= '9'
  }

  predicate AllDigits(s: string)
  {
    forall i :: 0 <= i < |s| ==> IsDigit(s[i])
  }

  function DigitValue(c: char): (v: nat)
    requires IsDigit(c)
    ensures v < 10
  {
    c as int - '0' as int
  }

  function DigitChar(v: nat): (c: char)
    requires v < 10
    ensures IsDigit(c) && DigitValue(c) == v
  {
    ('0' as int + v) as char
  }

  function Pow10(n: nat): (p: nat)
    ensures p >= 1
  {
    if n == 0 then 1 else 10 * Pow10(n - 1)
  }

  /** The number a decimal digit string denotes. */
  function Value(s: string): (v: nat)
    requires AllDigits(s)
    ensures v < Pow10(|s|)
  {
    if s == [] then 0
    else Value(s[..|s| - 1]) * 10 + DigitValue(s[|s| - 1])
  }

  /** Python's `int(s)` on the inputs this model admits: a non-empty string of
      ASCII digits gives its value and anything else raises `ValueError`
      (here: `None`). */
  function ParseInt(s: string): (r: Option<nat>)
    ensures r.Some? <==> s != [] && AllDigits(s)
    ensures r.Some? ==> r.value < Pow10(|s|)
  {
    if s != [] && AllDigits(s) then Some(Value(s)) else None
  }

  /** `f"{n:0{width}d}"` for `n < 10^width`: `n` in exactly `width` digits,
      zero-padded on the left. */
  function Pad(n: nat, width: nat): (s: string)
    ensures |s| == width && AllDigits(s)
  {
    if width == 0 then [] else Pad(n / 10, width - 1) + [DigitChar(n % 10)]
  }

  /** Reading back a padded number gives the number. */
  lemma {:induction false} ValueOfPad(n: nat, width: nat)
    requires n < Pow10(width)
    ensures Value(Pad(n, width)) == n
  {
    if width > 0 {
      var s := Pad(n, width);
      assert s[..|s| - 1] == Pad(n / 10, width - 1);
      ValueOfPad(n / 10, width - 1);
    }
  }

  /** Padding the value of a digit string to its own length gives the string back. */
  lemma {:induction false} PadOfValue(s: string)
    requires AllDigits(s)
    ensures Pad(Value(s), |s|) == s
  {
    if s != [] {
      var init := s[..|s| - 1];
      var v := Value(s);
      assert v / 10 == Value(init) && v % 10 == DigitValue(s[|s| - 1]);
      PadOfValue(init);
      assert DigitChar(DigitValue(s[|s| - 1])) == s[|s| - 1];
      assert s == init + [s[|s| - 1]];
    }
  }

  /** The value of a concatenation: the left part is shifted by the length of the right. */
  lemma {:induction false} ValueConcat(x: string, y: string)
    requires AllDigits(x) && AllDigits(y)
    ensures AllDigits(x + y)
    ensures Value(x + y) == Value(x) * Pow10(|y|) + Value(y)
  {
    if y != [] {
      var xy := x + y;
      var y' := y[..|y| - 1];
      assert xy[..|xy| - 1] == x + y';
      ValueConcat(x, y');
      calc {
        Value(xy);
        Value(x + y') * 10 + DigitValue(y[|y| - 1]);
        (Value(x) * Pow10(|y'|) + Value(y')) * 10 + DigitValue(y[|y| - 1]);
        { MulAssoc10(Value(x), Pow10(|y'|)); }
        Value(x) * Pow10(|y|) + Value(y);
      }
    } else {
      assert x + y == x;
    }
  }

  lemma MulAssoc10(a: nat, b: nat)
    ensures (a * b) * 10 == a * (10 * b)
  {
  }

  /** A smaller leading digit decides, whatever the lower digits are. */
  lemma LeadingDigitDecides(da: nat, db: nat, ra: nat, rb: nat, p: nat)
    requires da < db && ra < p
    ensures da * p + ra < db * p + rb
  {
    MulMonotone(da + 1, db, p);
    assert (da + 1) * p == da * p + p;
  }

  lemma {:induction false} MulMonotone(a: nat, b: nat, p: nat)
    requires a <= b
    ensures a * p <= b * p
  {
    if a < b {
      MulMonotone(a, b - 1, p);
      assert b * p == (b - 1) * p + p;
    }
  }

  /** For digit strings of one length, string order is numeric order. This is
      why sorting zero-padded date stamps as text sorts them by value. */
  lemma {:induction false} LessEqIsNumeric(a: string, b: string)
    requires AllDigits(a) && AllDigits(b) && |a| == |b|
    ensures LessEq(a, b) <==> Value(a) <= Value(b)
  {
    if a != [] {
      var a', b' := a[1..], b[1..];
      assert a == [a[0]] + a' && b == [b[0]] + b';
      ValueConcat([a[0]], a');
      ValueConcat([b[0]], b');
      var p := Pow10(|a'|);
      assert Value(a) == DigitValue(a[0]) * p + Value(a');
      assert Value(b) == DigitValue(b[0]) * p + Value(b');
      if a[0] < b[0] {
        LeadingDigitDecides(DigitValue(a[0]), DigitValue(b[0]), Value(a'), Value(b'), p);
      } else if b[0] < a[0] {
        LeadingDigitDecides(DigitValue(b[0]), DigitValue(a[0]), Value(b'), Value(a'), p);
      } else {
        LessEqIsNumeric(a', b');
      }
    }
  }
}
