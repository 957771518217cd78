/**
 * Numbers as the invoice parser reads them: a captured token has its comma
 * turned into a point (`replace(',', '.')`, first occurrence only) and is
 * read by `parseFloat`; an accepted value is stored as
 * `parseFloat(val.toFixed(2))`.
 *
 * Values are exact decimals kept as whole thousandths (`nat`): every token
 * the patterns capture has at most three decimals, so nothing is lost.
 * Binary floating point is not modelled; `toFixed(2)` is rounding to the
 * nearest hundredth with halves rounded up, as the ECMAScript definition
 * prescribes for the exact value.
 */
module Decimals {
  import opened Text
  import opened Patterns

  function DigitValue(c: char): (v: nat)
    requires IsDigit(c)
    ensures v < 10
  {
    c as int - '0' as int
  }

  function DigitChar(v: nat): (c: char)
    requires v < 10
    ensures IsDigit(c) && DigitValue(c) == v
  {
    ('0' as int + v) as char
  }

  /** The value of a string of decimal digits, read most significant first. */
  function DigitsValue(d: string): nat
    requires AllDigits(d)
    decreases |d|
  {
    if d == [] then 0 else DigitsValue(d[..|d| - 1]) * 10 + DigitValue(d[|d| - 1])
  }

  function Pow10(k: nat): (p: nat)
    ensures p >= 1
  {
    if k == 0 then 1 else 10 * Pow10(k - 1)
  }

  /** `t.replace(',', '.')`: only the first comma becomes a point. */
  function CommaToDot(t: string): (r: string)
    ensures |r| == |t|
    decreases |t|
  {
    if t == [] then []
    else if t[0] == ',' then "." + t[1..]
    else [t[0]] + CommaToDot(t[1..])
  }

  /** Position by position: the first comma becomes a point, every other character stays. */
  lemma {:induction false} CommaToDotReplacesFirst(t: string)
    ensures forall k | 0 <= k < |t| ::
      CommaToDot(t)[k] == (if t[k] == ',' && ',' !in t[..k] then '.' else t[k])
    decreases |t|
  {
    if t != [] && t[0] != ',' {
      CommaToDotReplacesFirst(t[1..]);
      forall k | 1 <= k < |t|
        ensures CommaToDot(t)[k] == (if t[k] == ',' && ',' !in t[..k] then '.' else t[k])
      {
        assert CommaToDot(t)[k] == CommaToDot(t[1..])[k - 1];
        assert t[1..][k - 1] == t[k];
        assert t[..k] == [t[0]] + t[1..][..k - 1];
      }
    }
  }

  /** What `parseFloat` reads exactly: digits, then optionally a point and at most three digits. */
  predicate IsPlainDecimal(t: string) {
    var n := DigitRun(t, 0);
    1 <= n && (n == |t| || (t[n] == '.' && AllDigits(t[n + 1..]) && |t| - n - 1 <= 3))
  }

  /** `parseFloat` of a plain decimal, in thousandths. */
  function ParseMilli(t: string): nat
    requires IsPlainDecimal(t)
  {
    var n := DigitRun(t, 0);
    var whole := DigitsValue(t[..n]) * 1000;
    if n == |t| then whole else whole + DigitsValue(t[n + 1..]) * Pow10(3 - (|t| - n - 1))
  }

  /** The integer part of what `parseFloat` reads is the number the digits before the point spell. */
  lemma ParseMilliWholePart(t: string)
    requires IsPlainDecimal(t)
    ensures ParseMilli(t) / 1000 == DigitsValue(t[..DigitRun(t, 0)])
  {
    var n := DigitRun(t, 0);
    var whole := DigitsValue(t[..n]);
    var x := ParseMilli(t) - whole * 1000;
    assert x < 1000 by {
      if n < |t| {
        var f := t[n + 1..];
        DigitsBelow(f);
        assert Pow10(|f|) * Pow10(3 - |f|) == 1000 by {
          Pow10Add(|f|, 3 - |f|);
          assert Pow10(3) == 10 * (10 * (10 * Pow10(0)));
        }
      }
    }
    assert ParseMilli(t) == whole * 1000 + x;
  }

  lemma {:induction false} DigitsBelow(d: string)
    requires AllDigits(d)
    ensures DigitsValue(d) < Pow10(|d|)
    decreases |d|
  {
    if d != [] {
      DigitsBelow(d[..|d| - 1]);
      assert Pow10(|d|) == 10 * Pow10(|d| - 1);
    }
  }

  lemma {:induction false} Pow10Add(a: nat, b: nat)
    ensures Pow10(a) * Pow10(b) == Pow10(a + b)
    decreases a
  {
    if a > 0 {
      Pow10Add(a - 1, b);
      assert Pow10(a) * Pow10(b) == 10 * (Pow10(a - 1) * Pow10(b));
    }
  }

  /** Shapes whose tokens are exact in thousandths. */
  predicate Exact(shape: Shape) {
    shape.Decimal? ==> shape.maxFrac <= 3
  }

  /**
   * A captured token, with its separator read as a decimal point, is the
   * exact decimal `whole.frac`: "78,52" and "78.52" both read 78520
   * thousandths.
   */
  lemma {:induction false} TokenReading(c: string, shape: Shape)
    requires Shaped(c, shape) && Exact(shape)
    ensures IsPlainDecimal(CommaToDot(c))
    ensures shape.Whole? ==> ParseMilli(CommaToDot(c)) == DigitsValue(c) * 1000
    ensures shape.Decimal? ==>
      var n := DigitRun(c, 0);
      ParseMilli(CommaToDot(c)) == DigitsValue(c[..n]) * 1000 + DigitsValue(c[n + 1..]) * Pow10(3 - (|c| - n - 1))
  {
    var n := DigitRun(c, 0);
    if shape.Whole? {
      NoCommaUnchanged(c);
      DigitRunIs(c, 0, |c|);
      assert c[..|c|] == c;
    } else {
      var t := CommaToDot(c);
      assert c == c[..n] + [c[n]] + c[n + 1..];
      CommaToDotAfterDigits(c[..n], c[n], c[n + 1..]);
      assert t == c[..n] + "." + c[n + 1..];
      assert forall k | 0 <= k < n :: t[k] == c[k];
      DigitRunIs(t, 0, n);
      assert t[..n] == c[..n] && t[n + 1..] == c[n + 1..];
    }
  }

  lemma {:induction false} NoCommaUnchanged(t: string)
    requires AllDigits(t)
    ensures CommaToDot(t) == t
    decreases |t|
  {
    if t != [] {
      NoCommaUnchanged(t[1..]);
    }
  }

  lemma {:induction false} CommaToDotAfterDigits(w: string, sep: char, f: string)
    requires AllDigits(w) && IsSep(sep) && AllDigits(f)
    ensures CommaToDot(w + [sep] + f) == w + "." + f
    decreases |w|
  {
    var t := w + [sep] + f;
    if w == [] {
      assert t[0] == sep && t[1..] == f;
      if sep == '.' {
        NoCommaUnchanged(f);
      }
      assert w + "." + f == "." + f;
    } else {
      assert t[0] == w[0] && t[0] != ',';
      assert t[1..] == w[1..] + [sep] + f;
      CommaToDotAfterDigits(w[1..], sep, f);
      assert [w[0]] + (w[1..] + "." + f) == w + "." + f;
    }
  }

  /** The candidate value of a captured token, in thousandths. */
  function TokenMilli(c: string, shape: Shape): nat
    requires Shaped(c, shape) && Exact(shape)
  {
    TokenReading(c, shape);
    ParseMilli(CommaToDot(c))
  }

  /** A token with exactly two decimals is a whole number of cents. */
  lemma CentsToken(c: string, shape: Shape)
    requires shape.Decimal? && shape.minFrac == 2 && shape.maxFrac == 2 && Shaped(c, shape)
    ensures TokenMilli(c, shape) % 10 == 0
  {
    var n := DigitRun(c, 0);
    TokenReading(c, shape);
    var whole, cents := DigitsValue(c[..n]), DigitsValue(c[n + 1..]);
    assert |c| - n - 1 == 2;
    assert Pow10(3 - (|c| - n - 1)) == 10 by {
      assert Pow10(1) == 10 * Pow10(0);
    }
    assert TokenMilli(c, shape) == whole * 1000 + cents * 10;
    assert whole * 1000 + cents * 10 == (whole * 100 + cents) * 10;
  }

  /**
   * `toFixed(2)` of an exact value given in thousandths, as a count of
   * hundredths: the nearest one, halves rounded up.
   */
  function RoundToCents(milli: nat): (cents: nat)
    ensures milli < cents * 10 + 5 && cents * 10 <= milli + 5
    ensures milli % 10 == 0 ==> cents * 10 == milli
  {
    (milli + 5) / 10
  }

  /** The decimal digits of `n`, without leading zeros. */
  function NatDigits(n: nat): (d: string)
    ensures 1 <= |d| && AllDigits(d) && DigitsValue(d) == n
  {
    if n < 10 then [DigitChar(n)]
    else
      var d := NatDigits(n / 10) + [DigitChar(n % 10)];
      assert d[..|d| - 1] == NatDigits(n / 10);
      d
  }

  /** The text `toFixed(2)` produces for a value in thousandths. */
  function ToFixed2(milli: nat): (t: string)
    ensures |t| >= 4 && AllDigits(t[..|t| - 3]) && t[|t| - 3] == '.'
    ensures IsDigit(t[|t| - 2]) && IsDigit(t[|t| - 1])
  {
    var cents := RoundToCents(milli);
    var w := NatDigits(cents / 100);
    var t := w + "." + [DigitChar(cents % 100 / 10), DigitChar(cents % 10)];
    assert t[..|t| - 3] == w;
    t
  }

  /**
   * `parseFloat(val.toFixed(2))` reads back exactly the rounded value: the
   * string round trip adds no error of its own.
   */
  lemma ToFixed2RoundTrip(milli: nat)
    ensures IsPlainDecimal(ToFixed2(milli))
    ensures ParseMilli(ToFixed2(milli)) == Stored(milli)
  {
    var cents := RoundToCents(milli);
    var w := NatDigits(cents / 100);
    var f := [DigitChar(cents % 100 / 10), DigitChar(cents % 10)];
    var t := ToFixed2(milli);
    assert t == w + "." + f;
    assert forall k | 0 <= k < |w| :: t[k] == w[k];
    DigitRunIs(t, 0, |w|);
    assert t[..|w|] == w && t[|w| + 1..] == f;
    TwoDigits(cents % 100 / 10, cents % 10);
    CentsSplit(cents);
  }

  lemma TwoDigits(a: nat, b: nat)
    requires a < 10 && b < 10
    ensures DigitsValue([DigitChar(a), DigitChar(b)]) == a * 10 + b
  {
    var f := [DigitChar(a), DigitChar(b)];
    var g := [DigitChar(a)];
    assert f[..1] == g && g[..0] == [];
    assert DigitsValue(g) == DigitsValue([]) * 10 + a == a;
    assert DigitsValue(f) == DigitsValue(g) * 10 + b;
  }

  lemma CentsSplit(c: nat)
    ensures c / 100 * 1000 + (c % 100 / 10 * 10 + c % 10) * Pow10(1) == c * 10
  {
    assert Pow10(1) == 10 * Pow10(0) == 10;
    var h, r := c / 100, c % 100;
    var t, u := r / 10, r % 10;
    assert c == h * 100 + r;
    assert r == t * 10 + u;
    assert c % 10 == u by {
      assert c == (h * 10 + t) * 10 + u;
    }
    assert (t * 10 + u) * 10 == t * 100 + u * 10;
    assert h * 1000 == h * 100 * 10;
  }

  /**
   * The stored value `parseFloat(val.toFixed(2))`, in thousandths: by
   * `ToFixed2RoundTrip` it is the value rounded to hundredths.
   */
  function Stored(milli: nat): (v: nat)
    ensures v % 10 == 0
    ensures milli < v + 5 && v <= milli + 5
    ensures milli % 10 == 0 ==> v == milli
  {
    RoundToCents(milli) * 10
  }
}
