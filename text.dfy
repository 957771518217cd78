/**
 * Text normalisation shared by both handlers: JavaScript's `\s` character
 * class, `toLowerCase` (ASCII letters only), the `replace(/\s+/g, ' ')`
 * whitespace collapse applied before any pattern is tried, and the
 * `(req.query.tipo || 'luce').toLowerCase()` energy-type default.
 */
module Text {
  import opened Wrappers

  /** JavaScript's `\s`: the WhiteSpace and LineTerminator code points. */
  predicate IsSpace(c: char) {
    || c == '\t' || c == '\n' || c == '\U{000B}' || c == '\U{000C}' || c == '\r' || c == ' '
    || c == '\U{00A0}' || c == '\U{1680}' || ('\U{2000}' <= c <= '\U{200A}')
    || c == '\U{2028}' || c == '\U{2029}' || c == '\U{202F}' || c == '\U{205F}'
    || c == '\U{3000}' || c == '\U{FEFF}'
  }

  predicate IsDigit(c: char) {
    '0' <= c <= '9'
  }

  predicate IsUpper(c: char) {
    'A' <= c <= 'Z'
  }

  function LowerChar(c: char): (d: char)
    ensures !IsUpper(d)
    ensures IsSpace(d) == IsSpace(c) && IsDigit(d) == IsDigit(c)
    ensures !IsUpper(c) ==> d == c
  {
    if IsUpper(c) then (c as int + 32) as char else c
  }

  /** `String.prototype.toLowerCase`, restricted to the ASCII letters. */
  function Lower(s: string): (r: string)
    ensures |r| == |s|
    ensures forall k | 0 <= k < |s| :: r[k] == LowerChar(s[k])
  {
    seq(|s|, k requires 0 <= k < |s| => LowerChar(s[k]))
  }

  predicate NoUpper(s: string) {
    forall k | 0 <= k < |s| :: !IsUpper(s[k])
  }

  /** Length of the run of `\s` characters that starts at `p`. */
  function SpaceRun(s: string, p: nat): (n: nat)
    requires p <= |s|
    ensures p + n <= |s|
    ensures forall k | p <= k < p + n :: IsSpace(s[k])
    ensures p + n == |s| || !IsSpace(s[p + n])
    decreases |s| - p
  {
    if p < |s| && IsSpace(s[p]) then 1 + SpaceRun(s, p + 1) else 0
  }

  /**
   * A collapsed text uses no whitespace but the plain space, and never two
   * whitespace characters in a row.
   */
  predicate Collapsed(r: string) {
    forall k | 0 <= k < |r| && IsSpace(r[k]) :: LoneSpace(r, k)
  }

  /** Position `k` holds a plain space and no whitespace follows it. */
  predicate LoneSpace(r: string, k: nat)
    requires k < |r|
  {
    r[k] == ' ' && (k + 1 == |r| || !IsSpace(r[k + 1]))
  }

  /** `replace(/\s+/g, ' ')`: every maximal whitespace run becomes one space. */
  function Collapse(s: string): (r: string)
    ensures |r| <= |s|
    ensures |r| == 0 <==> |s| == 0
    ensures |r| > 0 ==> (IsSpace(r[0]) <==> IsSpace(s[0]))
    ensures Collapsed(r)
    decreases |s|
  {
    if s == [] then []
    else if IsSpace(s[0]) then " " + Collapse(s[SpaceRun(s, 0)..])
    else [s[0]] + Collapse(s[1..])
  }

  /** The text every pattern is matched against: lowercased, then collapsed. */
  function Normalize(s: string): string {
    Collapse(Lower(s))
  }

  /** The characters of `s` that are not whitespace, in order. */
  function Squeeze(s: string): string {
    if s == [] then [] else (if IsSpace(s[0]) then [] else [s[0]]) + Squeeze(s[1..])
  }

  lemma {:induction false} SqueezeSkipsSpaces(s: string, n: nat)
    requires n <= |s|
    requires forall k | 0 <= k < n :: IsSpace(s[k])
    ensures Squeeze(s[n..]) == Squeeze(s)
  {
    if n > 0 {
      assert s[1..][n - 1..] == s[n..];
      SqueezeSkipsSpaces(s[1..], n - 1);
    }
  }

  /** Collapsing whitespace keeps every other character, in order. */
  lemma {:induction false} CollapseKeepsText(s: string)
    ensures Squeeze(Collapse(s)) == Squeeze(s)
  {
    if s != [] {
      var r := Collapse(s);
      if IsSpace(s[0]) {
        var n := SpaceRun(s, 0);
        CollapseKeepsText(s[n..]);
        SqueezeSkipsSpaces(s, n);
        assert r[1..] == Collapse(s[n..]);
      } else {
        CollapseKeepsText(s[1..]);
        assert r[1..] == Collapse(s[1..]);
      }
    }
  }

  /** Collapse leaves an already collapsed text unchanged. */
  lemma {:induction false} CollapseFixesCollapsed(r: string)
    requires Collapsed(r)
    ensures Collapse(r) == r
  {
    if r != [] {
      assert Collapsed(r[1..]) by {
        forall k | 0 <= k < |r[1..]| && IsSpace(r[1..][k])
          ensures r[1..][k] == ' ' && (k + 1 == |r[1..]| || !IsSpace(r[1..][k + 1]))
        {
          assert r[1..][k] == r[k + 1];
        }
      }
      CollapseFixesCollapsed(r[1..]);
      if IsSpace(r[0]) {
        assert SpaceRun(r, 0) == 1 by {
          assert |r| == 1 || !IsSpace(r[1]);
        }
      }
    }
  }

  /** Collapsing twice is collapsing once. */
  lemma CollapseIdempotent(s: string)
    ensures Collapse(Collapse(s)) == Collapse(s)
  {
    CollapseFixesCollapsed(Collapse(s));
  }

  /** A non-empty whitespace run on its own collapses to a single space. */
  lemma CollapseBlank(w: string)
    requires w != [] && forall k | 0 <= k < |w| :: IsSpace(w[k])
    ensures Collapse(w) == " "
  {
    assert SpaceRun(w, 0) == |w|;
    assert w[|w|..] == [];
  }

  /**
   * Collapsing works piece by piece wherever the cut does not split a
   * whitespace run: between words the run becomes one space, never none.
   */
  lemma {:induction false} CollapseConcat(a: string, b: string)
    requires a == [] || b == [] || !IsSpace(a[|a| - 1]) || !IsSpace(b[0])
    ensures Collapse(a + b) == Collapse(a) + Collapse(b)
    decreases |a|, 1
  {
    if a == [] {
      assert a + b == b;
    } else if b == [] {
      assert a + b == a;
    } else if IsSpace(a[0]) {
      CollapseConcatSpace(a, b);
    } else {
      CollapseConcatOther(a, b);
    }
  }

  /** A whitespace run between two words becomes exactly one space. */
  lemma CollapseBetweenWords(u: string, w: string, v: string)
    requires u != [] && !IsSpace(u[|u| - 1])
    requires w != [] && forall k | 0 <= k < |w| :: IsSpace(w[k])
    requires v != [] && !IsSpace(v[0])
    ensures Collapse(u + w + v) == Collapse(u) + " " + Collapse(v)
  {
    assert u + w + v == u + (w + v);
    CollapseConcat(u, w + v);
    CollapseConcat(w, v);
    CollapseBlank(w);
  }

  lemma {:induction false} CollapseConcatSpace(a: string, b: string)
    requires a != [] && b != [] && IsSpace(a[0])
    requires !IsSpace(a[|a| - 1]) || !IsSpace(b[0])
    ensures Collapse(a + b) == Collapse(a) + Collapse(b)
    decreases |a|, 0
  {
    var n := SpaceRun(a, 0);
    if n == |a| {
      CollapseBlankPrefix(a, b);
    } else {
      var tail := a[n..];
      assert Collapse(a + b) == " " + Collapse(tail + b) by {
        SpaceRunConcat(a, b);
        assert (a + b)[0] == a[0];
        CollapseSpaceStart(a + b);
        assert (a + b)[n..] == tail + b;
      }
      assert Collapse(a) == " " + Collapse(tail) by {
        CollapseSpaceStart(a);
      }
      assert Collapse(tail + b) == Collapse(tail) + Collapse(b) by {
        assert tail[|tail| - 1] == a[|a| - 1];
        CollapseConcat(tail, b);
      }
      ConsConcat(' ', Collapse(tail), Collapse(b));
    }
  }

  lemma CollapseBlankPrefix(a: string, b: string)
    requires a != [] && SpaceRun(a, 0) == |a|
    requires b != [] && !IsSpace(b[0])
    ensures Collapse(a + b) == Collapse(a) + Collapse(b)
  {
    SpaceRunConcat(a, b);
    assert (a + b)[0] == a[0];
    CollapseSpaceStart(a + b);
    assert (a + b)[|a|..] == b;
    CollapseSpaceStart(a);
    assert a[|a|..] == [];
  }

  lemma CollapseSpaceStart(s: string)
    requires s != [] && IsSpace(s[0])
    ensures Collapse(s) == " " + Collapse(s[SpaceRun(s, 0)..])
  {
  }

  lemma {:induction false} CollapseConcatOther(a: string, b: string)
    requires a != [] && b != [] && !IsSpace(a[0])
    requires !IsSpace(a[|a| - 1]) || !IsSpace(b[0])
    ensures Collapse(a + b) == Collapse(a) + Collapse(b)
    decreases |a|, 0
  {
    var c, tail := a[0], a[1..];
    assert a == [c] + tail && a + b == [c] + (tail + b);
    CollapseWord(c, tail);
    CollapseWord(c, tail + b);
    if tail != [] {
      assert tail[|tail| - 1] == a[|a| - 1];
    }
    CollapseConcat(tail, b);
    ConsConcat(c, Collapse(tail), Collapse(b));
  }

  lemma ConsConcat(c: char, p: string, q: string)
    ensures [c] + (p + q) == ([c] + p) + q
  {
  }

  lemma CollapseWord(c: char, s: string)
    requires !IsSpace(c)
    ensures Collapse([c] + s) == [c] + Collapse(s)
  {
    assert ([c] + s)[1..] == s;
  }

  lemma SpaceRunConcat(a: string, b: string)
    ensures SpaceRun(a + b, 0) == if SpaceRun(a, 0) < |a| then SpaceRun(a, 0) else |a| + SpaceRun(b, 0)
  {
    var n := SpaceRun(a, 0);
    var ab := a + b;
    if n < |a| {
      assert forall k | 0 <= k <= n :: ab[k] == a[k];
      SpaceRunIs(ab, 0, n);
    } else {
      var m := SpaceRun(b, 0);
      assert forall k | |a| <= k < |ab| :: ab[k] == b[k - |a|];
      assert forall k | 0 <= k < |a| :: ab[k] == a[k];
      SpaceRunIs(ab, 0, |a| + m);
    }
  }

  lemma {:induction false} SpaceRunIs(s: string, p: nat, n: nat)
    requires p + n <= |s|
    requires forall k | p <= k < p + n :: IsSpace(s[k])
    requires p + n == |s| || !IsSpace(s[p + n])
    ensures SpaceRun(s, p) == n
    decreases n
  {
    if n > 0 {
      SpaceRunIs(s, p + 1, n - 1);
    }
  }

  lemma LowerSlice(s: string, n: nat)
    requires n <= |s|
    ensures Lower(s)[n..] == Lower(s[n..])
  {
  }

  lemma {:induction false} LowerKeepsSpaceRun(s: string)
    ensures SpaceRun(Lower(s), 0) == SpaceRun(s, 0)
  {
    if s != [] && IsSpace(s[0]) {
      LowerKeepsSpaceRun(s[1..]);
      SpaceRunShift(s);
      SpaceRunShift(Lower(s));
      LowerSlice(s, 1);
    }
  }

  lemma {:induction false} SpaceRunShift(s: string)
    requires s != [] && IsSpace(s[0])
    ensures SpaceRun(s, 0) == 1 + SpaceRun(s[1..], 0)
  {
    var n := SpaceRun(s[1..], 0);
    var m := SpaceRun(s, 1);
    assert m == n by {
      SpaceRunFrom(s, 1);
    }
  }

  lemma {:induction false} SpaceRunFrom(s: string, p: nat)
    requires p <= |s|
    ensures SpaceRun(s, p) == SpaceRun(s[p..], 0)
    decreases |s| - p
  {
    if p < |s| && IsSpace(s[p]) {
      SpaceRunFrom(s, p + 1);
      assert s[p..][1..] == s[p + 1..];
      SpaceRunFrom(s[p..], 1);
    }
  }

  /** Lowercasing and collapsing commute, since lowercasing keeps whitespace where it is. */
  lemma {:induction false} LowerCollapseCommute(s: string)
    ensures Lower(Collapse(s)) == Collapse(Lower(s))
    decreases |s|, 1
  {
    if s != [] {
      if IsSpace(s[0]) {
        LowerCollapseSpace(s);
      } else {
        LowerCollapseOther(s);
      }
    }
  }

  lemma {:induction false} LowerCollapseSpace(s: string)
    requires s != [] && IsSpace(s[0])
    ensures Lower(Collapse(s)) == Collapse(Lower(s))
    decreases |s|, 0
  {
    var n := SpaceRun(s, 0);
    var ls := Lower(s);
    LowerKeepsSpaceRun(s);
    LowerSlice(s, n);
    LowerCollapseCommute(s[n..]);
    assert IsSpace(ls[0]);
    assert Collapse(ls) == " " + Collapse(ls[n..]);
    assert Collapse(s) == " " + Collapse(s[n..]);
    LowerConcat(" ", Collapse(s[n..]));
  }

  lemma {:induction false} LowerCollapseOther(s: string)
    requires s != [] && !IsSpace(s[0])
    ensures Lower(Collapse(s)) == Collapse(Lower(s))
    decreases |s|, 0
  {
    var ls := Lower(s);
    LowerSlice(s, 1);
    LowerCollapseCommute(s[1..]);
    assert !IsSpace(ls[0]);
    assert Collapse(ls) == [ls[0]] + Collapse(ls[1..]);
    assert Collapse(s) == [s[0]] + Collapse(s[1..]);
    LowerConcat([s[0]], Collapse(s[1..]));
    assert Lower([s[0]]) == [ls[0]];
  }

  lemma LowerConcat(a: string, b: string)
    ensures Lower(a + b) == Lower(a) + Lower(b)
  {
    assert forall k | 0 <= k < |a + b| :: (a + b)[k] == if k < |a| then a[k] else b[k - |a|];
  }

  /**
   * Normalising an already normalised text changes nothing; a normalised
   * text has no upper-case letter and is collapsed.
   */
  lemma NormalizeIdempotent(s: string)
    ensures Normalize(Normalize(s)) == Normalize(s)
    ensures NoUpper(Normalize(s)) && Collapsed(Normalize(s))
  {
    var l := Lower(s);
    LowerCollapseCommute(l);
    assert Lower(l) == l;
    CollapseIdempotent(l);
    assert Lower(Collapse(l)) == Collapse(l);
  }

  /** `(req.query.tipo || 'luce').toLowerCase()`: an absent or empty query value means electricity. */
  function Tipo(query: Option<string>): (t: string)
    ensures NoUpper(t)
    ensures query.None? || query == Some("") ==> t == "luce"
    ensures query.Some? && query.value != "" ==>
      |t| == |query.value| && forall k | 0 <= k < |t| :: t[k] == LowerChar(query.value[k])
  {
    Lower(if query.None? || query.value == "" then "luce" else query.value)
  }
}
