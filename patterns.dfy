/**
 * The regular expressions of the invoice parser, written as scanners.
 *
 * Every pattern the parser uses has the shape
 *
 *     lead  (number)  \s*unit
 *
 * where the lead is nothing, a keyword alternation followed by `[\s:]*`
 * (and, for the total-amount keywords, `€?\s*`), or `€\s*`; the number is
 * `\d{1,5}[.,]\d{m,n}` or `\d{m,n}`; and the unit is a required word such
 * as `kwh`, or nothing. A trailing optional group such as `\s*(?:kw?h)?`
 * can always match the empty string, so it is written as "no unit".
 *
 * Backtracking cannot change which number a JavaScript regex captures in
 * these shapes: digits, separators, whitespace and the unit's first letter
 * are pairwise distinct classes, so giving back a digit or a space always
 * leaves a digit or a space where the next piece needs something else.
 * Hence the greedy scan below takes the only split that can succeed, and
 * `Leftmost` (the first start position with a match) is what
 * `String.prototype.match` without the `g` flag returns.
 */
module Patterns {
  import opened Wrappers
  import opened Text

  /** What precedes the captured number. */
  datatype Lead =
    | Bare                                      // the pattern starts with the capture
    | Keyword(words: seq<string>, euro: bool)   // (?:w1|w2|...)[\s:]*, then €?\s* when euro
    | EuroSign                                  // €\s*

  /** The captured number. */
  datatype Shape =
    | Decimal(maxWhole: nat, minFrac: nat, maxFrac: nat)   // \d{1,maxWhole}[.,]\d{minFrac,maxFrac}
    | Whole(minDigits: nat, maxDigits: nat)                // \d{minDigits,maxDigits}

  /** `unit` must follow the number after optional whitespace; "" means nothing is required. */
  datatype Pattern = Pattern(lead: Lead, shape: Shape, unit: string)

  /** A match that starts at `at`, with the capture group spanning `start..end`. */
  datatype Capture = Capture(at: nat, start: nat, end: nat)

  predicate IsSep(c: char) {
    c == '.' || c == ','
  }

  predicate AllDigits(d: string) {
    forall k | 0 <= k < |d| :: IsDigit(d[k])
  }

  predicate StartsAt(s: string, i: nat, w: string) {
    i + |w| <= |s| && s[i..i + |w|] == w
  }

  /** Length of the run of decimal digits that starts at `p`. */
  function DigitRun(s: string, p: nat): (n: nat)
    requires p <= |s|
    ensures p + n <= |s|
    ensures forall k | p <= k < p + n :: IsDigit(s[k])
    ensures p + n == |s| || !IsDigit(s[p + n])
    decreases |s| - p
  {
    if p < |s| && IsDigit(s[p]) then 1 + DigitRun(s, p + 1) else 0
  }

  /** A run is determined by where the digits stop. */
  lemma {:induction false} DigitRunIs(s: string, p: nat, n: nat)
    requires p + n <= |s|
    requires forall k | p <= k < p + n :: IsDigit(s[k])
    requires p + n == |s| || !IsDigit(s[p + n])
    ensures DigitRun(s, p) == n
    decreases n
  {
    if n > 0 {
      DigitRunIs(s, p + 1, n - 1);
    }
  }

  /** Is the captured text `t` a number of the given shape? */
  predicate Shaped(t: string, shape: Shape) {
    match shape
    case Decimal(maxWhole, minFrac, maxFrac) =>
      var n := DigitRun(t, 0);
      1 <= n <= maxWhole && n < |t| && IsSep(t[n]) && AllDigits(t[n + 1..])
      && minFrac <= |t| - n - 1 <= maxFrac
    case Whole(minDigits, maxDigits) =>
      1 <= minDigits <= |t| <= maxDigits && AllDigits(t)
  }

  /**
   * The number `s[p..e]` is as long as the greedy quantifiers make it: no
   * digit follows, or the last quantifier has reached its maximum.
   */
  predicate Maximal(shape: Shape, s: string, p: nat, e: nat)
    requires p <= e <= |s|
  {
    || e == |s|
    || !IsDigit(s[e])
    || (match shape
        case Decimal(_, _, maxFrac) => e - p - DigitRun(s[p..e], 0) - 1 == maxFrac
        case Whole(_, maxDigits) => e - p == maxDigits)
  }

  /** Where the greedy scan of a number starting at `p` ends, if one starts there. */
  function TokenEnd(shape: Shape, s: string, p: nat): (e: Option<nat>)
    requires p <= |s|
    ensures e.Some? ==> p < e.value <= |s|
  {
    match shape
    case Decimal(maxWhole, minFrac, maxFrac) =>
      var n := DigitRun(s, p);
      if 1 <= n <= maxWhole && p + n < |s| && IsSep(s[p + n]) then
        var f := Min(DigitRun(s, p + n + 1), maxFrac);
        if minFrac <= f then Some(p + n + 1 + f) else None
      else None
    case Whole(minDigits, maxDigits) =>
      var n := Min(DigitRun(s, p), maxDigits);
      if 1 <= minDigits <= n then Some(p + n) else None
  }

  /** What the greedy scan returns is a number of the shape, as long as the quantifiers allow. */
  lemma TokenEndSound(shape: Shape, s: string, p: nat)
    requires p <= |s| && TokenEnd(shape, s, p).Some?
    ensures Shaped(s[p..TokenEnd(shape, s, p).value], shape)
    ensures Maximal(shape, s, p, TokenEnd(shape, s, p).value)
  {
    var e := TokenEnd(shape, s, p).value;
    var t := s[p..e];
    match shape
    case Decimal(maxWhole, minFrac, maxFrac) =>
      var n := DigitRun(s, p);
      assert forall k | 0 <= k < n :: t[k] == s[p + k];
      assert t[n] == s[p + n];
      DigitRunIs(t, 0, n);
      var frac := t[n + 1..];
      assert forall k | 0 <= k < |frac| :: frac[k] == s[p + n + 1 + k];
    case Whole(minDigits, maxDigits) =>
      assert forall k | 0 <= k < |t| :: t[k] == s[p + k];
  }

  /** The greedy scan finds every maximal number of the shape: `TokenEnd` is exactly that number. */
  lemma TokenEndComplete(shape: Shape, s: string, p: nat, e: nat)
    requires p < e <= |s|
    requires Shaped(s[p..e], shape) && Maximal(shape, s, p, e)
    ensures TokenEnd(shape, s, p) == Some(e)
  {
    match shape
    case Decimal(_, _, _) => DecimalEndComplete(shape, s, p, e);
    case Whole(_, _) => WholeEndComplete(shape, s, p, e);
  }

  lemma DecimalEndComplete(shape: Shape, s: string, p: nat, e: nat)
    requires shape.Decimal? && p < e <= |s|
    requires Shaped(s[p..e], shape) && Maximal(shape, s, p, e)
    ensures TokenEnd(shape, s, p) == Some(e)
  {
    var n := DecimalParts(shape, s, p, e);
    var f := e - p - n - 1;
    var run := DigitRun(s, p + n + 1);
    DigitRunAtLeast(s, p + n + 1, f);
    assert run == f || f == shape.maxFrac by {
      if e < |s| && !IsDigit(s[e]) {
        DigitRunIs(s, p + n + 1, f);
      }
    }
    assert Min(run, shape.maxFrac) == f;
  }

  /** The parts of a decimal number `s[p..e]`, read off `s` itself. */
  lemma DecimalParts(shape: Shape, s: string, p: nat, e: nat) returns (n: nat)
    requires shape.Decimal? && p < e <= |s|
    requires Shaped(s[p..e], shape)
    ensures n == DigitRun(s[p..e], 0) == DigitRun(s, p)
    ensures 1 <= n <= shape.maxWhole && p + n < e && IsSep(s[p + n])
    ensures shape.minFrac <= e - p - n - 1 <= shape.maxFrac
    ensures forall k | p + n + 1 <= k < e :: IsDigit(s[k])
  {
    var t := s[p..e];
    n := DigitRun(t, 0);
    SliceDigits(s, p, e, 0, n);
    assert s[p + n] == t[n];
    DigitRunIs(s, p, n);
    var frac := t[n + 1..];
    forall k | n + 1 <= k < e - p
      ensures IsDigit(t[k])
    {
      assert t[k] == frac[k - n - 1];
    }
    SliceDigits(s, p, e, n + 1, e - p);
  }

  lemma WholeEndComplete(shape: Shape, s: string, p: nat, e: nat)
    requires shape.Whole? && p < e <= |s|
    requires Shaped(s[p..e], shape) && Maximal(shape, s, p, e)
    ensures TokenEnd(shape, s, p) == Some(e)
  {
    SliceDigits(s, p, e, 0, e - p);
    DigitRunAtLeast(s, p, e - p);
    if e < |s| && !IsDigit(s[e]) {
      DigitRunIs(s, p, e - p);
    }
  }

  /** Digits at positions `a..b` of the slice `s[p..e]` are digits of `s` at `p + a..p + b`. */
  lemma SliceDigits(s: string, p: nat, e: nat, a: nat, b: nat)
    requires p <= e <= |s| && a <= b <= e - p
    requires forall k | a <= k < b :: IsDigit(s[p..e][k])
    ensures forall k | p + a <= k < p + b :: IsDigit(s[k])
  {
    forall k | p + a <= k < p + b
      ensures IsDigit(s[k])
    {
      assert s[k] == s[p..e][k - p];
    }
  }

  lemma {:induction false} DigitRunAtLeast(s: string, p: nat, n: nat)
    requires p + n <= |s|
    requires forall k | p <= k < p + n :: IsDigit(s[k])
    ensures DigitRun(s, p) >= n
    decreases n
  {
    if n > 0 {
      DigitRunAtLeast(s, p + 1, n - 1);
    }
  }

  /** The required `\s*unit` follows position `e`. */
  predicate TailOk(unit: string, s: string, e: nat)
    requires e <= |s|
  {
    StartsAt(s, e + SpaceRun(s, e), unit)
  }

  predicate ColonOrSpace(c: char) {
    IsSpace(c) || c == ':'
  }

  /**
   * `s[a..b]` is what the regex lets stand between a keyword and the number:
   * a word of `[\s:]*`, or, when `euro`, of `[\s:]*€?\s*`.
   */
  predicate Filled(s: string, a: nat, b: nat, euro: bool)
    requires a <= b <= |s|
  {
    || (forall k | a <= k < b :: ColonOrSpace(s[k]))
    || (euro && exists m | a <= m < b ::
          && s[m] == '€'
          && (forall k | a <= k < m :: ColonOrSpace(s[k]))
          && (forall k | m < k < b :: IsSpace(s[k])))
  }

  /** `[\s:]*`, then `€?\s*` when `euro`, scanned from `q`. */
  function AfterKeyword(s: string, q: nat, euro: bool): (r: nat)
    requires q <= |s|
    ensures q <= r <= |s|
    ensures Filled(s, q, r, euro)
  {
    var q1 := q + ColonSpaceRun(s, q);
    if !euro then q1
    else
      var q2 := if q1 < |s| && s[q1] == '€' then q1 + 1 else q1;
      q2 + SpaceRun(s, q2)
  }

  /** Length of the `[\s:]` run that starts at `p`. */
  function ColonSpaceRun(s: string, p: nat): (n: nat)
    requires p <= |s|
    ensures p + n <= |s|
    ensures forall k | p <= k < p + n :: ColonOrSpace(s[k])
    ensures p + n == |s| || !ColonOrSpace(s[p + n])
    decreases |s| - p
  {
    if p < |s| && ColonOrSpace(s[p]) then 1 + ColonSpaceRun(s, p + 1) else 0
  }

  /** The number at `q` followed by the unit, for a match that started at `i`. */
  function CaptureFrom(pat: Pattern, s: string, i: nat, q: nat): (r: Option<Capture>)
    requires i <= q <= |s|
    ensures r.Some? ==> r.value == Capture(i, q, r.value.end) && q < r.value.end <= |s|
    ensures r.Some? ==> TokenEnd(pat.shape, s, q) == Some(r.value.end) && TailOk(pat.unit, s, r.value.end)
  {
    match TokenEnd(pat.shape, s, q)
    case None => None
    case Some(e) => if TailOk(pat.unit, s, e) then Some(Capture(i, q, e)) else None
  }

  /** What a capture of `pat` promises about the text, regardless of its lead. */
  predicate Found(pat: Pattern, s: string, c: Capture) {
    && c.at <= c.start < c.end <= |s|
    && Shaped(s[c.start..c.end], pat.shape)
    && Maximal(pat.shape, s, c.start, c.end)
    && TailOk(pat.unit, s, c.end)
  }

  /** The lead of the pattern occupies `s[i..start]`. */
  predicate LeadsTo(lead: Lead, s: string, i: nat, start: nat)
    requires i <= start <= |s|
  {
    match lead
    case Bare => start == i
    case EuroSign =>
      i < start && s[i] == '€' && forall k | i + 1 <= k < start :: IsSpace(s[k])
    case Keyword(words, euro) =>
      exists w | w in words :: StartsAt(s, i, w) && i + |w| <= start && Filled(s, i + |w|, start, euro)
  }

  /**
   * The positions where the number may begin once the lead has matched at
   * `i`, in the order the regex tries them (one per keyword alternative that
   * occurs at `i`).
   */
  function LeadEnds(lead: Lead, s: string, i: nat): (qs: seq<nat>)
    requires i <= |s|
    ensures forall k | 0 <= k < |qs| :: i <= qs[k] <= |s|
  {
    match lead
    case Bare => [i]
    case EuroSign => if i < |s| && s[i] == '€' then [i + 1 + SpaceRun(s, i + 1)] else []
    case Keyword(words, euro) => KeywordEnds(words, euro, s, i)
  }

  function KeywordEnds(words: seq<string>, euro: bool, s: string, i: nat): (qs: seq<nat>)
    requires i <= |s|
    ensures forall k | 0 <= k < |qs| :: i <= qs[k] <= |s|
    decreases |words|
  {
    if words == [] then []
    else
      var here := if StartsAt(s, i, words[0]) then [AfterKeyword(s, i + |words[0]|, euro)] else [];
      here + KeywordEnds(words[1..], euro, s, i)
  }

  /** Every position `LeadEnds` offers is one the lead can reach. */
  lemma LeadEndsSound(lead: Lead, s: string, i: nat, q: nat)
    requires i <= |s| && q in LeadEnds(lead, s, i)
    ensures LeadsTo(lead, s, i, q)
  {
    if lead.Keyword? {
      var w := KeywordEndsSound(lead.words, lead.euro, s, i, q);
    }
  }

  lemma {:induction false} KeywordEndsSound(words: seq<string>, euro: bool, s: string, i: nat, q: nat)
    returns (w: string)
    requires i <= |s| && q in KeywordEnds(words, euro, s, i)
    ensures w in words && StartsAt(s, i, w) && i + |w| <= q
    ensures Filled(s, i + |w|, q, euro)
    decreases |words|
  {
    if StartsAt(s, i, words[0]) && q == AfterKeyword(s, i + |words[0]|, euro) {
      w := words[0];
    } else {
      w := KeywordEndsSound(words[1..], euro, s, i, q);
    }
  }

  /** The first start position in `qs` from which the number and the unit match. */
  function FirstCapture(pat: Pattern, s: string, i: nat, qs: seq<nat>): (r: Option<Capture>)
    requires forall k | 0 <= k < |qs| :: i <= qs[k] <= |s|
    ensures r.Some? ==> r.value.at == i && r.value.start in qs && r.value.start < r.value.end <= |s|
    ensures r.Some? ==> TokenEnd(pat.shape, s, r.value.start) == Some(r.value.end) && TailOk(pat.unit, s, r.value.end)
    decreases |qs|
  {
    if qs == [] then None
    else
      match CaptureFrom(pat, s, i, qs[0])
      case Some(c) => Some(c)
      case None => FirstCapture(pat, s, i, qs[1..])
  }

  /** The match of `pat` that starts exactly at position `i`, if there is one. */
  function MatchAt(pat: Pattern, s: string, i: nat): (r: Option<Capture>)
    requires i <= |s|
    ensures r.Some? ==> r.value.at == i <= r.value.start < r.value.end <= |s|
  {
    FirstCapture(pat, s, i, LeadEnds(pat.lead, s, i))
  }

  /**
   * A match found at `i` is what the regex describes there: the lead occupies
   * `s[i..start]`, the capture is a maximal number of the pattern's shape, and
   * the unit follows it.
   */
  lemma MatchAtSound(pat: Pattern, s: string, i: nat)
    requires i <= |s| && MatchAt(pat, s, i).Some?
    ensures Found(pat, s, MatchAt(pat, s, i).value)
    ensures LeadsTo(pat.lead, s, i, MatchAt(pat, s, i).value.start)
  {
    var c := MatchAt(pat, s, i).value;
    TokenEndSound(pat.shape, s, c.start);
    LeadEndsSound(pat.lead, s, i, c.start);
  }

  /** The first position in `i..n` that `hit` accepts. */
  function FirstHit(hit: nat -> bool, i: nat, n: nat): (r: Option<nat>)
    requires i <= n
    ensures r.Some? ==> i <= r.value <= n && hit(r.value)
    ensures forall j | i <= j <= n && (r.None? || j < r.value) :: !hit(j)
    decreases n - i
  {
    if hit(i) then Some(i) else if i == n then None else FirstHit(hit, i + 1, n)
  }

  /**
   * `s.match(pat)` without the `g` flag: the match at the smallest start
   * position; later occurrences are never looked at.
   */
  function Leftmost(pat: Pattern, s: string): (r: Option<Capture>)
    ensures r.Some? ==> r.value.at <= |s| && MatchAt(pat, s, r.value.at) == r
    ensures forall j | 0 <= j <= |s| && (r.None? || j < r.value.at) :: MatchAt(pat, s, j).None?
  {
    var hit := (j: nat) => j <= |s| && MatchAt(pat, s, j).Some?;
    assert forall j: nat :: hit(j) == (j <= |s| && MatchAt(pat, s, j).Some?);
    match FirstHit(hit, 0, |s|)
    case None => None
    case Some(j) => MatchAt(pat, s, j)
  }

  /**
   * For a pattern that starts with its number and ends with a unit word,
   * any number of the right shape followed by the unit is the match found at
   * that position: the scan misses no match and picks no other split.
   */
  lemma BareMatchComplete(pat: Pattern, s: string, i: nat, e: nat)
    requires pat.lead.Bare? && pat.unit != [] && !IsDigit(pat.unit[0])
    requires i < e <= |s| && Shaped(s[i..e], pat.shape) && TailOk(pat.unit, s, e)
    ensures MatchAt(pat, s, i) == Some(Capture(i, i, e))
  {
    assert e == |s| || !IsDigit(s[e]) by {
      if e < |s| && SpaceRun(s, e) == 0 {
        assert s[e] == pat.unit[0];
      }
    }
    TokenEndComplete(pat.shape, s, i, e);
  }

  /**
   * For the `€\s*` lead with a fixed number of decimals, any such number
   * after the euro sign and whitespace is the match found at the sign.
   */
  lemma EuroSignMatchComplete(pat: Pattern, s: string, i: nat, q: nat, e: nat)
    requires pat.lead.EuroSign? && pat.shape.Decimal? && pat.shape.minFrac == pat.shape.maxFrac
    requires pat.unit == []
    requires i < q < e <= |s| && LeadsTo(pat.lead, s, i, q) && Shaped(s[q..e], pat.shape)
    ensures MatchAt(pat, s, i) == Some(Capture(i, q, e))
  {
    assert s[i] == '€' && forall k | i + 1 <= k < q :: IsSpace(s[k]);
    assert !IsSpace(s[q]) by {
      ShapedStartsWithDigit(s[q..e], pat.shape);
      assert s[q..e][0] == s[q];
    }
    SpaceRunIs(s, i + 1, q - i - 1);
    assert LeadEnds(pat.lead, s, i) == [q];
    FixedFracIsMaximal(pat.shape, s, q, e);
    TokenEndComplete(pat.shape, s, q, e);
    assert CaptureFrom(pat, s, i, q) == Some(Capture(i, q, e));
  }

  predicate DigitFree(w: string) {
    forall k | 0 <= k < |w| :: !IsDigit(w[k])
  }

  /**
   * For a keyword-led pattern whose keywords hold no digit, any maximal
   * number of the shape that follows one of the keywords and a filler the
   * regex allows is exactly the match found at the keyword: the scan misses
   * no match there and picks no other number.
   */
  lemma KeywordMatchComplete(pat: Pattern, s: string, i: nat, q: nat, e: nat)
    requires pat.lead.Keyword? && forall w | w in pat.lead.words :: DigitFree(w)
    requires i <= q < e <= |s| && LeadsTo(pat.lead, s, i, q)
    requires Shaped(s[q..e], pat.shape) && Maximal(pat.shape, s, q, e) && TailOk(pat.unit, s, e)
    ensures MatchAt(pat, s, i) == Some(Capture(i, q, e))
  {
    var qs := LeadEnds(pat.lead, s, i);
    KeywordCaptureAt(pat, s, i, q, e);
    assert forall q' | q' in qs && CaptureFrom(pat, s, i, q').Some? :: q' == q by {
      forall q' | q' in qs && CaptureFrom(pat, s, i, q').Some?
        ensures q' == q
      {
        OnlyOfferedStart(pat, s, i, q, q');
      }
    }
    FirstCaptureIs(pat, s, i, qs, q);
  }

  /** The keyword alternatives offer `q`, the capture from `q` is the number, and no digit precedes it. */
  lemma KeywordCaptureAt(pat: Pattern, s: string, i: nat, q: nat, e: nat)
    requires pat.lead.Keyword? && forall w | w in pat.lead.words :: DigitFree(w)
    requires i <= q < e <= |s| && LeadsTo(pat.lead, s, i, q)
    requires Shaped(s[q..e], pat.shape) && Maximal(pat.shape, s, q, e) && TailOk(pat.unit, s, e)
    ensures q in LeadEnds(pat.lead, s, i) && CaptureFrom(pat, s, i, q) == Some(Capture(i, q, e))
    ensures IsDigit(s[q]) && forall k | i <= k < q :: !IsDigit(s[k])
  {
    var words, euro := pat.lead.words, pat.lead.euro;
    assert LeadEnds(pat.lead, s, i) == KeywordEnds(words, euro, s, i);
    ShapedStartsWithDigit(s[q..e], pat.shape);
    assert s[q..e][0] == s[q];
    var w :| w in words && StartsAt(s, i, w) && i + |w| <= q && Filled(s, i + |w|, q, euro);
    KeywordOffers(words, euro, s, i, w, q);
    TokenEndComplete(pat.shape, s, q, e);
    KeywordNoDigit(s, i, w);
    FilledNoDigit(s, i + |w|, q, euro);
  }

  /** A digit-free keyword at `i` puts no digit in `s[i..i + |w|]`. */
  lemma KeywordNoDigit(s: string, i: nat, w: string)
    requires DigitFree(w) && StartsAt(s, i, w)
    ensures forall k | i <= k < i + |w| :: !IsDigit(s[k])
  {
    forall k | i <= k < i + |w|
      ensures !IsDigit(s[k])
    {
      assert s[k] == s[i..i + |w|][k - i] == w[k - i];
    }
  }

  /**
   * Any offered start from which a capture succeeds begins with a digit,
   * and no digit lies between `i` and `q`, so that start is `q` itself.
   */
  lemma OnlyOfferedStart(pat: Pattern, s: string, i: nat, q: nat, q': nat)
    requires pat.lead.Keyword? && forall w | w in pat.lead.words :: DigitFree(w)
    requires i <= q < |s| && IsDigit(s[q]) && forall k | i <= k < q :: !IsDigit(s[k])
    requires q' in LeadEnds(pat.lead, s, i) && CaptureFrom(pat, s, i, q').Some?
    ensures q' == q
  {
    assert LeadEnds(pat.lead, s, i) == KeywordEnds(pat.lead.words, pat.lead.euro, s, i);
    var w' := KeywordEndsSound(pat.lead.words, pat.lead.euro, s, i, q');
    CaptureStartsWithDigit(pat, s, i, q');
    KeywordNoDigit(s, i, w');
    FilledNoDigit(s, i + |w'|, q', pat.lead.euro);
  }

  lemma CaptureStartsWithDigit(pat: Pattern, s: string, i: nat, q: nat)
    requires i <= q <= |s| && CaptureFrom(pat, s, i, q).Some?
    ensures q < |s| && IsDigit(s[q])
  {
    var e := TokenEnd(pat.shape, s, q).value;
    TokenEndSound(pat.shape, s, q);
    ShapedStartsWithDigit(s[q..e], pat.shape);
    assert s[q..e][0] == s[q];
  }

  lemma FilledNoDigit(s: string, a: nat, b: nat, euro: bool)
    requires a <= b <= |s| && Filled(s, a, b, euro)
    ensures forall k | a <= k < b :: !IsDigit(s[k])
  {
  }

  /** When `q` is the only offered start that yields a capture, the first capture is the one at `q`. */
  lemma {:induction false} FirstCaptureIs(pat: Pattern, s: string, i: nat, qs: seq<nat>, q: nat)
    requires forall k | 0 <= k < |qs| :: i <= qs[k] <= |s|
    requires q in qs && i <= q <= |s| && CaptureFrom(pat, s, i, q).Some?
    requires forall q' | q' in qs && CaptureFrom(pat, s, i, q').Some? :: q' == q
    ensures FirstCapture(pat, s, i, qs) == CaptureFrom(pat, s, i, q)
    decreases |qs|
  {
    if qs[0] != q {
      assert CaptureFrom(pat, s, i, qs[0]).None?;
      FirstCaptureIs(pat, s, i, qs[1..], q);
    }
  }

  /** The keyword `w` at `i`, a filler and then a digit at `q`: the keyword alternatives offer `q`. */
  lemma KeywordOffers(words: seq<string>, euro: bool, s: string, i: nat, w: string, q: nat)
    requires i <= q < |s| && IsDigit(s[q])
    requires w in words && StartsAt(s, i, w) && i + |w| <= q && Filled(s, i + |w|, q, euro)
    ensures q in KeywordEnds(words, euro, s, i)
  {
    assert AfterKeyword(s, i + |w|, euro) == q by {
      AfterKeywordIs(s, i + |w|, q, euro);
    }
    KeywordEndsComplete(words, euro, s, i, w);
  }

  /** A filler that ends at a digit is exactly what the greedy scan of `[\s:]*€?\s*` consumes. */
  lemma AfterKeywordIs(s: string, a: nat, q: nat, euro: bool)
    requires a <= q < |s| && Filled(s, a, q, euro) && IsDigit(s[q])
    ensures AfterKeyword(s, a, euro) == q
  {
    if forall k | a <= k < q :: ColonOrSpace(s[k]) {
      PlainFillerScan(s, a, q, euro);
    } else {
      var m :| a <= m < q && s[m] == '€' && (forall k | a <= k < m :: ColonOrSpace(s[k]))
                          && (forall k | m < k < q :: IsSpace(s[k]));
      EuroFillerScan(s, a, m, q, euro);
    }
  }

  lemma PlainFillerScan(s: string, a: nat, q: nat, euro: bool)
    requires a <= q < |s| && IsDigit(s[q])
    requires forall k | a <= k < q :: ColonOrSpace(s[k])
    ensures AfterKeyword(s, a, euro) == q
  {
    assert !ColonOrSpace(s[q]) && s[q] != '€';
    ColonSpaceRunIs(s, a, q - a);
    SpaceRunIs(s, q, 0);
  }

  lemma EuroFillerScan(s: string, a: nat, m: nat, q: nat, euro: bool)
    requires a <= m < q < |s| && IsDigit(s[q]) && s[m] == '€' && euro
    requires forall k | a <= k < m :: ColonOrSpace(s[k])
    requires forall k | m < k < q :: IsSpace(s[k])
    ensures AfterKeyword(s, a, euro) == q
  {
    assert !ColonOrSpace(s[m]);
    assert !IsSpace(s[q]);
    ColonSpaceRunIs(s, a, m - a);
    SpaceRunIs(s, m + 1, q - m - 1);
  }

  /** Every keyword that occurs at `i` offers the position its filler scan reaches. */
  lemma {:induction false} KeywordEndsComplete(words: seq<string>, euro: bool, s: string, i: nat, w: string)
    requires i <= |s| && w in words && StartsAt(s, i, w)
    ensures AfterKeyword(s, i + |w|, euro) in KeywordEnds(words, euro, s, i)
    decreases |words|
  {
    var rest := KeywordEnds(words[1..], euro, s, i);
    var here := if StartsAt(s, i, words[0]) then [AfterKeyword(s, i + |words[0]|, euro)] else [];
    assert KeywordEnds(words, euro, s, i) == here + rest;
    if words[0] != w {
      assert w in words[1..];
      KeywordEndsComplete(words[1..], euro, s, i, w);
    }
  }

  lemma ShapedStartsWithDigit(t: string, shape: Shape)
    requires Shaped(t, shape)
    ensures |t| > 0 && IsDigit(t[0])
  {
  }

  lemma FixedFracIsMaximal(shape: Shape, s: string, p: nat, e: nat)
    requires shape.Decimal? && shape.minFrac == shape.maxFrac
    requires p < e <= |s| && Shaped(s[p..e], shape)
    ensures Maximal(shape, s, p, e)
  {
  }

  lemma {:induction false} ColonSpaceRunIs(s: string, p: nat, n: nat)
    requires p + n <= |s|
    requires forall k | p <= k < p + n :: ColonOrSpace(s[k])
    requires p + n == |s| || !ColonOrSpace(s[p + n])
    ensures ColonSpaceRun(s, p) == n
    decreases n
  {
    if n > 0 {
      ColonSpaceRunIs(s, p + 1, n - 1);
    }
  }
}
