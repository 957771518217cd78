/**
 * `parseInvoiceText` of api/estrai-bolletta.js and the success gate of the
 * OCR handler that consumes its result.
 *
 * The text is lowercased and its whitespace collapsed; then, for the energy
 * type, an ordered list of rules is tried for the consumption and another
 * for the total amount. A rule is a pattern and an open plausibility
 * interval: the pattern's leftmost match gives at most one candidate, the
 * candidate is accepted only strictly inside the interval, and the first
 * accepted candidate ends the list. The parser answers only when both
 * values were accepted.
 *
 * All values are in thousandths of their unit (kWh, Smc or euro).
 */
module InvoiceParser {
  import opened Wrappers
  import opened Text
  import opened Patterns
  import opened Decimals

  /** A pattern and the open interval `(lo, hi)`, in whole units, its value must lie in. */
  datatype Rule = Rule(pattern: Pattern, lo: nat, hi: nat)

  /** `(?:consumo|kwh|energia lorda)[\s:]*(\d{1,5}[.,]\d{0,3})\s*(?:kw?h)?` */
  const KwhAfterKeyword := Pattern(Keyword(["consumo", "kwh", "energia lorda"], false), Decimal(5, 0, 3), "")
  /** `(\d{1,5}[.,]\d{0,3})\s*kwh` */
  const KwhDecimal := Pattern(Bare, Decimal(5, 0, 3), "kwh")
  /** `(\d{3,5})\s*kwh` */
  const KwhWhole := Pattern(Bare, Whole(3, 5), "kwh")
  /** `(?:consumo|smc|volume)[\s:]*(\d{1,5}[.,]\d{0,3})\s*(?:smc)?` */
  const SmcAfterKeyword := Pattern(Keyword(["consumo", "smc", "volume"], false), Decimal(5, 0, 3), "")
  /** `(\d{1,5}[.,]\d{0,3})\s*smc` */
  const SmcDecimal := Pattern(Bare, Decimal(5, 0, 3), "smc")
  /** `(\d{2,4})\s*smc` */
  const SmcWhole := Pattern(Bare, Whole(2, 4), "smc")
  /** `(?:totale|importo da pagare|importo)[\s:]*€?\s*(\d{1,5}[.,]\d{2})` */
  const AmountAfterKeyword := Pattern(Keyword(["totale", "importo da pagare", "importo"], true), Decimal(5, 2, 2), "")
  /** `(?:euro|eur)[\s:]*(\d{1,5}[.,]\d{2})` */
  const AmountAfterEuroWord := Pattern(Keyword(["euro", "eur"], false), Decimal(5, 2, 2), "")
  /** `€\s*(\d{1,5}[.,]\d{2})` */
  const AmountAfterEuroSign := Pattern(EuroSign, Decimal(5, 2, 2), "")

  const LuceConsumo: seq<Rule> :=
    [Rule(KwhAfterKeyword, 50, 50000), Rule(KwhDecimal, 50, 50000), Rule(KwhWhole, 50, 50000)]
  const LuceTotale: seq<Rule> :=
    [Rule(AmountAfterKeyword, 5, 10000), Rule(AmountAfterEuroWord, 5, 10000), Rule(AmountAfterEuroSign, 5, 10000)]
  const GasConsumo: seq<Rule> :=
    [Rule(SmcAfterKeyword, 20, 50000), Rule(SmcDecimal, 20, 50000), Rule(SmcWhole, 20, 50000)]
  const GasTotale: seq<Rule> :=
    [Rule(AmountAfterKeyword, 5, 5000), Rule(AmountAfterEuroWord, 5, 5000), Rule(AmountAfterEuroSign, 5, 5000)]

  /** `type === 'luce'` selects the electricity rules; every other type gets the gas rules. */
  function ConsumoRules(kind: string): seq<Rule> {
    if kind == "luce" then LuceConsumo else GasConsumo
  }

  function TotaleRules(kind: string): seq<Rule> {
    if kind == "luce" then LuceTotale else GasTotale
  }

  predicate ExactRules(rules: seq<Rule>) {
    forall k | 0 <= k < |rules| :: Exact(rules[k].pattern.shape)
  }

  /**
   * The one candidate a rule contributes: the value of its pattern's
   * leftmost match. The matcher sits behind one layer of `MatchedValueBehindWall`, so
   * that proofs about the cascade, which never need it, do not unfold it;
   * `CandidateIsMatch` opens that layer.
   */
  function Candidate(rule: Rule, s: string): Option<nat>
    requires Exact(rule.pattern.shape)
  {
    MatchedValueBehindWall(rule, s, 1)
  }

  /** The leftmost match's value, reached after `layers` unfoldings that only count down. */
  function MatchedValueBehindWall(rule: Rule, s: string, layers: nat): Option<nat>
    requires Exact(rule.pattern.shape)
  {
    if layers > 0 then MatchedValueBehindWall(rule, s, layers - 1)
    else
      match Leftmost(rule.pattern, s)
      case None => None
      case Some(c) =>
        MatchAtSound(rule.pattern, s, c.at);
        Some(TokenMilli(s[c.start..c.end], rule.pattern.shape))
  }

  /** A rule has a candidate exactly when its pattern matches, and the candidate is the captured number. */
  lemma CandidateIsMatch(rule: Rule, s: string)
    requires Exact(rule.pattern.shape)
    ensures Candidate(rule, s).Some? <==> Leftmost(rule.pattern, s).Some?
    ensures Candidate(rule, s).Some? ==>
      var c := Leftmost(rule.pattern, s).value;
      Found(rule.pattern, s, c) && Candidate(rule, s).value == TokenMilli(s[c.start..c.end], rule.pattern.shape)
  {
    assert Candidate(rule, s) == MatchedValueBehindWall(rule, s, 0);
    if Leftmost(rule.pattern, s).Some? {
      MatchAtSound(rule.pattern, s, Leftmost(rule.pattern, s).value.at);
    }
  }

  /**
   * The four keyword-led patterns use keywords without digits, so
   * `Patterns.KeywordMatchComplete` gives the exact match for each of them.
   */
  lemma KeywordPatternsDigitFree(pat: Pattern)
    requires pat == KwhAfterKeyword || pat == SmcAfterKeyword || pat == AmountAfterKeyword || pat == AmountAfterEuroWord
    ensures pat.lead.Keyword? && forall w | w in pat.lead.words :: DigitFree(w)
  {
    forall w | w in pat.lead.words
      ensures DigitFree(w)
    {
      WordsDigitFree(w);
    }
  }

  lemma WordsDigitFree(w: string)
    requires w in ["consumo", "kwh", "energia lorda", "smc", "volume", "totale", "importo da pagare", "importo", "euro", "eur"]
    ensures DigitFree(w)
  {
  }

  /** The candidates of the rules from `from` on, one per rule, in order. */
  function Candidates(rules: seq<Rule>, s: string, from: nat := 0): (cs: seq<Option<nat>>)
    requires ExactRules(rules) && from <= |rules|
    ensures |cs| == |rules| - from
    decreases |rules| - from
  {
    if from == |rules| then [] else [Candidate(rules[from], s)] + Candidates(rules, s, from + 1)
  }

  lemma {:induction false} CandidatesAt(rules: seq<Rule>, s: string, from: nat, k: nat)
    requires ExactRules(rules) && from <= k < |rules|
    ensures Candidates(rules, s, from)[k - from] == Candidate(rules[k], s)
    decreases k - from
  {
    if from < k {
      CandidatesAt(rules, s, from + 1, k);
    }
  }

  /** `val > lo && val < hi`. */
  predicate InRange(rule: Rule, milli: nat) {
    rule.lo * 1000 < milli < rule.hi * 1000
  }

  predicate Accepts(rule: Rule, candidate: Option<nat>) {
    candidate.Some? && InRange(rule, candidate.value)
  }

  /** The rule that fired and the candidate it accepted. */
  datatype Hit = Hit(index: nat, milli: nat)

  /**
   * The cascade from rule `from` on: the first rule whose candidate lies in
   * its interval; a rule without a candidate or with one out of range does
   * not stop the search.
   */
  function FirstAccepted(rules: seq<Rule>, cands: seq<Option<nat>>, from: nat := 0): (r: Option<Hit>)
    requires |cands| == |rules| && from <= |rules|
    ensures r.Some? ==> from <= r.value.index < |rules|
    ensures r.Some? ==> cands[r.value.index] == Some(r.value.milli) && InRange(rules[r.value.index], r.value.milli)
    ensures forall j | from <= j < |rules| && (r.None? || j < r.value.index) :: !Accepts(rules[j], cands[j])
    decreases |rules| - from
  {
    if from == |rules| then None
    else if Accepts(rules[from], cands[from]) then Some(Hit(from, cands[from].value))
    else FirstAccepted(rules, cands, from + 1)
  }

  /** The cascade over the text `s`. */
  function Cascade(rules: seq<Rule>, s: string): Option<Hit>
    requires ExactRules(rules)
  {
    FirstAccepted(rules, Candidates(rules, s))
  }

  /** What the cascade stores: the accepted candidate after `parseFloat(val.toFixed(2))`. */
  function CascadeValue(rules: seq<Rule>, s: string): Option<nat>
    requires ExactRules(rules)
  {
    match Cascade(rules, s)
    case None => None
    case Some(h) => Some(Stored(h.milli))
  }

  /**
   * One `for (let pattern of ...)` loop of the parser: match the rules'
   * patterns in order and stop at the first accepted candidate.
   */
  method RunCascade(rules: seq<Rule>, s: string) returns (value: Option<nat>)
    requires ExactRules(rules)
    ensures value == CascadeValue(rules, s)
    ensures value.None? <==> forall j | 0 <= j < |rules| :: !Accepts(rules[j], Candidate(rules[j], s))
  {
    ghost var cands := Candidates(rules, s);
    value := None;
    var i := 0;
    while i < |rules|
      invariant i <= |rules|
      invariant FirstAccepted(rules, cands, i) == FirstAccepted(rules, cands)
      invariant forall j | 0 <= j < i :: !Accepts(rules[j], cands[j])
    {
      var candidate := Candidate(rules[i], s);
      CandidatesAt(rules, s, 0, i);
      if candidate.Some? && InRange(rules[i], candidate.value) {
        value := Some(Stored(candidate.value));
        break;
      }
      i := i + 1;
    }
    forall j | 0 <= j < |rules|
      ensures cands[j] == Candidate(rules[j], s)
    {
      CandidatesAt(rules, s, 0, j);
    }
  }

  /** The parser's result: both values, in thousandths. */
  datatype Reading = Reading(consumo: nat, totale: nat)

  /**
   * What a returned reading promises: consumption within the closed interval
   * of its rules (rounding to hundredths can land on a bound) and the total
   * strictly inside its interval.
   */
  predicate Plausible(r: Reading, kind: string) {
    if kind == "luce" then
      50_000 <= r.consumo <= 50_000_000 && 5_000 < r.totale < 10_000_000
    else
      20_000 <= r.consumo <= 50_000_000 && 5_000 < r.totale < 5_000_000
  }

  /**
   * When every rule of a list shares the interval `(lo, hi)`, the accepted
   * candidate lies inside it.
   */
  lemma AcceptedWithin(rules: seq<Rule>, cands: seq<Option<nat>>, lo: nat, hi: nat)
    requires |cands| == |rules|
    requires forall k | 0 <= k < |rules| :: rules[k].lo == lo && rules[k].hi == hi
    ensures FirstAccepted(rules, cands).Some? ==> lo * 1000 < FirstAccepted(rules, cands).value.milli < hi * 1000
  {
    var h := FirstAccepted(rules, cands);
    if h.Some? {
      assert InRange(rules[h.value.index], h.value.milli);
    }
  }

  /**
   * Rounding to hundredths keeps a value of the open interval `(lo, hi)`
   * within the closed one, and strictly inside when it was already a whole
   * number of cents.
   */
  lemma StoredWithin(milli: nat, lo: nat, hi: nat)
    requires lo * 1000 < milli < hi * 1000
    ensures lo * 1000 <= Stored(milli) <= hi * 1000
    ensures milli % 10 == 0 ==> lo * 1000 < Stored(milli) < hi * 1000
  {
    var c := RoundToCents(milli);
    assert Stored(milli) == 10 * c;
    assert milli < 10 * c + 5 && 10 * c <= milli + 5;
    assert lo * 1000 == 10 * (lo * 100) && hi * 1000 == 10 * (hi * 100);
  }

  /** Every amount candidate has exactly two decimals, so it is a whole number of cents. */
  lemma AmountInCents(kind: string, s: string)
    ensures Cascade(TotaleRules(kind), s).Some? ==> Cascade(TotaleRules(kind), s).value.milli % 10 == 0
  {
    var rules := TotaleRules(kind);
    var h := Cascade(rules, s);
    if h.Some? {
      var rule := rules[h.value.index];
      CandidatesAt(rules, s, 0, h.value.index);
      CandidateIsMatch(rule, s);
      var c := Leftmost(rule.pattern, s).value;
      CentsToken(s[c.start..c.end], rule.pattern.shape);
    }
  }

  /**
   * Once a rule has accepted its candidate, the rules after it are never
   * consulted: appending rules changes nothing.
   */
  lemma {:induction false} LaterRulesIgnored(rules: seq<Rule>, cands: seq<Option<nat>>,
                                             more: seq<Rule>, moreCands: seq<Option<nat>>, from: nat)
    requires |cands| == |rules| && |moreCands| == |more| && from <= |rules|
    requires FirstAccepted(rules, cands, from).Some?
    ensures FirstAccepted(rules + more, cands + moreCands, from) == FirstAccepted(rules, cands, from)
    decreases |rules| - from
  {
    var all, allCands := rules + more, cands + moreCands;
    assert all[from] == rules[from] && allCands[from] == cands[from];
    if !Accepts(rules[from], cands[from]) {
      LaterRulesIgnored(rules, cands, more, moreCands, from + 1);
    }
  }

  /** An accepted total is stored exactly: rounding a whole number of cents to cents changes nothing. */
  lemma TotalStoredExactly(kind: string, s: string)
    ensures Cascade(TotaleRules(kind), s).Some? ==>
      CascadeValue(TotaleRules(kind), s) == Some(Cascade(TotaleRules(kind), s).value.milli)
  {
    AmountInCents(kind, s);
  }

  /** "78,52" is read as 78.52 euro, and `toFixed(2)` keeps it. */
  lemma CommaAmountExample()
    ensures Shaped("78,52", Decimal(5, 2, 2))
    ensures TokenMilli("78,52", Decimal(5, 2, 2)) == 78_520 == Stored(78_520)
  {
    var t := "78,52";
    DigitRunIs(t, 0, 2);
    assert t[3..] == "52";
    assert CommaToDot(t) == "78.52";
    var u := "78.52";
    DigitRunIs(u, 0, 2);
    assert u[..2] == "78" && u[3..] == "52";
    assert DigitsValue("78") == 78 by {
      assert "78"[..1] == "7";
      assert "7"[..0] == [];
    }
    assert DigitsValue("52") == 52 by {
      assert "52"[..1] == "5";
      assert "5"[..0] == [];
    }
    assert Pow10(1) == 10;
  }

  /**
   * A consumption just below the upper bound is accepted and then rounded
   * onto it: 49999.999 kWh is stored as 50000.00.
   */
  lemma RoundingReachesBound()
    ensures InRange(LuceConsumo[1], 49_999_999) && Stored(49_999_999) == 50_000_000
  {
  }

  /** `parseInvoiceText(text, type)` as a value. */
  function ParseInvoice(text: string, kind: string): (r: Option<Reading>)
    ensures |text| < 20 ==> r.None?
    ensures r.Some? <==> |text| >= 20 && Cascade(ConsumoRules(kind), Normalize(text)).Some?
                                      && Cascade(TotaleRules(kind), Normalize(text)).Some?
    ensures r.Some? ==> Plausible(r.value, kind)
    ensures r.Some? ==>
      r.value == Reading(CascadeValue(ConsumoRules(kind), Normalize(text)).value,
                         CascadeValue(TotaleRules(kind), Normalize(text)).value)
  {
    if |text| < 20 then None
    else
      var s := Normalize(text);
      var hc, ht := Cascade(ConsumoRules(kind), s), Cascade(TotaleRules(kind), s);
      if hc.None? || ht.None? then None
      else
        AcceptedPlausible(kind, s);
        var consumo, totale := Stored(hc.value.milli), Stored(ht.value.milli);
        if consumo != 0 && totale != 0 then Some(Reading(consumo, totale)) else None
  }

  /** What the two cascades accept, once stored, is a plausible reading with both values nonzero. */
  lemma AcceptedPlausible(kind: string, s: string)
    requires Cascade(ConsumoRules(kind), s).Some? && Cascade(TotaleRules(kind), s).Some?
    ensures var r := Reading(Stored(Cascade(ConsumoRules(kind), s).value.milli),
                             Stored(Cascade(TotaleRules(kind), s).value.milli));
      Plausible(r, kind) && r.consumo != 0 && r.totale != 0
  {
    var consumoRules, totaleRules := ConsumoRules(kind), TotaleRules(kind);
    var hc, ht := Cascade(consumoRules, s).value, Cascade(totaleRules, s).value;
    var consumoLo := if kind == "luce" then 50 else 20;
    var totaleHi := if kind == "luce" then 10000 else 5000;
    AcceptedWithin(consumoRules, Candidates(consumoRules, s), consumoLo, 50000);
    AcceptedWithin(totaleRules, Candidates(totaleRules, s), 5, totaleHi);
    AmountInCents(kind, s);
    StoredWithin(hc.milli, consumoLo, 50000);
    StoredWithin(ht.milli, 5, totaleHi);
  }

  /**
   * `parseInvoiceText`: the `data` object starts empty, each cascade loop
   * may fill one field, and the result is returned only when both are set.
   */
  method ParseInvoiceText(text: string, kind: string) returns (data: Option<Reading>)
    ensures data == ParseInvoice(text, kind)
  {
    if |text| < 20 {
      return None;
    }
    var cleaned := Collapse(Lower(text));
    var consumo: Option<nat>;
    var totale: Option<nat>;
    if kind == "luce" {
      consumo := RunCascade(LuceConsumo, cleaned);
      totale := RunCascade(LuceTotale, cleaned);
    } else {
      consumo := RunCascade(GasConsumo, cleaned);
      totale := RunCascade(GasTotale, cleaned);
    }
    if consumo.Some? && consumo.value != 0 && totale.Some? && totale.value != 0 {
      data := Some(Reading(consumo.value, totale.value));
    } else {
      data := None;
    }
  }

  /** The JSON body the OCR handler sends once the OCR text is known. */
  datatype OcrReply =
    | Extracted(tipo: string, consumo: nat, totale: nat)
    | NotExtracted(rawTextPreview: string)

  /**
   * The OCR handler after the OCR call: report success only when both values
   * are truthy, otherwise return at most the first 500 characters of the text.
   */
  method HandleOcrText(query: Option<string>, parsedText: string) returns (reply: OcrReply)
    ensures reply.Extracted? <==> ParseInvoice(parsedText, Tipo(query)).Some?
    ensures reply.Extracted? ==>
      var r := ParseInvoice(parsedText, Tipo(query)).value;
      reply == Extracted(Tipo(query), r.consumo, r.totale)
    ensures reply.NotExtracted? ==>
      |reply.rawTextPreview| == Min(500, |parsedText|) && reply.rawTextPreview <= parsedText
  {
    var tipo := Tipo(query);
    var dati := ParseInvoiceText(parsedText, tipo);
    if dati.None? || dati.value.consumo == 0 || dati.value.totale == 0 {
      reply := NotExtracted(parsedText[..Min(500, |parsedText|)]);
    } else {
      reply := Extracted(tipo, dati.value.consumo, dati.value.totale);
    }
  }

  /** Every energy type other than "luce" reads the text with the gas rules. */
  lemma OtherTypesAreGas(text: string, kind: string)
    requires kind != "luce"
    ensures ParseInvoice(text, kind) == ParseInvoice(text, "gas")
  {
  }

  /**
   * The parser sees the text only through its normalised form: a text that
   * is still at least 20 characters long after normalising parses the same.
   */
  lemma NormalizedTextParsesAlike(text: string, kind: string)
    requires |Normalize(text)| >= 20
    ensures ParseInvoice(Normalize(text), kind) == ParseInvoice(text, kind)
  {
    NormalizeIdempotent(text);
    assert |text| >= 20 by {
      assert |Normalize(text)| <= |Lower(text)| == |text|;
    }
  }
}
