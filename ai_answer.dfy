/**
 * The invoice handler of api/bolletta-ai.js that hands the text of a PDF to
 * a language model and checks the answer.
 *
 * The handler refuses a missing or short text before any prompt is built;
 * otherwise it builds the prompt (energy wording and at most the first
 * 15000 characters of the text), asks the model, parses its answer as JSON
 * and validates the parsed value. The model and `JSON.parse` are outside the
 * model: the handler receives them as one function from prompt to parse
 * outcome.
 */
module AiAnswer {
  import opened Wrappers
  import opened Text
  import opened Patterns
  import opened Decimals

  /** A value `JSON.parse` can return. Numbers are exact reals, not doubles. */
  datatype Json =
    | JNull
    | JBool(b: bool)
    | JNumber(n: real)
    | JString(s: string)
    | JArray(items: seq<Json>)
    | JObject(fields: map<string, Json>)

  /** `JSON.parse(rawAnswer)`: it either throws or returns a value. */
  datatype ParseOutcome = NotJson | Parsed(value: Json)

  /** The outcome of `Number(x)`. */
  datatype JsNumber = Num(r: real) | NaN

  /** The part of the prompt this model keeps: the energy wording and the invoice excerpt. */
  datatype Prompt = Prompt(energy: string, excerpt: string)

  /** The error bodies of the handler. */
  datatype AiError =
    | TextTooShort      // 400 "Testo PDF troppo corto o vuoto"
    | AnswerNotJson     // 500 "IA: risposta non in JSON valido."
    | PeriodNotFound    // 400 "IA: non ha trovato consumoPeriodo o spesaPeriodo in modo affidabile."

  /** The success body, without its constant `success: true`. */
  datatype Answer = Answer(
    tipo: string,
    operatore: Json,
    periodo: Json,
    mesi: real,
    consumoPeriodo: JsNumber,
    spesaPeriodo: JsNumber,
    consumoAnnuo: Option<JsNumber>,
    spesaAnnua: Option<JsNumber>,
    quotaFissaAnnua: Option<JsNumber>)

  const MaxExcerpt := 15000
  const MinText := 50

  /** JavaScript truthiness of a JSON value. */
  predicate Truthy(j: Json) {
    match j
    case JNull => false
    case JBool(b) => b
    case JNumber(n) => n != 0.0
    case JString(s) => s != ""
    case JArray(_) => true
    case JObject(_) => true
  }

  /** `parsed.key`: `None` stands for `undefined`; only an object has own keys. */
  function Field(j: Json, key: string): (v: Option<Json>)
    ensures v.Some? <==> j.JObject? && key in j.fields
  {
    if j.JObject? && key in j.fields then Some(j.fields[key]) else None
  }

  /** `x == null`: true for `null` and for `undefined`. */
  predicate Nullish(v: Option<Json>) {
    v.None? || v.value.JNull?
  }

  /** `x || fallback` on a property value. */
  function OrDefault(v: Option<Json>, fallback: Json): (r: Json)
    ensures v.Some? && Truthy(v.value) ==> r == v.value
    ensures !(v.Some? && Truthy(v.value)) ==> r == fallback
  {
    if v.Some? && Truthy(v.value) then v.value else fallback
  }

  // ---------------------------------------------------------------------
  // Number(x)

  function TrimStart(s: string): (t: string)
    ensures |t| <= |s|
    ensures t == [] || !IsSpace(t[0])
    decreases |s|
  {
    if s != [] && IsSpace(s[0]) then TrimStart(s[1..]) else s
  }

  function TrimEnd(s: string): (t: string)
    ensures |t| <= |s|
    ensures t == [] || !IsSpace(t[|t| - 1])
    decreases |s|
  {
    if s != [] && IsSpace(s[|s| - 1]) then TrimEnd(s[..|s| - 1]) else s
  }

  /** The exact value of the decimal `w.f`. */
  function DecimalValue(w: string, f: string): real
    requires AllDigits(w) && AllDigits(f)
  {
    DigitsValue(w) as real + DigitsValue(f) as real / Pow10(|f|) as real
  }

  /** An unsigned decimal literal: digits, a point and digits, with digits on at least one side. */
  function Unsigned(t: string): Option<real> {
    var w := DigitRun(t, 0);
    if w == |t| then
      if w == 0 then None else Some(DigitsValue(t) as real)
    else if t[w] == '.' && w + 1 + DigitRun(t, w + 1) == |t| && (w > 0 || w + 1 < |t|) then
      assert AllDigits(t[..w]) && AllDigits(t[w + 1..]) by {
        assert forall k | 0 <= k < w :: t[..w][k] == t[k];
        var frac := t[w + 1..];
        assert forall k | 0 <= k < |frac| :: frac[k] == t[w + 1 + k];
      }
      Some(DecimalValue(t[..w], t[w + 1..]))
    else None
  }

  /** `Number(s)` for a string: surrounding whitespace is ignored. */
  function StringNumber(s: string): JsNumber {
    TrimmedNumber(TrimEnd(TrimStart(s)))
  }

  /** `Number` of a trimmed string: blank is 0; a signed decimal literal is its value; anything else NaN. */
  function TrimmedNumber(t: string): JsNumber {
    if t == [] then Num(0.0)
    else
      var sign, body := if t[0] == '-' then -1.0 else 1.0, if t[0] == '-' || t[0] == '+' then t[1..] else t;
      match Unsigned(body)
      case Some(v) => Num(sign * v)
      case None => NaN
  }

  /**
   * `Number(x)` for a parsed JSON value. An array is read through its
   * string form: empty is 0, one element is that element's string, more
   * than one element joins with commas and is NaN.
   */
  function ToNumber(j: Json): JsNumber
    decreases j
  {
    match j
    case JNull => Num(0.0)
    case JBool(b) => if b then Num(1.0) else Num(0.0)
    case JNumber(n) => Num(n)
    case JString(s) => StringNumber(s)
    case JObject(_) => NaN
    case JArray(items) =>
      if |items| == 0 then Num(0.0)
      else if |items| > 1 then NaN
      else match items[0]
        case JNull => Num(0.0)
        case JBool(_) => NaN
        case JObject(_) => NaN
        case _ => ToNumber(items[0])
  }

  /** `x != null ? Number(x) : null` */
  function OptionalNumber(v: Option<Json>): (r: Option<JsNumber>)
    ensures r.None? <==> Nullish(v)
    ensures r.Some? ==> v.Some? && r.value == ToNumber(v.value)
  {
    if Nullish(v) then None else Some(ToNumber(v.value))
  }

  /** Surrounding whitespace does not change what a string reads as. */
  lemma PaddedStringNumber(pad: string, s: string, pad2: string)
    requires forall k | 0 <= k < |pad| :: IsSpace(pad[k])
    requires forall k | 0 <= k < |pad2| :: IsSpace(pad2[k])
    requires s != [] && !IsSpace(s[0]) && !IsSpace(s[|s| - 1])
    ensures StringNumber(pad + s + pad2) == StringNumber(s)
  {
    TrimPadding(pad, s, pad2);
    TrimPadding([], s, []);
    assert [] + s + [] == s;
  }

  lemma TrimPadding(pad: string, s: string, pad2: string)
    requires forall k | 0 <= k < |pad| :: IsSpace(pad[k])
    requires forall k | 0 <= k < |pad2| :: IsSpace(pad2[k])
    requires s != [] && !IsSpace(s[0]) && !IsSpace(s[|s| - 1])
    ensures TrimEnd(TrimStart(pad + s + pad2)) == s
  {
    assert pad + s + pad2 == pad + (s + pad2);
    TrimStartSkips(pad, s + pad2);
    TrimEndSkips(s, pad2);
  }

  /** A plain decimal answer such as "78.52" reads as its exact value. */
  lemma DecimalStringNumber(w: string, f: string)
    requires w != [] && AllDigits(w) && AllDigits(f)
    ensures StringNumber(w + "." + f) == Num(DecimalValue(w, f))
  {
    var t := w + "." + f;
    assert t[0] == w[0];
    assert t[|t| - 1] == if f == [] then '.' else f[|f| - 1];
    TrimPadding([], t, []);
    assert [] + t + [] == t;
    UnsignedDecimal(w, f);
    UnsignedReading(t, DecimalValue(w, f));
  }

  lemma UnsignedReading(t: string, v: real)
    requires t != [] && IsDigit(t[0]) && Unsigned(t) == Some(v)
    ensures TrimmedNumber(t) == Num(v)
  {
  }

  /** Digits on at least one side of the point make an unsigned literal: "5.", ".5" and "78.52" all read. */
  lemma UnsignedDecimal(w: string, f: string)
    requires AllDigits(w) && AllDigits(f) && (w != [] || f != [])
    ensures Unsigned(w + "." + f) == Some(DecimalValue(w, f))
  {
    var t := w + "." + f;
    assert forall k | 0 <= k < |w| :: t[k] == w[k];
    DigitRunIs(t, 0, |w|);
    var frac := t[|w| + 1..];
    assert frac == f;
    DigitRunIs(t, |w| + 1, |f|);
    assert t[..|w|] == w;
  }

  lemma {:induction false} TrimStartSkips(pad: string, s: string)
    requires forall k | 0 <= k < |pad| :: IsSpace(pad[k])
    requires s != [] && !IsSpace(s[0])
    ensures TrimStart(pad + s) == s
    decreases |pad|
  {
    if pad != [] {
      assert (pad + s)[0] == pad[0];
      assert (pad + s)[1..] == pad[1..] + s;
      TrimStartSkips(pad[1..], s);
    } else {
      assert pad + s == s;
    }
  }

  lemma {:induction false} TrimEndSkips(s: string, pad: string)
    requires forall k | 0 <= k < |pad| :: IsSpace(pad[k])
    requires s != [] && !IsSpace(s[|s| - 1])
    ensures TrimEnd(s + pad) == s
    decreases |pad|
  {
    if pad != [] {
      var p := pad[..|pad| - 1];
      assert (s + pad)[|s + pad| - 1] == pad[|pad| - 1];
      assert (s + pad)[..|s + pad| - 1] == s + p;
      TrimEndSkips(s, p);
    } else {
      assert s + pad == s;
    }
  }

  // ---------------------------------------------------------------------
  // Validation of the parsed answer

  /** The months field: a number in `(0, 12]`, else 2. */
  function Months(v: Option<Json>): (m: real)
    ensures 0.0 < m <= 12.0
    ensures v.Some? && v.value.JNumber? && 0.0 < v.value.n <= 12.0 ==> m == v.value.n
    ensures !(v.Some? && v.value.JNumber? && 0.0 < v.value.n <= 12.0) ==> m == 2.0
  {
    if v.Some? && v.value.JNumber? && 0.0 < v.value.n && v.value.n <= 12.0 then v.value.n else 2.0
  }

  /** The guard: a truthy value of type `object` whose two period fields are neither null nor absent. */
  predicate Acceptable(parsed: Json) {
    Truthy(parsed) && (parsed.JArray? || parsed.JObject? || parsed.JNull?)
    && !Nullish(Field(parsed, "consumoPeriodo")) && !Nullish(Field(parsed, "spesaPeriodo"))
  }

  /** The checks and the success body that follow a successful `JSON.parse`. */
  function Validate(parsed: Json, tipo: string): (r: Result<Answer, AiError>)
    ensures r.Success? <==> parsed.JObject? && !Nullish(Field(parsed, "consumoPeriodo"))
                                            && !Nullish(Field(parsed, "spesaPeriodo"))
    ensures r.Failure? ==> r.error == PeriodNotFound
    ensures r.Success? ==> r.value.tipo == tipo && 0.0 < r.value.mesi <= 12.0
    ensures r.Success? ==>
      && r.value.consumoPeriodo == ToNumber(parsed.fields["consumoPeriodo"])
      && r.value.spesaPeriodo == ToNumber(parsed.fields["spesaPeriodo"])
  {
    if !Acceptable(parsed) then Failure(PeriodNotFound)
    else
      Success(Answer(
        tipo,
        OrDefault(Field(parsed, "operatore"), JString("Operatore attuale")),
        OrDefault(Field(parsed, "periodo"), JString("")),
        Months(Field(parsed, "mesi")),
        ToNumber(Field(parsed, "consumoPeriodo").value),
        ToNumber(Field(parsed, "spesaPeriodo").value),
        OptionalNumber(Field(parsed, "consumoAnnuo")),
        OptionalNumber(Field(parsed, "spesaAnnua")),
        OptionalNumber(Field(parsed, "quotaFissaAnnua"))))
  }

  /**
   * The annual figures are never made up: each is present exactly when the
   * answer gave it a non-null value, and then it is that value as a number.
   */
  lemma AnnualFiguresNeverFabricated(parsed: Json, tipo: string)
    requires Validate(parsed, tipo).Success?
    ensures var a := Validate(parsed, tipo).value;
      && (a.consumoAnnuo.None? <==> Nullish(Field(parsed, "consumoAnnuo")))
      && (a.spesaAnnua.None? <==> Nullish(Field(parsed, "spesaAnnua")))
      && (a.quotaFissaAnnua.None? <==> Nullish(Field(parsed, "quotaFissaAnnua")))
      && (a.consumoAnnuo.Some? ==> a.consumoAnnuo.value == ToNumber(parsed.fields["consumoAnnuo"]))
      && (a.spesaAnnua.Some? ==> a.spesaAnnua.value == ToNumber(parsed.fields["spesaAnnua"]))
      && (a.quotaFissaAnnua.Some? ==> a.quotaFissaAnnua.value == ToNumber(parsed.fields["quotaFissaAnnua"]))
  {
  }

  /**
   * The text fields fall back to their defaults exactly when the answer's
   * value is falsy; a truthy value is passed on as it is, whatever its type.
   */
  lemma TextFieldDefaults(parsed: Json, tipo: string)
    requires Validate(parsed, tipo).Success?
    ensures var a := Validate(parsed, tipo).value;
      && ("operatore" in parsed.fields && Truthy(parsed.fields["operatore"]) ==> a.operatore == parsed.fields["operatore"])
      && (!("operatore" in parsed.fields && Truthy(parsed.fields["operatore"])) ==> a.operatore == JString("Operatore attuale"))
      && ("periodo" in parsed.fields && Truthy(parsed.fields["periodo"]) ==> a.periodo == parsed.fields["periodo"])
      && (!("periodo" in parsed.fields && Truthy(parsed.fields["periodo"])) ==> a.periodo == JString(""))
  {
  }

  /** The months are taken as given when in range, fractions included: 1.5 months stay 1.5. */
  lemma FractionalMonthsKept(consumo: Json, spesa: Json)
    requires !consumo.JNull? && !spesa.JNull?
    ensures var parsed := JObject(map["consumoPeriodo" := consumo, "spesaPeriodo" := spesa, "mesi" := JNumber(1.5)]);
      Validate(parsed, "gas").Success? && Validate(parsed, "gas").value.mesi == 1.5
  {
  }

  /**
   * Only null and absence are refused: a period value that does not read as
   * a number passes the guard and is answered as NaN.
   */
  lemma CommaDecimalPassesAsNaN()
    ensures var parsed := JObject(map["consumoPeriodo" := JNumber(86.0), "spesaPeriodo" := JString("78,52")]);
      Validate(parsed, "luce").Success? && Validate(parsed, "luce").value.spesaPeriodo == NaN
  {
    var t := "78,52";
    assert TrimStart(t) == t && TrimEnd(t) == t;
    DigitRunIs(t, 0, 2);
  }

  /** Keys outside the eight the handler reads make no difference. */
  lemma OtherKeysIgnored(fields: map<string, Json>, key: string, v: Json, tipo: string)
    requires key !in {"operatore", "periodo", "mesi", "consumoPeriodo", "spesaPeriodo",
                      "consumoAnnuo", "spesaAnnua", "quotaFissaAnnua"}
    ensures Validate(JObject(fields[key := v]), tipo) == Validate(JObject(fields), tipo)
  {
  }

  // ---------------------------------------------------------------------
  // Prompt and handler

  /** `buildPrompt(text, tipo)`, reduced to what depends on its arguments. */
  function BuildPrompt(text: string, tipo: string): (p: Prompt)
    ensures p.energy == (if tipo == "luce" then "elettrica" else "gas")
    ensures |p.excerpt| == Min(MaxExcerpt, |text|) && p.excerpt <= text
  {
    Prompt(if tipo == "luce" then "elettrica" else "gas", text[..Min(MaxExcerpt, |text|)])
  }

  /**
   * The handler after the method check: `text` is the body's text field
   * (`None` when absent), `query` the `tipo` query value, and `callModel`
   * the model followed by `JSON.parse`.
   */
  function HandleAi(text: Option<string>, query: Option<string>, callModel: Prompt -> ParseOutcome): (r: Result<Answer, AiError>)
    ensures r == Failure(TextTooShort) <==> text.None? || |text.value| < MinText
    ensures r == Failure(AnswerNotJson) <==>
      text.Some? && |text.value| >= MinText && callModel(BuildPrompt(text.value, Tipo(query))).NotJson?
    ensures text.Some? && |text.value| >= MinText && callModel(BuildPrompt(text.value, Tipo(query))).Parsed? ==>
      r == Validate(callModel(BuildPrompt(text.value, Tipo(query))).value, Tipo(query))
    ensures r.Success? ==> r.value.tipo == Tipo(query)
  {
    var tipo := Tipo(query);
    if text.None? || |text.value| < MinText then Failure(TextTooShort)
    else
      match callModel(BuildPrompt(text.value, tipo))
      case NotJson => Failure(AnswerNotJson)
      case Parsed(parsed) => Validate(parsed, tipo)
  }

  /** A missing or short text is refused whatever the model would answer: the model is never asked. */
  lemma ShortTextNeverReachesModel(text: Option<string>, query: Option<string>,
                                   model1: Prompt -> ParseOutcome, model2: Prompt -> ParseOutcome)
    requires text.None? || |text.value| < MinText
    ensures HandleAi(text, query, model1) == HandleAi(text, query, model2) == Failure(TextTooShort)
  {
  }

  /**
   * Only the first 15000 characters reach the model: texts that agree on
   * them get the same answer.
   */
  lemma OnlyExcerptReachesModel(text1: string, text2: string, query: Option<string>, callModel: Prompt -> ParseOutcome)
    requires |text1| >= MinText && |text2| >= MinText
    requires |text1| >= MaxExcerpt && |text2| >= MaxExcerpt && text1[..MaxExcerpt] == text2[..MaxExcerpt]
    ensures HandleAi(Some(text1), query, callModel) == HandleAi(Some(text2), query, callModel)
  {
    assert BuildPrompt(text1, Tipo(query)) == BuildPrompt(text2, Tipo(query));
  }
}
