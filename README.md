# Invoice text extraction, modelled in Dafny

This project models the two invoice-reading paths of a small Italian
energy-bill web service.

- **OCR path** (`api/estrai-bolletta.js`). An OCR service returns the
  text of an uploaded invoice. `parseInvoiceText` lowercases the text and
  collapses its whitespace. Then, for the energy type (`luce` for
  electricity, anything else for gas), it runs two ordered lists of
  regular expressions: one for the consumption (kWh or Smc) and one for
  the total amount (euro). The first capture that lies strictly inside the
  list's plausibility interval wins, and it is stored after
  `parseFloat(val.toFixed(2))`. The handler reports success only when both
  values are truthy. Otherwise it returns the first 500 characters of the
  text.
- **Language-model path** (`api/bolletta-ai.js`). The handler refuses a
  missing text or one shorter than 50 characters. Otherwise it builds a
  prompt that names the energy ("elettrica" or "gas") and embeds at most
  15000 characters of the text. It parses the model's answer with
  `JSON.parse` and validates the result: the value must be an object whose
  `consumoPeriodo` and `spesaPeriodo` are neither null nor absent. `mesi`
  defaults to 2, the text fields get default values, and the annual
  figures become `null` exactly when they are missing.

Modules:

- `Wrappers`: `Option`, `Result` and `Min`.
- `Text`: JavaScript's `\s`, ASCII `toLowerCase`, `replace(/\s+/g, ' ')`,
  and the `tipo` query default.
- `Patterns`: the nine regular expressions, written as greedy scanners,
  and `String.prototype.match`'s leftmost match.
- `Decimals`: `replace(',', '.')`, `parseFloat` and `toFixed(2)`. Values
  are exact and kept in integer thousandths.
- `InvoiceParser`: the rule tables, the first-accepted cascade (a function,
  and a method with the source's loop), `parseInvoiceText`, and the OCR
  handler's success gate.
- `AiAnswer`: JSON values, `Number()` coercion, the answer validation, the
  prompt's variable parts and the handler flow.

The regular expressions need no backtracking engine. In every pattern the
character classes next to the captured digits exclude digits: the keywords,
the filler `[\s:]*` (and `€?\s*`) before the number, and the unit word or
whitespace after it. The filler classes overlap each other (`\s` is in
both `[\s:]*` and `\s*`), but that does not matter. A number that starts
after the filler starts at the first digit, and the `{m,n}` bounds with the
separator fix where it ends. So the greedy reading at a position is the only
one that can succeed there. `Patterns.MatchAtSound` states that every match
found is one the regular expression describes. The converse is proved for
each kind of lead: `Patterns.BareMatchComplete` for the number-then-unit
patterns, `Patterns.KeywordMatchComplete` for keyword-led patterns whose
keywords hold no digit (`InvoiceParser.KeywordPatternsDigitFree` shows
the four such patterns qualify) and `Patterns.EuroSignMatchComplete` for the
"€" pattern. Each gives the exact capture found at the position.

Points where the code's behaviour is easy to misread:

- The plausibility intervals are those in `api/estrai-bolletta.js:96,111,127,142`.
  For electricity: consumption (50, 50000) kWh and total (5, 10000) euro.
  For gas: consumption (20, 50000) Smc and total (5, 5000) euro.
- The sample invoice text in the prompt (`api/bolletta-ai.js:126`) writes
  "Consumo nel periodo 86 kWh". The bare patterns of
  `api/estrai-bolletta.js:89-90` cannot capture that 86: they need a
  decimal separator or at least three digits before "kwh".
- The model-path `mesi` is taken as given when it is a number in
  (0, 12]. The code does not check that it is a whole number.
- `consumoPeriodo` and `spesaPeriodo` are only checked for null or absent
  values. An answer that does not read as a number is still a success and
  becomes NaN.

## Model

| member | source | states |
|---|---|---|
| `Text.Collapse` | api/estrai-bolletta.js:84 | the result is no longer than the input, empty only for empty input, starts with whitespace exactly when the input does, uses no whitespace but single spaces and never two in a row |
| `Text.CollapseKeepsText` | api/estrai-bolletta.js:84 | collapsing keeps every non-whitespace character, in order |
| `Text.CollapseFixesCollapsed` | api/estrai-bolletta.js:84 | collapsing changes nothing in a text that is already collapsed |
| `Text.CollapseIdempotent` | api/estrai-bolletta.js:84 | collapsing twice is collapsing once |
| `Text.CollapseBlank` | api/estrai-bolletta.js:84 | a non-empty whitespace run on its own becomes exactly one space |
| `Text.CollapseConcat` | api/estrai-bolletta.js:84 | collapsing works piece by piece wherever the cut does not split a whitespace run |
| `Text.CollapseBetweenWords` | api/estrai-bolletta.js:84 | a whitespace run between two words becomes exactly one space, never none |
| `Text.LowerCollapseCommute` | api/estrai-bolletta.js:83-84 | lowercasing and collapsing commute |
| `Text.NormalizeIdempotent` | api/estrai-bolletta.js:83-84 | the lowercased, collapsed text is a fixed point of normalisation, has no upper-case letter and is collapsed |
| `Text.IsSpace` | api/estrai-bolletta.js:84 | no contract; the characters JavaScript's `\s` matches: tab, line feed, vertical tab, form feed, carriage return, space, the Unicode space separators, U+2028, U+2029 and U+FEFF |
| `Text.Lower` | api/estrai-bolletta.js:83 | the result has the input's length and each character is that input character lowercased (ASCII letters only) |
| `Text.Tipo` | api/estrai-bolletta.js:17 | an absent or empty `tipo` gives "luce"; otherwise the result is the value lowercased character by character, so "LUCE" selects electricity |
| `Patterns.TokenEndSound` | api/estrai-bolletta.js:88-90 | the greedy number scan yields a number of the pattern's shape that the quantifiers cannot extend |
| `Patterns.TokenEndComplete` | api/estrai-bolletta.js:88-90 | every maximal number of the shape is exactly what the greedy scan finds |
| `Patterns.MatchAt` | api/estrai-bolletta.js:93 | a match at a position has its capture at or after that position and inside the text; what it captures is stated by `MatchAtSound` |
| `Patterns.MatchAtSound` | api/estrai-bolletta.js:103-105 | a match found at a position is what the regular expression describes there: lead, maximal number, then the unit |
| `Patterns.Leftmost` | api/estrai-bolletta.js:93 | the match returned starts at the smallest position where the pattern matches; no earlier position matches, and none matches when nothing is returned |
| `Patterns.BareMatchComplete` | api/estrai-bolletta.js:89-90 | for a number-then-unit pattern, every number of the shape followed by the unit is the match found at its position |
| `Patterns.KeywordMatchComplete` | api/estrai-bolletta.js:103-104 | for a keyword-led pattern whose keywords hold no digit (the total's, and the consumption's at lines 88 and 119): a keyword, then a filler of `[\s:]*` (or `[\s:]*€?\s*` for the total), then a maximal number of the shape followed by the unit is exactly the match found at the keyword, with that number as its capture |
| `InvoiceParser.KeywordPatternsDigitFree` | api/estrai-bolletta.js:88-119 | the four keyword-led patterns of lines 88, 103-104 and 119 are keyword-led with keywords that hold no digit, so the exact-match result of `Patterns.KeywordMatchComplete` applies to each |
| `Patterns.EuroSignMatchComplete` | api/estrai-bolletta.js:105 | every two-decimal amount after "€" and whitespace is the match found at the sign |
| `InvoiceParser.KwhAfterKeyword` | api/estrai-bolletta.js:88 | no contract; the keywords "consumo", "kwh" and "energia lorda", the filler `[\s:]*`, then `Decimal(5, 0, 3)`, which is `\d{1,5}[.,]\d{0,3}`; the optional trailing unit is left out because an optional group changes neither whether nor where the pattern matches |
| `InvoiceParser.KwhDecimal` | api/estrai-bolletta.js:89 | no contract; `Decimal(5, 0, 3)` with unit "kwh" is `(\d{1,5}[.,]\d{0,3})\s*kwh` |
| `InvoiceParser.KwhWhole` | api/estrai-bolletta.js:90 | no contract; `Whole(3, 5)` with unit "kwh" is `(\d{3,5})\s*kwh` |
| `InvoiceParser.AmountAfterKeyword` | api/estrai-bolletta.js:103 | no contract; the keywords "totale", "importo da pagare" and "importo" in that order, the filler `[\s:]*€?\s*`, then `Decimal(5, 2, 2)`, which is `\d{1,5}[.,]\d{2}`; the same pattern is at line 134 |
| `InvoiceParser.AmountAfterEuroWord` | api/estrai-bolletta.js:104 | no contract; the keywords "euro" and "eur", the filler `[\s:]*`, then `Decimal(5, 2, 2)`; the same pattern is at line 135 |
| `InvoiceParser.AmountAfterEuroSign` | api/estrai-bolletta.js:105 | no contract; "€", a `\s` run, then `Decimal(5, 2, 2)`; the same pattern is at line 136 |
| `InvoiceParser.SmcAfterKeyword` | api/estrai-bolletta.js:119 | no contract; the keywords "consumo", "smc" and "volume", the filler `[\s:]*`, then `Decimal(5, 0, 3)`; the optional trailing unit is left out as for kWh |
| `InvoiceParser.SmcDecimal` | api/estrai-bolletta.js:120 | no contract; `Decimal(5, 0, 3)` with unit "smc" is `(\d{1,5}[.,]\d{0,3})\s*smc` |
| `InvoiceParser.SmcWhole` | api/estrai-bolletta.js:121 | no contract; `Whole(2, 4)` with unit "smc" is `(\d{2,4})\s*smc` |
| `InvoiceParser.LuceConsumo` | api/estrai-bolletta.js:87-96 | no contract; the three kWh patterns in the source's order, each with the open interval (50, 50000) |
| `InvoiceParser.LuceTotale` | api/estrai-bolletta.js:102-111 | no contract; the three amount patterns in the source's order, each with the open interval (5, 10000) |
| `InvoiceParser.GasConsumo` | api/estrai-bolletta.js:118-127 | no contract; the three Smc patterns in the source's order, each with the open interval (20, 50000) |
| `InvoiceParser.GasTotale` | api/estrai-bolletta.js:133-142 | no contract; the three amount patterns in the source's order, each with the open interval (5, 5000) |
| `InvoiceParser.ConsumoRules` | api/estrai-bolletta.js:86 | no contract; "luce" selects the kWh table and every other type the Smc table (`OtherTypesAreGas` states the consequence) |
| `InvoiceParser.TotaleRules` | api/estrai-bolletta.js:86 | no contract; "luce" selects the amount table bounded by 10000 and every other type the one bounded by 5000 |
| `Decimals.CommaToDot` | api/estrai-bolletta.js:95 | the length is kept; which character changes is stated by `CommaToDotReplacesFirst` |
| `Decimals.CommaToDotReplacesFirst` | api/estrai-bolletta.js:95 | `replace(',', '.')` turns the first comma into a point and leaves every other character as it was |
| `Decimals.ParseMilli` | api/estrai-bolletta.js:95 | no ensures; its value is stated by `ParseMilliWholePart`, `TokenReading` and `ToFixed2RoundTrip` |
| `Decimals.ParseMilliWholePart` | api/estrai-bolletta.js:95 | the integer part of what `parseFloat` reads is the number spelled by the digits before the point |
| `Decimals.TokenReading` | api/estrai-bolletta.js:95 | a captured token, with its separator read as a decimal point, is the exact decimal whole.fraction |
| `Decimals.CommaToDotAfterDigits` | api/estrai-bolletta.js:95 | `replace(',', '.')` turns the separator after the whole digits into a point and changes nothing else |
| `Decimals.CentsToken` | api/estrai-bolletta.js:103-105 | a token with exactly two decimals is a whole number of cents |
| `Decimals.RoundToCents` | api/estrai-bolletta.js:97 | `toFixed(2)` picks the nearest hundredth, halves rounded up, and keeps values already in hundredths |
| `Decimals.ToFixed2` | api/estrai-bolletta.js:97 | `toFixed(2)` writes digits, a point and exactly two digits |
| `Decimals.ToFixed2RoundTrip` | api/estrai-bolletta.js:97 | `parseFloat` reads the text `toFixed(2)` writes back as exactly the rounded value |
| `Decimals.Stored` | api/estrai-bolletta.js:97 | the stored value is a whole number of cents within half a cent of the candidate, and equals it when the candidate is in cents |
| `InvoiceParser.CandidateIsMatch` | api/estrai-bolletta.js:93-95 | a rule has a candidate exactly when its pattern matches; the candidate is the number captured by the leftmost match |
| `InvoiceParser.FirstAccepted` | api/estrai-bolletta.js:92-101 | the cascade returns the first rule whose candidate is strictly inside its interval; every earlier rule had no candidate or one outside its interval |
| `InvoiceParser.RunCascade` | api/estrai-bolletta.js:92-101 | the loop stores the rounded first accepted candidate, and stores nothing exactly when no rule accepts |
| `InvoiceParser.LaterRulesIgnored` | api/estrai-bolletta.js:98 | once a rule accepts, appending further rules changes nothing |
| `InvoiceParser.AcceptedWithin` | api/estrai-bolletta.js:96 | when all rules share an interval, the accepted candidate lies strictly inside it |
| `InvoiceParser.StoredWithin` | api/estrai-bolletta.js:96-97 | rounding an accepted value keeps it in the closed interval, and strictly inside when it was already in cents |
| `InvoiceParser.AmountInCents` | api/estrai-bolletta.js:107-113 | every accepted total is a whole number of cents |
| `InvoiceParser.AcceptedPlausible` | api/estrai-bolletta.js:96-112 | the stored consumption and total satisfy their bounds and are both nonzero |
| `InvoiceParser.TotalStoredExactly` | api/estrai-bolletta.js:110-112 | an accepted total is stored unchanged by the `toFixed(2)` round trip |
| `InvoiceParser.CommaAmountExample` | api/estrai-bolletta.js:110-112 | "78,52" has the amount shape, reads as 78.52 and is stored as 78.52 |
| `InvoiceParser.RoundingReachesBound` | api/estrai-bolletta.js:96-97 | 49999.999 kWh is accepted and stored as 50000.00, on the interval's bound |
| `InvoiceParser.ParseInvoice` | api/estrai-bolletta.js:80-151 | a text under 20 characters gives null; a reading is returned exactly when both cascades accept; a reading holds the two stored first-accepted values of the normalised text, with consumption in the closed and total in the open interval of its energy type |
| `InvoiceParser.ParseInvoiceText` | api/estrai-bolletta.js:80-151 | the imperative parser returns what `ParseInvoice` specifies |
| `InvoiceParser.OtherTypesAreGas` | api/estrai-bolletta.js:86-117 | every energy type other than "luce" parses like "gas" |
| `InvoiceParser.NormalizedTextParsesAlike` | api/estrai-bolletta.js:81-84 | a text that stays at least 20 characters long after normalising parses the same as its normal form |
| `InvoiceParser.HandleOcrText` | api/estrai-bolletta.js:54-71 | success exactly when the parser returns a reading, with that reading and the `tipo`; otherwise a preview that is the first min(500, length) characters |
| `AiAnswer.Months` | api/bolletta-ai.js:55-58 | the months lie in (0, 12]: the answer's number when it is in range, otherwise 2 |
| `AiAnswer.Validate` | api/bolletta-ai.js:42-74 | success exactly for an object whose `consumoPeriodo` and `spesaPeriodo` are neither null nor absent; the error is the period error; success carries the `tipo`, months in (0, 12] and `Number` of both period values |
| `AiAnswer.OrDefault` | api/bolletta-ai.js:63-64 | the logical-or default keeps a present truthy value and gives the fallback otherwise |
| `AiAnswer.ToNumber` | api/bolletta-ai.js:66-73 | no ensures; how strings read is stated by `PaddedStringNumber`, `DecimalStringNumber` and `CommaDecimalPassesAsNaN` |
| `AiAnswer.OptionalNumber` | api/bolletta-ai.js:68-73 | null exactly for a null or absent value, otherwise `Number` of the value |
| `AiAnswer.AnnualFiguresNeverFabricated` | api/bolletta-ai.js:68-73 | each annual figure is null exactly when the answer's value is null or absent, and otherwise is that value as a number |
| `AiAnswer.TextFieldDefaults` | api/bolletta-ai.js:63-64 | `operatore` and `periodo` keep a truthy answer value and otherwise become "Operatore attuale" and "" |
| `AiAnswer.FractionalMonthsKept` | api/bolletta-ai.js:55-58 | a month count of 1.5 is accepted and kept as 1.5 |
| `AiAnswer.CommaDecimalPassesAsNaN` | api/bolletta-ai.js:42-67 | a `spesaPeriodo` of "78,52" passes the guard and is answered as NaN |
| `AiAnswer.OtherKeysIgnored` | api/bolletta-ai.js:42-74 | keys other than the eight read by the handler do not change the result |
| `AiAnswer.PaddedStringNumber` | api/bolletta-ai.js:66-67 | surrounding whitespace does not change what `Number` reads from a string |
| `AiAnswer.DecimalStringNumber` | api/bolletta-ai.js:66-67 | a plain decimal string such as "78.52" reads as its exact value |
| `AiAnswer.UnsignedDecimal` | api/bolletta-ai.js:66-67 | digits on either side of a point form a literal worth whole + fraction |
| `AiAnswer.BuildPrompt` | api/bolletta-ai.js:84-147 | the prompt says "elettrica" exactly when `tipo` is "luce" and otherwise "gas"; it embeds the first min(15000, length) characters of the text |
| `AiAnswer.HandleAi` | api/bolletta-ai.js:18-53 | the short-text error exactly for a missing text or one under 50 characters; the JSON error exactly when the model's answer does not parse; when it parses, the reply is exactly the validation of the parsed answer with the query's `tipo` |
| `AiAnswer.ShortTextNeverReachesModel` | api/bolletta-ai.js:21-29 | a missing or short text gets the same error whatever the model would answer |
| `AiAnswer.OnlyExcerptReachesModel` | api/bolletta-ai.js:146 | texts that agree on their first 15000 characters get the same answer |

## Left out

- HTTP plumbing is not modelled: the method check (405), the OCR key check, reading the request body, the multipart boundary, status codes, `console.error` and the catch-all 500 replies. The OCR handler receives the OCR text (`ParsedResults?.[0]?.ParsedText || ''`) as a parameter.
- The OCR service call and its error reply are not modelled. They are network I/O.
- The OpenAI client, `callModel` (with its `trim`) and `JSON.parse` are not modelled. Together they are the `callModel` parameter of `AiAnswer.HandleAi`, a function from prompt to parse outcome.
- The prompt's fixed wording is not modelled. Only the energy word and the text excerpt depend on the inputs.
- Serialising the reply is not modelled. `res.json` writes NaN as `null`, and the model keeps `NaN`.
- A `text` body field that is not a string is not modelled (a number would make `text.slice` throw). Neither is a `tipo` query given as an array.
- Text.Lower: only ASCII letters are mapped. JavaScript also lowercases other letters, and some of them become ASCII: U+212A KELVIN SIGN lowercases to "k", so "86,5 \u212AWh" matches `kwh` in the source but not in the model. A few such mappings also change a string's length.
- Lengths count Unicode code points, while JavaScript counts UTF-16 code units. The 20, 50, 500 and 15000 character limits can therefore differ for characters outside the Basic Multilingual Plane.
- Decimals.Stored: values are exact decimals, not binary doubles. An exact half-cent tie (49999.995) rounds up here. `toFixed(2)` on the nearest double may round it down.
- AiAnswer.ToNumber: JSON numbers are exact reals. For strings, only blank strings and signed decimal literals are read. Exponents, hexadecimal, octal and binary literals and "Infinity" become NaN here, although `Number` reads them.
- JSON objects are maps. Duplicate keys, `__proto__` and inherited properties are not modelled.
- The regular expressions are modelled one by one as scanners. No general regular-expression engine is modelled.
