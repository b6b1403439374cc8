# Currency converter page — a Dafny model

This project models the logic of the single-page currency converter in
`src/app/page.js`: the amount input formatter, the normalisation and
`parseFloat` step behind form validation, the submit handler with its error
messages and loading flag, the currency swap, the catalog built from the
rate service's code list, and the ten-entry conversion history mirrored
into one key of the browser's key-value store. Everything is an immutable
datatype and a pure function; the replies of the rate service, the clock
(`Date.now()`) and the confirmation dialog (`confirm()`) are parameters.

Modules, leaf first:

- `Wrappers` — `Option`.
- `Text` — filtering by a character class, JavaScript `split` with a
  one-character separator, `join`, `substring(0, n)`.
- `AmountFormat` — `formatAmountInput`, including the grouping regular
  expression `/\B(?=(\d{3})+(?!\d))/g` written out character by character
  (`Separate`), and a reference reading of the raw input (`KeptInteger`,
  `KeptFraction`) that the formatter is proved against.
- `AmountValue` — dot removal, first-comma replacement, `parseFloat` on
  unsigned decimal text with exact `real` values, and `validateForm`.
- `History` — `Record`, the `Log` of entries plus the store slot
  (`Option<seq<Record>>`, `None` = key absent), add / remove / clear / load.
- `Catalog` — the code-to-name map built from `(code, name)` pairs.
- `RateApi` — a reply as a status code plus decoded envelope (or a network
  failure) and the message a handler throws for it.
- `Converter` — the page state and every handler as a state transition,
  with the invariant `Consistent` (amount is formatter output, `isValid` is
  current, store mirrors history) preserved by every step.

## Behaviour worth noting

- The formatter splits the cleaned text on every comma and uses only the
  first two segments, so whatever follows a second comma is dropped:
  `"1,2,3"` becomes `"1,2"` (`AmountFormat.SecondCommaDiscarded`).
- Loading the history at line 191 parses the stored text with `JSON.parse`,
  which throws on malformed text; an absent key or any falsy stored JSON
  value (`null`, `false`, `0`, `""`) reads as the empty history through
  `|| []`.
- An invalid submit reports "enter a valid amount" only for an empty amount;
  the code never tests whether a non-empty amount parses, and
  `AmountValue.FormattedValidity` shows every non-empty formatted amount does.
- A failed catalog load shows one fixed message whatever the reason.
- An invalid submit leaves `loading` as it was, and `loading` starts out
  true until the catalog reply arrives.

## Model

| member | source | states |
|---|---|---|
| Text.SplitFilter | src/app/page.js:231-233 | removing characters other than the separator and then splitting gives the filtered segments of the unfiltered input |
| Text.JoinSplit | src/app/page.js:232 | joining the segments of `split` with the separator gives back the original text |
| AmountFormat.FormatAssembles | src/app/page.js:230-252 | the output is the grouped first-15 integer digits plus, when non-empty, a comma and the first 2 fraction digits, both read off the raw input; both are digit strings within their caps |
| AmountFormat.FormatKeepsDigits | src/app/page.js:231-240 | with dots removed the integer part equals the first 15 digits before the input's first comma; a fraction part exists iff a digit follows that comma before any second comma, and it is the first two such digits |
| AmountFormat.FormatShape | src/app/page.js:231-251 | output holds only digits, dots and commas; any comma is the last-but-one or last-but-two character with only digits after it (at most one comma, never trailing) |
| AmountFormat.FormatGrouping | src/app/page.js:242-244 | the integer part is empty iff no digit was kept, otherwise well grouped (first group 1-3 digits, the rest exactly 3) with no dot at either end, and dot-free when at most 3 digits were kept |
| AmountFormat.GroupShape | src/app/page.js:242-244 | grouping keeps every digit, adds only dots, yields exactly the digit groups, and leaves runs of at most three digits alone |
| AmountFormat.SeparateIsJoinedChunks | src/app/page.js:243 | the regular-expression replacement inserts exactly the dots between a leading group of 1-3 digits and the following groups of 3 |
| AmountFormat.FormatIdempotent | src/app/page.js:231-251 | formatting formatted text changes nothing |
| AmountFormat.SecondCommaDiscarded | src/app/page.js:232-234 | `"1,2,3"` formats to `"1,2"` |
| AmountFormat.TrailingCommaDropped | src/app/page.js:247-249 | `"12,"` formats to `"12"` |
| AmountFormat.TypedAmountParts | src/app/page.js:232-240 | in `"1234567,5"` the digits before the first comma are `"1234567"` and the fraction digits `"5"` |
| AmountFormat.TypedAmountGrouped | src/app/page.js:236-249 | `"1234567,5"` formats to `"1.234.567,5"` |
| AmountFormat.GroupedAmountStays | src/app/page.js:230-252 | `"1.234.567,5"` formats to itself |
| AmountValue.ParseFloat | src/app/page.js:261 | `parseFloat` gives NaN exactly when the text starts with neither a digit nor a point followed by a digit |
| AmountValue.NormaliseAssembled | src/app/page.js:260 | normalising grouped digits with an optional fraction gives the digits, then a point and the fraction when there is one |
| AmountValue.FormattedValue | src/app/page.js:259-261 | a formatted amount parses to NaN iff it is empty, and otherwise to the kept integer digits plus the kept fraction digits over ten to their count |
| AmountValue.FormattedValidity | src/app/page.js:259-272 | for formatted amounts the form is valid iff amount, source and target are non-empty and the codes differ |
| AmountValue.WholeNumberRoundTrip | src/app/page.js:260-261 | typing 1 to 15 digits and normalising reads back the number those digits denote |
| AmountValue.GroupedAmountValue | src/app/page.js:288-289 | `"1.234.567,5"` reads as 1234567.5 |
| History.Add | src/app/page.js:403-405 | the new record comes first, followed by the previous first nine in order; length is one more, capped at ten; the slot holds exactly the new history |
| History.Without | src/app/page.js:409 | exactly the entries with a different id survive, each as often as it occurred and in their original order; an absent id changes nothing |
| History.Remove | src/app/page.js:408-412 | the history becomes the entries without that id and the slot is written even when nothing was removed |
| History.Clear | src/app/page.js:414-421 | an empty history or an unconfirmed clear changes nothing; otherwise the history empties and the key is deleted, not set to an empty list |
| History.OperationsKeepInvariant | src/app/page.js:387-421 | add, remove and clear keep the slot mirroring the history and the history within ten entries |
| History.AddToFullEvictsOldest | src/app/page.js:403 | adding to a full history of distinct entries keeps ten and drops exactly the oldest |
| History.ClearThenLoad | src/app/page.js:414-421 | after a confirmed clear the key is absent and loading it gives the empty history |
| History.RemoveAbsentId | src/app/page.js:409 | removing an id no entry has leaves the entries and their order unchanged |
| Catalog.Build | src/app/page.js:211-216 | the catalog's codes are exactly the codes in the list, and each maps to the name of the last pair carrying it |
| RateApi.NatText | src/app/page.js:299 | the status text is non-empty decimal digits without a leading zero that read back as the status code |
| RateApi.Outcome | src/app/page.js:298-325 | a reply yields its payload iff the status is 200-299 and the result is "success"; otherwise the thrown message is the HTTP status text for a non-2xx status, the network error, the decoding error for an unreadable body, the error-type when it is present and non-empty, and the fallback exactly when it is missing or empty |
| RateApi.HttpErrorNamesStatus | src/app/page.js:298-299 | the message thrown for a non-2xx status is the fixed prefix followed by decimal text from which the status code reads back |
| Converter.Initial | src/app/page.js:7-18 | the page starts with an empty amount, USD to IDR, the enter-amount prompt, no last update, no error, an empty catalog, an invalid form and loading on; its history is the stored history read at mount (line 191), empty when the key is absent; the state is consistent |
| Converter.CatalogLoaded | src/app/page.js:200-228 | on success the catalog is rebuilt from the list and the prompt changes; on any failure the catalog stays and the fixed failure message is shown; loading ends; nothing else (amount, codes, validity, history, last update) changes |
| Converter.Mount | src/app/page.js:189-194 | after mounting the state is consistent, not loading, and the history is what the slot held |
| Converter.EditAmount | src/app/page.js:254-257 | the amount becomes the formatted input and validity is re-evaluated for it; every other field is unchanged and the state stays consistent |
| Converter.SelectFrom | src/app/page.js:467 | choosing a source code sets it and re-evaluates validity for the new pair; every other field is unchanged and the state stays consistent |
| Converter.SelectTo | src/app/page.js:510 | choosing a target code sets it and re-evaluates validity for the new pair; every other field is unchanged and the state stays consistent |
| Converter.Swap | src/app/page.js:382-385 | source and target are exchanged, nothing else changes, and validity keeps its value |
| Converter.RejectionMessage | src/app/page.js:277-285 | an invalid submit shows exactly one of the three validation messages |
| Converter.BeginSubmit | src/app/page.js:274-296 | a request goes out iff the form is valid; otherwise only the error and validity flag change; a valid form starts loading with the error cleared and sends the parsed amount and both codes |
| Converter.CompleteSubmit | src/app/page.js:298-335 | success shows the conversion, records the last update and prepends one record with the clock reading as id; failure shows the prefixed reason and leaves history untouched; loading ends either way |
| Converter.Submit | src/app/page.js:274-336 | no request and unchanged history and loading for an invalid form; otherwise loading ends, success grows the history by one up to ten, failure leaves history and catalog untouched; consistency is kept |
| Converter.RemoveEntry | src/app/page.js:408-412 | removing an entry changes only the history and keeps the state consistent |
| Converter.ClearAll | src/app/page.js:414-421 | clearing changes only the history and keeps the state consistent |
| Converter.RejectionNamesCause | src/app/page.js:277-285 | in a consistent state the amount message appears iff the amount is empty, the same-currency message iff a non-empty amount meets equal codes, and the catch-all iff a code is missing |
| Converter.SwapTwice | src/app/page.js:382-385 | swapping twice restores the state |
| Converter.SubmitTenDollars | src/app/page.js:304-323 | submitting 10 USD to IDR answered at rate 15000 sends 10, shows 150000 and records 10 converted into 150000 |
| Converter.SubmitSameCurrency | src/app/page.js:280-281 | submitting with the same code on both sides sends nothing and shows the same-currency message |

## Left out

- HTTP requests and JSON decoding (`fetch`, `response.json()`, lines 203-209 and 294-302): a reply is an input value, a status code with an already decoded envelope or a network failure.
- The request URL built at line 295 and the number-to-text conversion of the amount inside it: the model records the request as the parsed amount and both codes.
- `localStorage` serialisation (`JSON.stringify`/`JSON.parse`): the store slot is an `Option` of a record list; malformed stored text, which makes line 191 throw, and falsy stored values other than an absent key (`null`, `false`, `0`, `""`, all read as empty) are not representable.
- AmountValue.ParseFloat: models `parseFloat` only on text without sign, exponent, leading whitespace or `Infinity`, and with exact rationals instead of binary floating point; the text it receives is always formatter output, which has none of those.
- Locale formatting with `Intl.NumberFormat` (`formatNumber`, `formatCurrency`, lines 362-380), `Date` parsing and `toLocaleString`: the last-update time is taken as its display text.
- Presentation: the HTML of the result panel (lines 345-359 and 330-332) is abstracted to the `View` datatype; JSX, styling, the disabled state of the submit button (line 539) and the name sort of the currency lists (lines 472-473) are not modelled.
- The flag lookup table `currencyFlags` (lines 23-184): static display data.
- Overlapping submits: the reply of an earlier request arriving after a later one, and `addToHistory` using the history captured when the submit began, are concurrency effects outside this sequential model.
- Catalog.Build: JavaScript object keys with special meaning (such as `__proto__`) are treated as ordinary codes.
- Console logging of errors.
- `src/app/layout.js`: page metadata, fonts and the HTML shell only.
