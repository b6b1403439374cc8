/** The conversion page as a state machine over its component state
    (`CurrencyConverter`): mounting (history load and catalog request),
    editing the amount, choosing and swapping currencies, submitting a
    conversion, and removing or clearing history entries. Every step is
    one handler run to completion; replies of the rate service, the clock
    and the confirmation dialog are inputs. */
module Converter {
  import opened Wrappers
  import opened AmountValue
  import AmountFormat
  import History
  import Catalog
  import opened RateApi

  /** What the result panel shows. */
  datatype View =
    | Message(text: string)
    | Shown(amount: real, fromCurrency: string, convertedAmount: real, toCurrency: string, rate: real)
    | Failed(reason: string)

  /** The payload of a successful conversion reply. */
  datatype Conversion = Conversion(convertedAmount: real, rate: real, lastUpdate: string)

  /** The conversion request a valid submit sends. */
  datatype Request = Request(amount: real, fromCurrency: string, toCurrency: string)

  datatype State = State(
    amount: string,
    fromCurrency: string,
    toCurrency: string,
    currencies: map<string, string>,
    result: View,
    lastUpdated: string,
    log: History.Log,
    loading: bool,
    error: string,
    isValid: bool)

  /** A submit's new state and the request it sent, if any. */
  datatype Submission = Submission(state: State, request: Option<Request>)

  const EnterAmountPrompt := "Enter the amount and select the currency for conversion."
  const SelectPrompt := "Select currency to start conversion"
  const CatalogFailure := "Failed to load currency list. Please try again."
  const CatalogFallback := "Failed to load currency"
  const ConversionFallback := "Failed to convert currency"
  const InvalidAmountError := "Please enter a valid amount"
  const SameCurrencyError := "The origin and destination currencies cannot be the same."
  const IncompleteError := "Please complete all fields"
  const ErrorPrefix := "There is an error: "

  /** What holds in every state the page reaches: the amount is formatter
      output, the validity flag is current, and the store slot mirrors the
      history. */
  predicate Consistent(s: State) {
    && AmountFormat.Format(s.amount) == s.amount
    && s.isValid == Valid(s.amount, s.fromCurrency, s.toCurrency)
    && History.Mirrored(s.log)
  }

  /** The validation effect, re-run whenever amount or codes change. */
  function Revalidate(s: State): State {
    s.(isValid := Valid(s.amount, s.fromCurrency, s.toCurrency))
  }

  // ---------------------------------------------------------------------
  // Mounting

  /** The state once the mount effect has read the stored history and sent
      the catalog request: still loading. */
  function Initial(slot: Option<seq<History.Record>>): (s: State)
    ensures Consistent(s)
    ensures s.log.entries == History.Load(slot) && s.log.slot == slot
    ensures slot.None? ==> s.log.entries == []
    ensures s.loading && !s.isValid && s.currencies == map[]
    ensures s.amount == "" && s.fromCurrency == "USD" && s.toCurrency == "IDR"
    ensures s.result == Message(EnterAmountPrompt) && s.lastUpdated == "" && s.error == ""
  {
    EmptyIsFormatted();
    var s := State("", "USD", "IDR", map[], Message(EnterAmountPrompt), "",
                   History.Log(History.Load(slot), slot), true, "", false);
    Revalidate(s)
  }

  /** The empty amount is formatter output. */
  lemma {:induction false} EmptyIsFormatted()
    ensures AmountFormat.Format("") == ""
  {
    AmountFormat.FormatAssembles("");
    assert AmountFormat.KeptInteger("") == "";
  }

  /** The catalog reply arrives: on success the catalog is replaced
      wholesale and the prompt changes; on any failure the catalog stays
      and a fixed message is shown. Loading ends either way and the
      history is not touched. */
  function CatalogLoaded(s: State, reply: Reply<seq<(string, string)>>): (r: State)
    ensures !r.loading && r.log == s.log && r.lastUpdated == s.lastUpdated
    ensures r.amount == s.amount && r.fromCurrency == s.fromCurrency
      && r.toCurrency == s.toCurrency && r.isValid == s.isValid
    ensures Consistent(s) ==> Consistent(r)
    ensures Outcome(reply, CatalogFallback).Done? ==>
      && r.currencies == Catalog.Build(reply.body.payload)
      && r.currencies.Keys == Catalog.Codes(reply.body.payload)
      && r.result == Message(SelectPrompt) && r.error == s.error
    ensures Outcome(reply, CatalogFallback).Threw? ==>
      r.currencies == s.currencies && r.error == CatalogFailure && r.result == Message(CatalogFailure)
    ensures r == s.(currencies := r.currencies, result := r.result, error := r.error, loading := false)
  {
    match Outcome(reply, CatalogFallback)
    case Done(pairs) =>
      s.(currencies := Catalog.Build(pairs), result := Message(SelectPrompt), loading := false)
    case Threw(_) =>
      s.(error := CatalogFailure, result := Message(CatalogFailure), loading := false)
  }

  /** Mounting as a whole: the history comes from the slot (empty when the
      key is absent) and the catalog reply is applied. */
  function Mount(slot: Option<seq<History.Record>>, reply: Reply<seq<(string, string)>>): (s: State)
    ensures Consistent(s) && !s.loading
    ensures s.log.entries == History.Load(slot)
  {
    CatalogLoaded(Initial(slot), reply)
  }

  // ---------------------------------------------------------------------
  // Editing

  /** A keystroke in the amount field: the typed text is formatted and the
      form re-validated. */
  function EditAmount(s: State, typed: string): (r: State)
    ensures r.amount == AmountFormat.Format(typed)
    ensures Consistent(s) ==> Consistent(r)
    ensures r.fromCurrency == s.fromCurrency && r.toCurrency == s.toCurrency && r.log == s.log
    ensures r.isValid == Valid(r.amount, s.fromCurrency, s.toCurrency)
    ensures r == s.(amount := r.amount, isValid := r.isValid)
  {
    AmountFormat.FormatIdempotent(typed);
    Revalidate(s.(amount := AmountFormat.Format(typed)))
  }

  function SelectFrom(s: State, code: string): (r: State)
    ensures r.fromCurrency == code && r.isValid == Valid(s.amount, code, s.toCurrency)
    ensures r == s.(fromCurrency := code, isValid := r.isValid)
    ensures Consistent(s) ==> Consistent(r)
  {
    Revalidate(s.(fromCurrency := code))
  }

  function SelectTo(s: State, code: string): (r: State)
    ensures r.toCurrency == code && r.isValid == Valid(s.amount, s.fromCurrency, code)
    ensures r == s.(toCurrency := code, isValid := r.isValid)
    ensures Consistent(s) ==> Consistent(r)
  {
    Revalidate(s.(toCurrency := code))
  }

  /** Exchange source and target; validity is symmetric, so the flag keeps
      its value. */
  function Swap(s: State): (r: State)
    ensures r.fromCurrency == s.toCurrency && r.toCurrency == s.fromCurrency
    ensures r == s.(fromCurrency := s.toCurrency, toCurrency := s.fromCurrency, isValid := r.isValid)
    ensures Consistent(s) ==> Consistent(r) && r.isValid == s.isValid
  {
    Revalidate(s.(fromCurrency := s.toCurrency, toCurrency := s.fromCurrency))
  }

  // ---------------------------------------------------------------------
  // Submitting

  /** The one message an invalid submit shows, by priority: missing amount,
      then identical codes, then anything else. */
  function RejectionMessage(amount: string, fromCurrency: string, toCurrency: string): (m: string)
    ensures m in {InvalidAmountError, SameCurrencyError, IncompleteError}
  {
    if amount == "" then InvalidAmountError
    else if fromCurrency == toCurrency then SameCurrencyError
    else IncompleteError
  }

  /** The synchronous part of a submit: an invalid form gets its message
      and sends nothing; a valid one starts loading, clears the error and
      sends the parsed amount with both codes. */
  function BeginSubmit(s: State): (r: Submission)
    ensures r.request.None? <==> !Valid(s.amount, s.fromCurrency, s.toCurrency)
    ensures r.request.None? ==>
      && r.state.error in {InvalidAmountError, SameCurrencyError, IncompleteError}
      && r.state == s.(error := r.state.error, isValid := false)
    ensures r.request.Some? ==>
      && r.state == s.(loading := true, error := "", isValid := true)
      && Some(r.request.value.amount) == ParseFloat(Normalise(s.amount))
      && r.request.value.fromCurrency == s.fromCurrency
      && r.request.value.toCurrency == s.toCurrency
  {
    if !Valid(s.amount, s.fromCurrency, s.toCurrency) then
      Submission(s.(error := RejectionMessage(s.amount, s.fromCurrency, s.toCurrency), isValid := false), None)
    else
      var amount := ParseFloat(Normalise(s.amount)).value;
      Submission(s.(loading := true, error := "", isValid := true),
                 Some(Request(amount, s.fromCurrency, s.toCurrency)))
  }

  /** The conversion reply arrives: on success the result and last-update
      time are shown and one record (with the clock reading `now` as id) is
      added to the history; on failure the prefixed reason is shown and the
      history is untouched. Loading ends either way. */
  function CompleteSubmit(s: State, request: Request, reply: Reply<Conversion>, now: int): (r: State)
    ensures !r.loading && r.currencies == s.currencies
    ensures r.amount == s.amount && r.fromCurrency == s.fromCurrency
      && r.toCurrency == s.toCurrency && r.isValid == s.isValid
    ensures Consistent(s) ==> Consistent(r)
    ensures Outcome(reply, ConversionFallback).Done? ==>
      var c := reply.body.payload;
      && |r.log.entries| == (if |s.log.entries| < History.Capacity then |s.log.entries| + 1 else History.Capacity)
      && r.log.entries[0] == History.Record(now, request.amount, request.fromCurrency,
                                            c.convertedAmount, request.toCurrency, c.lastUpdate)
      && r.log.entries[1..] == s.log.entries[..|r.log.entries| - 1]
      && r.log.slot == Some(r.log.entries)
      && r.result == Shown(request.amount, request.fromCurrency, c.convertedAmount, request.toCurrency, c.rate)
      && r.lastUpdated == c.lastUpdate && r.error == s.error
    ensures Outcome(reply, ConversionFallback).Threw? ==>
      var reason := Outcome(reply, ConversionFallback).message;
      && r.log == s.log && r.lastUpdated == s.lastUpdated
      && r.error == ErrorPrefix + reason && r.result == Failed(reason)
  {
    match Outcome(reply, ConversionFallback)
    case Done(c) =>
      var record := History.Record(now, request.amount, request.fromCurrency,
                                   c.convertedAmount, request.toCurrency, c.lastUpdate);
      var log := History.Add(s.log, record);
      assert log.entries[1..] == s.log.entries[..|log.entries| - 1];
      s.(lastUpdated := c.lastUpdate,
         result := Shown(request.amount, request.fromCurrency, c.convertedAmount, request.toCurrency, c.rate),
         log := log,
         loading := false)
    case Threw(reason) =>
      s.(error := ErrorPrefix + reason, result := Failed(reason), loading := false)
  }

  /** A whole submit: begin, and when a request went out, complete it with
      the reply. */
  function Submit(s: State, reply: Reply<Conversion>, now: int): (r: Submission)
    ensures r.request.None? <==> !Valid(s.amount, s.fromCurrency, s.toCurrency)
    ensures r.request.None? ==> r.state.log == s.log && r.state.loading == s.loading
    ensures r.request.Some? ==> !r.state.loading
    ensures r.request.Some? && Outcome(reply, ConversionFallback).Done? ==>
      |r.state.log.entries| == if |s.log.entries| < History.Capacity then |s.log.entries| + 1 else History.Capacity
    ensures r.request.Some? && Outcome(reply, ConversionFallback).Threw? ==>
      r.state.log == s.log && r.state.currencies == s.currencies
    ensures Consistent(s) ==> Consistent(r.state)
  {
    var begun := BeginSubmit(s);
    if begun.request.None? then begun
    else Submission(CompleteSubmit(begun.state, begun.request.value, reply, now), begun.request)
  }

  // ---------------------------------------------------------------------
  // History actions

  function RemoveEntry(s: State, id: int): (r: State)
    ensures r == s.(log := History.Remove(s.log, id))
    ensures Consistent(s) ==> Consistent(r)
  {
    s.(log := History.Remove(s.log, id))
  }

  function ClearAll(s: State, confirmed: bool): (r: State)
    ensures r == s.(log := History.Clear(s.log, confirmed))
    ensures Consistent(s) ==> Consistent(r)
  {
    s.(log := History.Clear(s.log, confirmed))
  }

  // ---------------------------------------------------------------------
  // Properties across steps

  /** In a consistent state an invalid submit's message names its cause:
      the amount message exactly when the amount is empty, the same-currency
      message exactly when a non-empty amount meets equal codes, and the
      catch-all message exactly when one code is missing. */
  lemma {:induction false} RejectionNamesCause(s: State)
    requires Consistent(s)
    requires !Valid(s.amount, s.fromCurrency, s.toCurrency)
    ensures var e := BeginSubmit(s).state.error;
      && (e == InvalidAmountError <==> s.amount == "")
      && (e == SameCurrencyError <==> s.amount != "" && s.fromCurrency == s.toCurrency)
      && (e == IncompleteError <==>
            s.amount != "" && s.fromCurrency != s.toCurrency && (s.fromCurrency == "" || s.toCurrency == ""))
  {
    FormattedValidity(s.amount, s.fromCurrency, s.toCurrency);
  }

  /** Swapping twice restores a consistent state. */
  lemma {:induction false} SwapTwice(s: State)
    requires Consistent(s)
    ensures Swap(Swap(s)) == s
  {
  }

  /** Submitting 10 from USD to IDR, answered at a rate of 15000, shows
      150000 and records one conversion of 10 into 150000. */
  lemma {:induction false} SubmitTenDollars(s: State, now: int, stamp: string)
    requires Consistent(s)
    requires s.amount == "10" && s.fromCurrency == "USD" && s.toCurrency == "IDR"
    ensures var r := Submit(s, Response(200, Ok(Conversion(150000.0, 15000.0, stamp))), now);
      && r.request == Some(Request(10.0, "USD", "IDR"))
      && r.state.result == Shown(10.0, "USD", 150000.0, "IDR", 15000.0)
      && r.state.log.entries[0] == History.Record(now, 10.0, "USD", 150000.0, "IDR", stamp)
      && r.state.error == "" && !r.state.loading
  {
    TenParses();
  }

  /** `"10"` is formatter output and reads as 10. */
  lemma {:induction false} TenParses()
    ensures AmountFormat.Format("10") == "10"
    ensures ParseFloat(Normalise("10")) == Some(10.0)
  {
    assert Text.AllDigits("10");
    WholeNumberRoundTrip("10");
    WholeNumberParts("10");
    AmountFormat.FormatAssembles("10");
    assert DigitsValue("10") == 10 by {
      assert "10"[..1] == "1";
      assert "1"[..0] == "";
    }
  }

  /** Submitting with the same code on both sides is refused with the
      same-currency message and sends nothing. */
  lemma {:induction false} SubmitSameCurrency(s: State, reply: Reply<Conversion>, now: int)
    requires s.amount == "10" && s.fromCurrency == "USD" && s.toCurrency == "USD"
    ensures Submit(s, reply, now).request == None
    ensures Submit(s, reply, now).state.error == SameCurrencyError
  {
  }
}
