/** The intents and the model of converter.js: from user events to the
    state streams the view renders.

    Everything the user does, and every exchange-rate lookup that resolves,
    is one `Event` of a single trace, in the order it happened. The intents
    turn events into update functions `old -> new`; each state slice is the
    scan of its update functions over its initial value, seeded with `Noop`
    so that the initial value is emitted first. Streams that the model
    combines (currency with rate, amount with rate) are read off the same
    event trace as ONE merged trace, so the order in which their emissions
    arrive is the order of the events. */
module Converter {
  import opened Streams

  type Currency = string

  /** An exchange rate, exact: floating-point rounding is not modelled. */
  type Rate = real

  datatype Event =
    | AmountText(amount: int)       // the amount input changed
    | CurrencySel(currency: Currency) // a currency was selected
    | Inc                           // "+" clicked
    | Dec                           // "-" clicked
    | Reset                         // "Reset" clicked
    | RateArrived(rate: Rate)       // a rate lookup resolved

  const InitialAmount: int := 1
  const InitialCurrency: Currency := "EUR"

  // ------------------------------------------------------------------ intents

  function Noop<T>(x: T): T
  {
    x
  }

  function ReplaceValue<T>(newValue: T): T -> T
  {
    _ => newValue
  }

  /** The scan step `(state, func) => func(state)`. */
  function Apply<T>(state: T, update: T -> T): T
  {
    update(state)
  }

  function Max(a: int, b: int): int
  {
    if a >= b then a else b
  }

  /** The update an event makes to the amount, if any: a text change or a
      reset replaces the amount whatever it was, "+" adds one and "-"
      subtracts one but never goes below zero. */
  function AmountIntent(e: Event): (u: Option<int -> int>)
    ensures u.Some? <==> e.AmountText? || e.Reset? || e.Inc? || e.Dec?
    ensures e.AmountText? ==> forall x :: u.value(x) == e.amount
    ensures e.Reset? ==> forall x :: u.value(x) == InitialAmount
    ensures e.Inc? ==> forall x :: u.value(x) == x + 1
    ensures e.Dec? ==> forall x :: u.value(x) >= 0 && (x >= 1 ==> u.value(x) == x - 1) && (x < 1 ==> u.value(x) == 0)
  {
    match e
    case AmountText(v) => Some(ReplaceValue(v))
    case Reset => Some(ReplaceValue(InitialAmount))
    case Inc => Some(current => current + 1)
    case Dec => Some(current => Max(0, current - 1))
    case _ => None
  }

  /** The update an event makes to the currency, if any: a selection or a
      reset replaces the currency whatever it was. */
  function CurrencyIntent(e: Event): (u: Option<Currency -> Currency>)
    ensures u.Some? <==> e.CurrencySel? || e.Reset?
    ensures e.CurrencySel? ==> forall c :: u.value(c) == e.currency
    ensures e.Reset? ==> forall c :: u.value(c) == InitialCurrency
  {
    match e
    case CurrencySel(c) => Some(ReplaceValue(c))
    case Reset => Some(ReplaceValue(InitialCurrency))
    case _ => None
  }

  /** The rate a resolved lookup delivers. */
  function RateOf(e: Event): Option<Rate>
  {
    if e.RateArrived? then Some(e.rate) else None
  }

  /** `updateAmount$`: the merged amount updates, in event order. */
  function UpdateAmount(events: seq<Event>): seq<int -> int>
  {
    Collect(events, AmountIntent)
  }

  /** `updateCurrency$`: the merged currency updates, in event order. */
  function UpdateCurrency(events: seq<Event>): seq<Currency -> Currency>
  {
    Collect(events, CurrencyIntent)
  }

  // -------------------------------------------------------------------- model

  /** `amount$`: the initial amount, then the value after each update. */
  function Amounts(events: seq<Event>): (r: seq<int>)
    ensures |r| == |UpdateAmount(events)| + 1
    ensures r[0] == InitialAmount
  {
    var updates: seq<int -> int> := [Noop] + UpdateAmount(events);
    Scan(InitialAmount, updates, Apply)
  }

  /** The currency after each update, before repeats are dropped. */
  function CurrencyStates(events: seq<Event>): (r: seq<Currency>)
    ensures |r| == |UpdateCurrency(events)| + 1
    ensures r[0] == InitialCurrency
  {
    var updates: seq<Currency -> Currency> := [Noop] + UpdateCurrency(events);
    Scan(InitialCurrency, updates, Apply)
  }

  /** `currency$`: starts with the initial currency and never repeats a
      currency immediately. */
  function Currencies(events: seq<Event>): (r: seq<Currency>)
    ensures r != [] && r[0] == InitialCurrency
    ensures NoStutter(r)
    ensures Last(r) == Last(CurrencyStates(events))
  {
    DistinctUntilChanged(CurrencyStates(events))
  }

  /** `rate$`: every lookup result, in the order they resolve. Nothing
      discards a result that arrives for a currency no longer selected. */
  function Rates(events: seq<Event>): seq<Rate>
  {
    Collect(events, RateOf)
  }

  function AmountOrRate(e: Event): Option<Either<int -> int, Rate>>
  {
    match AmountIntent(e)
    case Some(u) => Some(Left(u))
    case None => if e.RateArrived? then Some(Right(e.rate)) else None
  }

  function CurrencyOrRate(e: Event): Option<Either<Currency -> Currency, Rate>>
  {
    match CurrencyIntent(e)
    case Some(u) => Some(Left(u))
    case None => if e.RateArrived? then Some(Right(e.rate)) else None
  }

  /** `amount$` and `rate$` merged in arrival order. */
  function AmountsAndRates(events: seq<Event>): seq<Either<int, Rate>>
  {
    var updates: seq<Either<int -> int, Rate>> := [Left(Noop)] + Collect(events, AmountOrRate);
    ScanL(InitialAmount, updates, Apply)
  }

  /** `currency$` and `rate$` merged in arrival order. */
  function CurrenciesAndRates(events: seq<Event>): seq<Either<Currency, Rate>>
  {
    var updates: seq<Either<Currency -> Currency, Rate>> := [Left(Noop)] + Collect(events, CurrencyOrRate);
    DistinctL(ScanL(InitialCurrency, updates, Apply))
  }

  function StartLoading(c: Currency): bool
  {
    true
  }

  function StopLoading(r: Rate): bool
  {
    false
  }

  /** `rateLoading$ = merge(currency$.map(true), rate$.map(false))`. */
  function RateLoading(events: seq<Event>): seq<bool>
  {
    Merge(CurrenciesAndRates(events), StartLoading, StopLoading)
  }

  /** The selector `(_, currency) => currency`. */
  function LabelOf(r: Rate, c: Currency): Currency
  {
    c
  }

  /** `rateCurrency$ = rate$.withLatestFrom(currency$, (_, currency) => currency)`. */
  function RateCurrencies(events: seq<Event>): seq<Currency>
  {
    WithLatestFrom(Swap(CurrenciesAndRates(events)), LabelOf)
  }

  /** The selector `(amount, rate) => amount * rate`, exact. */
  function Convert(amount: int, rate: Rate): real
  {
    amount as real * rate
  }

  /** `converted$ = combine$(amount$, rate$, (amount, rate) => amount * rate)`. */
  function Converted(events: seq<Event>): seq<real>
  {
    CombineLatest2(AmountsAndRates(events), Convert)
  }

  // --------------------------------------------------------------- properties

  /** The merged intents project back onto the separate update streams. */
  lemma {:induction false} IntentProjections(events: seq<Event>)
    ensures Lefts(Collect(events, AmountOrRate)) == UpdateAmount(events)
    ensures Rights(Collect(events, AmountOrRate)) == Rates(events)
    ensures Lefts(Collect(events, CurrencyOrRate)) == UpdateCurrency(events)
    ensures Rights(Collect(events, CurrencyOrRate)) == Rates(events)
  {
    if events != [] {
      var init, e := Init(events), Last(events);
      assert events == init + [e];
      IntentProjections(init);
      CollectSnoc(init, e, AmountOrRate);
      CollectSnoc(init, e, CurrencyOrRate);
      CollectSnoc(init, e, AmountIntent);
      CollectSnoc(init, e, CurrencyIntent);
      CollectSnoc(init, e, RateOf);
      if AmountOrRate(e).Some? {
        ProjectSnoc(Collect(init, AmountOrRate), AmountOrRate(e).value);
      }
      if CurrencyOrRate(e).Some? {
        ProjectSnoc(Collect(init, CurrencyOrRate), CurrencyOrRate(e).value);
      }
    }
  }

  /** The merged timelines hold exactly the emissions of the streams they
      merge, each in its own order. */
  lemma TimelineProjections(events: seq<Event>)
    ensures Lefts(AmountsAndRates(events)) == Amounts(events)
    ensures Rights(AmountsAndRates(events)) == Rates(events)
    ensures Lefts(CurrenciesAndRates(events)) == Currencies(events)
    ensures Rights(CurrenciesAndRates(events)) == Rates(events)
  {
    IntentProjections(events);
    var amountUpdates: seq<Either<int -> int, Rate>> := [Left(Noop)] + Collect(events, AmountOrRate);
    ProjectConcat([Left(Noop)], Collect(events, AmountOrRate));
    ProjectSnoc<int -> int, Rate>([], Left(Noop));
    ScanLProjections(InitialAmount, amountUpdates, Apply);
    var currencyUpdates: seq<Either<Currency -> Currency, Rate>> := [Left(Noop)] + Collect(events, CurrencyOrRate);
    ProjectConcat([Left(Noop)], Collect(events, CurrencyOrRate));
    ProjectSnoc<Currency -> Currency, Rate>([], Left(Noop));
    ScanLProjections(InitialCurrency, currencyUpdates, Apply);
    DistinctLProjections(ScanL(InitialCurrency, currencyUpdates, Apply));
  }

  /** One more event extends `amount$` by the result of its update applied
      to the current amount, or not at all. */
  lemma AmountStep(events: seq<Event>, e: Event)
    ensures Amounts(events + [e]) ==
      Amounts(events) + (if AmountIntent(e).Some? then [AmountIntent(e).value(Last(Amounts(events)))] else [])
  {
    CollectSnoc(events, e, AmountIntent);
    var updates: seq<int -> int> := [Noop] + UpdateAmount(events);
    if AmountIntent(e).Some? {
      assert [Noop] + UpdateAmount(events + [e]) == updates + [AmountIntent(e).value];
      ScanSnoc(InitialAmount, updates, AmountIntent(e).value, Apply);
    }
  }

  /** One more event extends `currency$` by its new currency when that
      differs from the current one, and otherwise leaves it as it was. */
  lemma CurrencyStep(events: seq<Event>, e: Event)
    ensures var current := Last(Currencies(events));
      Currencies(events + [e]) ==
        Currencies(events) +
        (if CurrencyIntent(e).Some? && CurrencyIntent(e).value(current) != current
         then [CurrencyIntent(e).value(current)] else [])
  {
    CollectSnoc(events, e, CurrencyIntent);
    var updates: seq<Currency -> Currency> := [Noop] + UpdateCurrency(events);
    if CurrencyIntent(e).Some? {
      var u := CurrencyIntent(e).value;
      assert [Noop] + UpdateCurrency(events + [e]) == updates + [u];
      ScanSnoc(InitialCurrency, updates, u, Apply);
      InitOfSnoc(CurrencyStates(events), u(Last(CurrencyStates(events))));
    }
  }

  /** Reset restores the initial amount and the initial currency, whatever
      the state before it. */
  lemma ResetRestoresInitialState(events: seq<Event>)
    ensures Last(Amounts(events + [Reset])) == InitialAmount
    ensures Last(Currencies(events + [Reset])) == InitialCurrency
  {
    AmountStep(events, Reset);
    CurrencyStep(events, Reset);
  }

  /** Increment and decrement never make the amount negative: if no text
      change enters a negative amount, `amount$` never emits one. */
  lemma {:induction false} AmountNeverNegative(events: seq<Event>)
    requires forall i :: 0 <= i < |events| && events[i].AmountText? ==> events[i].amount >= 0
    ensures forall k :: 0 <= k < |Amounts(events)| ==> Amounts(events)[k] >= 0
  {
    if events != [] {
      var init, e := Init(events), Last(events);
      assert events == init + [e];
      AmountNeverNegative(init);
      AmountStep(init, e);
    }
  }

  /** One more event extends the merged amount/rate timeline by the new
      amount or the arrived rate. */
  lemma AmountsAndRatesStep(events: seq<Event>, e: Event)
    ensures AmountsAndRates(events + [e]) ==
      AmountsAndRates(events) +
      (if AmountIntent(e).Some? then [Left(AmountIntent(e).value(Last(Amounts(events))))]
       else if e.RateArrived? then [Right(e.rate)] else [])
  {
    CollectSnoc(events, e, AmountOrRate);
    var updates: seq<Either<int -> int, Rate>> := [Left(Noop)] + Collect(events, AmountOrRate);
    if AmountOrRate(e).Some? {
      var x := AmountOrRate(e).value;
      assert [Left(Noop)] + Collect(events + [e], AmountOrRate) == updates + [x];
      InitOfSnoc(updates, x);
      if x.Left? {
        ProjectSnoc(updates, x);
        ReduceSnoc(InitialAmount, Lefts(updates), x.left, Apply);
        IntentProjections(events);
        ProjectConcat([Left(Noop)], Collect(events, AmountOrRate));
        ProjectSnoc<int -> int, Rate>([], Left(Noop));
      }
    }
  }

  /** One more event extends the merged currency/rate timeline by the new
      currency (when it differs from the current one) or the arrived rate. */
  lemma CurrenciesAndRatesStep(events: seq<Event>, e: Event)
    ensures var current := Last(Currencies(events));
      CurrenciesAndRates(events + [e]) ==
        CurrenciesAndRates(events) +
        (if CurrencyIntent(e).Some? then
           (if CurrencyIntent(e).value(current) == current then [] else [Left(CurrencyIntent(e).value(current))])
         else if e.RateArrived? then [Right(e.rate)] else [])
  {
    CollectSnoc(events, e, CurrencyOrRate);
    var updates: seq<Either<Currency -> Currency, Rate>> := [Left(Noop)] + Collect(events, CurrencyOrRate);
    var scanned := ScanL(InitialCurrency, updates, Apply);
    IntentProjections(events);
    ProjectConcat([Left(Noop)], Collect(events, CurrencyOrRate));
    ProjectSnoc<Currency -> Currency, Rate>([], Left(Noop));
    ScanLProjections(InitialCurrency, updates, Apply);
    assert Lefts(scanned) == CurrencyStates(events);
    if CurrencyOrRate(e).Some? {
      var x := CurrencyOrRate(e).value;
      assert [Left(Noop)] + Collect(events + [e], CurrencyOrRate) == updates + [x];
      InitOfSnoc(updates, x);
      var y := Last(ScanL(InitialCurrency, updates + [x], Apply));
      assert ScanL(InitialCurrency, updates + [x], Apply) == scanned + [y];
      InitOfSnoc(scanned, y);
      if x.Left? {
        ProjectSnoc(updates, x);
        ReduceSnoc(InitialCurrency, Lefts(updates), x.left, Apply);
      }
    }
  }

  /** `rateLoading$` turns true on every currency emission and false on
      every rate emission; nothing else changes it. */
  lemma LoadingStep(events: seq<Event>, e: Event)
    ensures var current := Last(Currencies(events));
      RateLoading(events + [e]) ==
        RateLoading(events) +
        (if e.RateArrived? then [false]
         else if CurrencyIntent(e).Some? && CurrencyIntent(e).value(current) != current then [true]
         else [])
  {
    CurrenciesAndRatesStep(events, e);
    var t := CurrenciesAndRates(events);
    if CurrenciesAndRates(events + [e]) != t {
      InitOfSnoc(t, Last(CurrenciesAndRates(events + [e])));
    }
  }

  /** Both merged timelines open with the initial value of their state
      slice, before any rate. */
  lemma {:induction false} TimelineHeads(events: seq<Event>)
    ensures AmountsAndRates(events) != [] && AmountsAndRates(events)[0] == Left(InitialAmount)
    ensures CurrenciesAndRates(events) != [] && CurrenciesAndRates(events)[0] == Left(InitialCurrency)
  {
    if events == [] {
      TimelineProjections(events);
      var a := AmountsAndRates(events);
      var c := CurrenciesAndRates(events);
      MergeSplits(a);
      MergeSplits(c);
      assert Lefts(a) == [InitialAmount] && Rights(a) == [];
      assert Lefts(c) == [InitialCurrency] && Rights(c) == [];
      assert a == Init(a) + [Last(a)];
      ProjectSnoc(Init(a), Last(a));
      assert c == Init(c) + [Last(c)];
      ProjectSnoc(Init(c), Last(c));
    } else {
      var init, e := Init(events), Last(events);
      assert events == init + [e];
      TimelineHeads(init);
      AmountsAndRatesStep(init, e);
      CurrenciesAndRatesStep(init, e);
    }
  }

  /** `rateLoading$` emits once per currency emission and once per rate
      emission, in their merged order: each emission is true exactly when
      it answers a currency emission, so it starts true and its latest value
      is false exactly when the latest of those emissions was a rate. */
  lemma LoadingFollowsTimeline(events: seq<Event>)
    ensures |RateLoading(events)| == |Currencies(events)| + |Rates(events)|
    ensures RateLoading(events)[0]
    ensures forall i :: 0 <= i < |RateLoading(events)| ==>
      RateLoading(events)[i] == CurrenciesAndRates(events)[i].Left?
    ensures !Last(RateLoading(events)) <==> Last(CurrenciesAndRates(events)).Right?
  {
    var t := CurrenciesAndRates(events);
    TimelineProjections(events);
    MergeSplits(t);
    TimelineHeads(events);
  }

  /** Each rate arrival is labelled with the currency that is current when
      it arrives, whichever currency it was looked up for; other events add
      no label. */
  lemma RateCurrencyStep(events: seq<Event>, e: Event)
    ensures RateCurrencies(events + [e]) ==
      RateCurrencies(events) + (if e.RateArrived? then [Last(Currencies(events))] else [])
  {
    CurrenciesAndRatesStep(events, e);
    var t := CurrenciesAndRates(events);
    var t' := CurrenciesAndRates(events + [e]);
    if t' != t {
      var x := Last(t');
      assert t' == t + [x];
      InitOfSnoc(t, x);
      var s := Swap(t');
      InitOfSnoc(Swap(t), Last(s));
      assert Init(s) == Swap(t);
      SwapProjections(t);
      TimelineProjections(events);
    }
  }

  /** Every rate is labelled exactly once. */
  lemma {:induction false} RateCurrencyCount(events: seq<Event>)
    ensures |RateCurrencies(events)| == |Rates(events)|
  {
    if events == [] {
      var t := CurrenciesAndRates(events);
      TimelineProjections(events);
      MergeSplits(t);
      assert |t| == 1;
      assert Swap(t) == Swap([]) + [Last(Swap(t))];
    } else {
      var init, e := Init(events), Last(events);
      assert events == init + [e];
      RateCurrencyCount(init);
      RateCurrencyStep(init, e);
      CollectSnoc(init, e, RateOf);
    }
  }

  /** `converted$` stays silent until a rate has arrived. */
  lemma ConvertedWaitsForRate(events: seq<Event>)
    ensures Converted(events) == [] <==> Rates(events) == []
  {
    TimelineProjections(events);
    CombineLatest2Silent(AmountsAndRates(events), Convert);
  }

  /** After that, every amount update and every rate arrival emits the
      product of the latest amount and the latest rate. */
  lemma ConvertedStep(events: seq<Event>, e: Event)
    ensures Converted(events + [e]) ==
      Converted(events) +
      (if AmountIntent(e).Some? && Rates(events) != [] then
         [Convert(AmountIntent(e).value(Last(Amounts(events))), Last(Rates(events)))]
       else if e.RateArrived? then [Convert(Last(Amounts(events)), e.rate)]
       else [])
  {
    AmountsAndRatesStep(events, e);
    var t := AmountsAndRates(events);
    var t' := AmountsAndRates(events + [e]);
    if t' != t {
      InitOfSnoc(t, Last(t'));
      TimelineProjections(events + [e]);
      AmountStep(events, e);
      CollectSnoc(events, e, RateOf);
    }
  }

  // ---------------------------------------------------------------- scenarios

  /** Before any event: amount 1, currency EUR, loading, nothing converted. */
  lemma StartUp()
    ensures Amounts([]) == [InitialAmount]
    ensures Currencies([]) == [InitialCurrency]
    ensures Rates([]) == []
    ensures RateLoading([]) == [true]
    ensures RateCurrencies([]) == []
    ensures Converted([]) == []
  {
    LoadingFollowsTimeline([]);
    RateCurrencyCount([]);
    ConvertedWaitsForRate([]);
  }

  /** Selecting another currency at start-up changes the currency and
      starts loading again, but no rate has arrived yet. */
  lemma SelectBeforeFirstRate(c: Currency)
    requires c != InitialCurrency
    ensures Amounts([CurrencySel(c)]) == [InitialAmount]
    ensures Currencies([CurrencySel(c)]) == [InitialCurrency, c]
    ensures Rates([CurrencySel(c)]) == []
    ensures RateLoading([CurrencySel(c)]) == [true, true]
    ensures RateCurrencies([CurrencySel(c)]) == []
    ensures Converted([CurrencySel(c)]) == []
  {
    var select := CurrencySel(c);
    var none: seq<Event> := [];
    assert none + [select] == [select];
    assert Amounts([select]) == [InitialAmount] by {
      StartUp();
      AmountStep(none, select);
    }
    assert Currencies([select]) == [InitialCurrency, c] by {
      StartUp();
      CurrencyStep(none, select);
    }
    assert Rates([select]) == [] by {
      StartUp();
      CollectSnoc(none, select, RateOf);
    }
    assert RateLoading([select]) == [true, true] by {
      StartUp();
      LoadingStep(none, select);
    }
    assert RateCurrencies([select]) == [] by {
      StartUp();
      RateCurrencyStep(none, select);
    }
    assert Converted([select]) == [] by {
      StartUp();
      ConvertedStep(none, select);
    }
  }

  /** The rate requested for the initial currency resolves after another
      currency has been selected: nothing discards it, so it is labelled
      with the new currency, converts the amount at the old currency's rate,
      and switches the loading flag off while the new lookup is still
      outstanding. */
  lemma LateRateIsMislabelled(c: Currency, r: Rate)
    requires c != InitialCurrency
    ensures RateLoading([CurrencySel(c), RateArrived(r)]) == [true, true, false]
    ensures RateCurrencies([CurrencySel(c), RateArrived(r)]) == [c]
    ensures Converted([CurrencySel(c), RateArrived(r)]) == [r]
  {
    var select := CurrencySel(c);
    var arrive := RateArrived(r);
    SelectBeforeFirstRate(c);
    assert [select] + [arrive] == [select, arrive];
    assert RateLoading([select, arrive]) == [true, true, false] by {
      LoadingStep([select], arrive);
    }
    assert RateCurrencies([select, arrive]) == [c] by {
      RateCurrencyStep([select], arrive);
    }
    assert Converted([select, arrive]) == [r] by {
      ConvertedStep([select], arrive);
    }
  }
}
