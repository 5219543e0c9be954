/** GET /exchange end to end: parameters, the two currencies, the rate, the printed answer. */
module ExchangeHandler {
  import opened Options
  import opened RateResolution
  import CodeIndex

  /** The query parameters; a parameter may be missing or carry no value. */
  datatype Query = Query(from: Option<string>, to: Option<string>, amount: Option<string>)

  /** What the caches hold: currency ids by upper-cased code, and the stored rates. */
  datatype Caches = Caches(ids: map<string, Id>, rates: RateTable)

  /** Numbers are printed in hundredths.  `NotFinite` answers a conversion that divided by a stored
      zero rate; `InternalError` an amount that is not a number. */
  datatype Response =
    | Converted(rate: int, amount: int, converted: int)
    | NotFinite
    | BadRequest
    | CurrencyNotFound(ofBase: bool)
    | RateNotFound
    | InternalError

  function IdOf(caches: Caches, code: string): Option<Id> {
    if CodeIndex.Upper(code) in caches.ids then Some(caches.ids[CodeIndex.Upper(code)]) else None
  }

  function HandleRequest(caches: Caches, parse: string -> Option<real>, q: Query): Response {
    if q.from.None? || |q.from.value| != 3 then BadRequest
    else if q.to.None? || |q.to.value| != 3 then BadRequest
    else if q.amount.None? then BadRequest
    else
      var base, target := IdOf(caches, q.from.value), IdOf(caches, q.to.value);
      if base.None? then CurrencyNotFound(true)
      else if target.None? then CurrencyNotFound(false)
      else
        var rate := Resolve(caches.rates, IdOf(caches, "USD"), base.value, target.value);
        var amount := parse(q.amount.value);
        if rate.NotFound? then RateNotFound
        else if amount.None? then InternalError
        else if rate.DividesByZero? then NotFinite
        else Converted(Printed(rate.rate), Printed(amount.value), Printed(CalcConvAmount(rate.rate, amount.value)))
  }

  predicate WellFormed(q: Query) {
    q.from.Some? && |q.from.value| == 3 && q.to.Some? && |q.to.value| == 3 && q.amount.Some?
  }

  ghost predicate IsPrinted(hundredths: int, x: real) {
    Abs(hundredths as real / 100.0 - x) <= 1.0 / 200.0
  }

  ghost predicate IsPrintedProduct(hundredths: int, x: real, y: real) {
    Abs(hundredths as real / 100.0 - x * y) <= 1.0 / 200.0
  }

  /** The cache holds the currency `id` under a spelling of `code`; it keeps codes in upper case. */
  ghost predicate Knows(caches: Caches, code: string, id: Id) {
    exists c <- caches.ids :: CodeIndex.IsUpperCase(c) && CodeIndex.SameCode(c, code) && caches.ids[c] == id
  }

  lemma KnowsIff(caches: Caches, code: string, id: Id)
    ensures Knows(caches, code, id) <==> IdOf(caches, code) == Some(id)
  {
    CodeIndex.UpperIs(code, CodeIndex.Upper(code));
    if Knows(caches, code, id) {
      var c :| c in caches.ids && CodeIndex.IsUpperCase(c) && CodeIndex.SameCode(c, code) && caches.ids[c] == id;
      CodeIndex.UpperIs(code, c);
    }
  }

  /** `usd` is the currency known as USD, if any. */
  ghost predicate IsUsd(caches: Caches, usd: Option<Id>) {
    forall id :: Knows(caches, "USD", id) <==> usd == Some(id)
  }

  lemma UsdIs(caches: Caches, usd: Option<Id>)
    ensures IsUsd(caches, usd) <==> usd == IdOf(caches, "USD")
  {
    forall id ensures Knows(caches, "USD", id) <==> IdOf(caches, "USD") == Some(id) {
      KnowsIff(caches, "USD", id);
    }
    if IsUsd(caches, usd) {
      assert usd.Some? ==> Knows(caches, "USD", usd.value);
      assert IdOf(caches, "USD").Some? ==> Knows(caches, "USD", IdOf(caches, "USD").value);
    }
  }

  /** The two currencies asked about, when both are known. */
  ghost predicate AsksAbout(caches: Caches, q: Query, a: Id, b: Id) {
    WellFormed(q) && Knows(caches, q.from.value, a) && Knows(caches, q.to.value, b)
  }

  lemma AsksIff(caches: Caches, q: Query, a: Id, b: Id)
    ensures AsksAbout(caches, q, a, b) <==>
      WellFormed(q) && IdOf(caches, q.from.value) == Some(a) && IdOf(caches, q.to.value) == Some(b)
  {
    if WellFormed(q) {
      KnowsIff(caches, q.from.value, a);
      KnowsIff(caches, q.to.value, b);
    }
  }

  /** How a question about the known currencies `a` and `b` must be answered, over any stored rates:
      with numbers exactly when stored rates connect them, the amount is a number and no zero is
      divided by; the rate is then the one solution of its equation, and rate, amount and converted
      amount are each printed to within half a hundredth.  Otherwise the answer says what is missing,
      and a division by zero gives no finite number. */
  ghost predicate AnswerFits(
    caches: Caches, parse: string -> Option<real>, q: Query, a: Id, b: Id, usd: Option<Id>)
    requires AsksAbout(caches, q, a, b)
  {
    var r := HandleRequest(caches, parse, q);
    var amount, connected := parse(q.amount.value), Connected(caches.rates, usd, a, b);
    var byZero := Resolve(caches.rates, usd, a, b).DividesByZero?;
    && (r.RateNotFound? <==> !connected)
    && (r.InternalError? <==> connected && amount.None?)
    && (r.NotFinite? <==> amount.Some? && byZero)
    && (r.Converted? <==> connected && amount.Some? && !byZero)
    && (r.Converted? ==> exists x :: IsRate(caches.rates, usd, a, b, x))
    && (r.Converted? ==> forall x | IsRate(caches.rates, usd, a, b, x) ::
          && IsPrinted(r.rate, x) && IsPrinted(r.amount, amount.value)
          && IsPrintedProduct(r.converted, x, amount.value))
  }

  lemma AnswerAbout(caches: Caches, parse: string -> Option<real>, q: Query, a: Id, b: Id)
    requires AsksAbout(caches, q, a, b)
    ensures AnswerFits(caches, parse, q, a, b, IdOf(caches, "USD"))
  {
    hide Knows, IsRate, IsPrinted, IsPrintedProduct, HandleRequest, Resolve, IdOf, Connected, CalcConvAmount;
    var usd := IdOf(caches, "USD");
    Answers(caches, parse, q, a, b);
    ResolvesIff(caches.rates, usd, a, b);
    var resolved, amount := Resolve(caches.rates, usd, a, b), parse(q.amount.value);
    if resolved.Rate? && amount.Some? {
      assert IsRate(caches.rates, usd, a, b, resolved.rate);
      PrintedFits(resolved.rate, amount.value);
    }
  }

  /** The answer in terms of the rate found. */
  lemma Answers(caches: Caches, parse: string -> Option<real>, q: Query, a: Id, b: Id)
    requires AsksAbout(caches, q, a, b)
    ensures var resolved, amount := Resolve(caches.rates, IdOf(caches, "USD"), a, b), parse(q.amount.value);
      HandleRequest(caches, parse, q) ==
        if resolved.NotFound? then RateNotFound
        else if amount.None? then InternalError
        else if resolved.DividesByZero? then NotFinite
        else Converted(Printed(resolved.rate), Printed(amount.value),
                       Printed(CalcConvAmount(resolved.rate, amount.value)))
  {
    hide Knows, Resolve, Printed, CalcConvAmount;
    AsksIff(caches, q, a, b);
  }

  lemma PrintedFits(rate: real, amount: real)
    ensures IsPrinted(Printed(rate), rate) && IsPrinted(Printed(amount), amount)
    ensures IsPrintedProduct(Printed(CalcConvAmount(rate, amount)), rate, amount)
  {
    PrintedIsClose(rate);
    PrintedIsClose(amount);
    PrintedIsClose(CalcConvAmount(rate, amount));
    Product(rate, amount);
  }

  lemma Product(rate: real, amount: real)
    ensures CalcConvAmount(rate, amount) == rate * amount
  {
  }

  /** The whole handler, over any query and any stored rates, zero rates included: which queries are
      refused and why, and how every other is answered. */
  lemma AnswersTheQuestion(caches: Caches, parse: string -> Option<real>, q: Query)
    ensures var r := HandleRequest(caches, parse, q);
      && (r.BadRequest? <==> !WellFormed(q))
      && (r == CurrencyNotFound(true) <==> WellFormed(q) && Unknown(caches, q.from.value))
      && (r == CurrencyNotFound(false) <==>
            WellFormed(q) && !Unknown(caches, q.from.value) && Unknown(caches, q.to.value))
    ensures forall a, b, usd | AsksAbout(caches, q, a, b) && IsUsd(caches, usd) ::
      AnswerFits(caches, parse, q, a, b, usd)
  {
    if WellFormed(q) {
      UnknownIff(caches, q.from.value);
      UnknownIff(caches, q.to.value);
    }
    forall a, b, usd | AsksAbout(caches, q, a, b) && IsUsd(caches, usd)
      ensures AnswerFits(caches, parse, q, a, b, usd)
    {
      UsdIs(caches, usd);
      AnswerAbout(caches, parse, q, a, b);
    }
  }

  ghost predicate Unknown(caches: Caches, code: string) {
    forall id :: !Knows(caches, code, id)
  }

  lemma UnknownIff(caches: Caches, code: string)
    ensures Unknown(caches, code) <==> IdOf(caches, code).None?
  {
    forall id ensures Knows(caches, code, id) <==> IdOf(caches, code) == Some(id) {
      KnowsIff(caches, code, id);
    }
    assert IdOf(caches, code).Some? ==> Knows(caches, code, IdOf(caches, code).value);
  }

  /** Over rates that are ratios of prices the answer is that ratio, and always finite. */
  lemma AnswersThePriceRatio(caches: Caches, parse: string -> Option<real>, q: Query, a: Id, b: Id, price: Id -> Price)
    requires AsksAbout(caches, q, a, b) && Priced(caches.rates, price)
    ensures var r, ratio := HandleRequest(caches, parse, q), Ratio(price(a), price(b));
      && !r.NotFinite?
      && (r.Converted? ==>
            && parse(q.amount.value).Some?
            && IsPrinted(r.rate, ratio) && IsPrintedProduct(r.converted, ratio, parse(q.amount.value).value))
  {
    hide HandleRequest, Resolve, IdOf, Printed, CalcConvAmount, Knows, IsPrinted, IsPrintedProduct;
    Answers(caches, parse, q, a, b);
    var amount, usd := parse(q.amount.value), IdOf(caches, "USD");
    if !Resolve(caches.rates, usd, a, b).NotFound? {
      EveryBranchGivesTheRatio(caches.rates, usd, a, b, price);
      if amount.Some? {
        PrintedFits(Ratio(price(a), price(b)), amount.value);
      }
    }
  }

  // ---------------------------------------------------------------- zero rates

  /** One stored zero rate is enough: with USD and EUR known and only the rate from EUR to USD stored,
      as zero, asking what any amount of USD is in EUR gives no finite number. */
  lemma ZeroRateIsNotFinite(parse: string -> Option<real>, amount: string)
    requires parse(amount).Some?
    ensures var caches := Caches(map["USD" := 1, "EUR" := 2], map[(2, 1) := 0.0]);
      HandleRequest(caches, parse, Query(Some("USD"), Some("EUR"), Some(amount))).NotFinite?
  {
    assert CodeIndex.Upper("USD") == "USD" && CodeIndex.Upper("EUR") == "EUR";
  }

  /** The currencies that a query can name: those with a three-letter code. */
  ghost function Nameable(caches: Caches): iset<Id> {
    iset id: Id | HasName(caches, id)
  }

  ghost predicate HasName(caches: Caches, id: Id) {
    exists code: string :: Knows(caches, code, id) && |code| == 3
  }

  /** Exactly which tables let some question be answered without a finite number, whatever the codes of
      their currencies: some text is a number, and a zero rate is not shadowed among the currencies
      that a query can name. */
  lemma NotFiniteIff(caches: Caches, parse: string -> Option<real>, usd: Option<Id>)
    requires IsUsd(caches, usd)
    ensures (exists q :: HandleRequest(caches, parse, q).NotFinite?)
      <==>
      && (exists text :: parse(text).Some?)
      && !ZeroRatesAreShadowed(caches.rates, usd, Nameable(caches))
  {
    UsdIs(caches, usd);
    NeverDividesByZeroIff(caches.rates, usd, Nameable(caches));
    hide HandleRequest, Resolve, IdOf, ZeroRatesAreShadowed, Knows, HasName;
    if q :| HandleRequest(caches, parse, q).NotFinite? {
      var a, b, text := NotFiniteDivides(caches, parse, q);
      assert parse(text).Some?;
      assert a in Nameable(caches) && b in Nameable(caches) && Resolve(caches.rates, usd, a, b).DividesByZero?;
    }
    if (exists text :: parse(text).Some?) && !ZeroRatesAreShadowed(caches.rates, usd, Nameable(caches)) {
      var text :| parse(text).Some?;
      var a, b :| a in Nameable(caches) && b in Nameable(caches) && Resolve(caches.rates, usd, a, b).DividesByZero?;
      var q := DividesNotFinite(caches, parse, text, a, b);
      assert HandleRequest(caches, parse, q).NotFinite?;
    }
  }

  lemma NotFiniteDivides(caches: Caches, parse: string -> Option<real>, q: Query)
    returns (a: Id, b: Id, text: string)
    requires HandleRequest(caches, parse, q).NotFinite?
    ensures HasName(caches, a) && HasName(caches, b)
    ensures Resolve(caches.rates, IdOf(caches, "USD"), a, b).DividesByZero?
    ensures parse(text).Some?
  {
    text := q.amount.value;
    a, b := IdOf(caches, q.from.value).value, IdOf(caches, q.to.value).value;
    KnowsIff(caches, q.from.value, a);
    KnowsIff(caches, q.to.value, b);
  }

  lemma DividesNotFinite(
    caches: Caches, parse: string -> Option<real>, text: string, a: Id, b: Id) returns (q: Query)
    requires HasName(caches, a) && HasName(caches, b) && parse(text).Some?
    requires Resolve(caches.rates, IdOf(caches, "USD"), a, b).DividesByZero?
    ensures HandleRequest(caches, parse, q).NotFinite?
  {
    hide Resolve, Knows;
    var from: string :| Knows(caches, from, a) && |from| == 3;
    var to: string :| Knows(caches, to, b) && |to| == 3;
    KnowsIff(caches, from, a);
    KnowsIff(caches, to, b);
    q := Query(Some(from), Some(to), Some(text));
  }

  // ---------------------------------------------------------------- there and back

  function Swapped(q: Query, amount: string): Query {
    Query(q.to, q.from, Some(amount))
  }

  /** Asking the opposite question never changes whether the currencies and a rate are found. */
  lemma OppositeQuestion(caches: Caches, parse: string -> Option<real>, q: Query)
    requires q.amount.Some?
    ensures var a, b := HandleRequest(caches, parse, q), HandleRequest(caches, parse, Swapped(q, q.amount.value));
      && (a.BadRequest? <==> b.BadRequest?) && (a.CurrencyNotFound? <==> b.CurrencyNotFound?)
      && (a.RateNotFound? <==> b.RateNotFound?) && (a.InternalError? <==> b.InternalError?)
      && (NonZero(caches.rates) ==> (a.Converted? <==> b.Converted?))
  {
    if q.from.Some? && q.to.Some? {
      var base, target := IdOf(caches, q.from.value), IdOf(caches, q.to.value);
      if base.Some? && target.Some? {
        FoundBothWays(caches.rates, IdOf(caches, "USD"), base.value, target.value);
      }
    }
  }

  /** Asking there and then back with the printed amount, whichever branch answers.  At a positive
      rate, unless both directions are stored with a product other than one, the second answer is
      within half a hundredth plus half a hundredth over the rate of the first amount; and a whole
      number of hundredths comes back exactly when the rate is at least one. */
  lemma ThereAndBackByRequest(
    caches: Caches, parse: string -> Option<real>, q: Query, printed: string, a: Id, b: Id, rate: real, amount: real)
    requires AsksAbout(caches, q, a, b) && HandleRequest(caches, parse, q).Converted?
    requires Resolve(caches.rates, IdOf(caches, "USD"), a, b) == Rate(rate) && rate > 0.0
    requires parse(q.amount.value) == Some(amount)
    requires (a, b) in caches.rates && (b, a) in caches.rates ==> caches.rates[(a, b)] * caches.rates[(b, a)] == 1.0
    requires parse(printed) == Some(HandleRequest(caches, parse, q).converted as real / 100.0)
    ensures HandleRequest(caches, parse, Swapped(q, printed)).Converted?
    ensures var back := HandleRequest(caches, parse, Swapped(q, printed)).converted;
      && Abs(back as real / 100.0 - amount) <= 1.0 / 200.0 + (1.0 / rate) / 200.0
      && (amount == Printed(amount) as real / 100.0 && rate >= 1.0 ==> back as real / 100.0 == amount)
  {
    hide HandleRequest, Resolve, IdOf, Printed, CalcConvAmount, Knows, Abs;
    Answers(caches, parse, q, a, b);
    OppositeRate(caches.rates, IdOf(caches, "USD"), a, b);
    Answers(caches, parse, Swapped(q, printed), b, a);
    ExactRoundTrip(rate, amount);
  }

  lemma ExactRoundTrip(rate: real, amount: real)
    requires rate > 0.0
    ensures var there := Printed(CalcConvAmount(rate, amount)) as real / 100.0;
      var back := Printed(CalcConvAmount(1.0 / rate, there)) as real / 100.0;
      && Abs(back - amount) <= 1.0 / 200.0 + (1.0 / rate) / 200.0
      && (amount == Printed(amount) as real / 100.0 && rate >= 1.0 ==> back == amount)
  {
    var there := Printed(CalcConvAmount(rate, amount)) as real / 100.0;
    RoundTripBound(rate, 1.0 / rate, 0.0, amount, CalcConvAmount(rate, amount), CalcConvAmount(1.0 / rate, there));
    var n := Printed(amount);
    if amount == n as real / 100.0 && rate >= 1.0 {
      ExactBackWhenRateIsLarge(rate, n);
      HundredthsScale(rate, n as real);
      HundredthsScale(1.0 / rate, There(rate, n) as real);
    }
  }

  /** In particular over any rates that are ratios of prices. */
  lemma ThereAndBackAtThePriceRatio(
    caches: Caches, parse: string -> Option<real>, q: Query, printed: string,
    a: Id, b: Id, amount: real, price: Id -> Price)
    requires AsksAbout(caches, q, a, b) && HandleRequest(caches, parse, q).Converted?
    requires Priced(caches.rates, price) && parse(q.amount.value) == Some(amount)
    requires parse(printed) == Some(HandleRequest(caches, parse, q).converted as real / 100.0)
    ensures HandleRequest(caches, parse, Swapped(q, printed)).Converted?
    ensures var rate, back := Ratio(price(a), price(b)), HandleRequest(caches, parse, Swapped(q, printed)).converted;
      && rate > 0.0 && Abs(back as real / 100.0 - amount) <= 1.0 / 200.0 + (1.0 / rate) / 200.0
      && (amount == Printed(amount) as real / 100.0 && rate >= 1.0 ==> back as real / 100.0 == amount)
  {
    hide HandleRequest, Resolve, IdOf, Printed, CalcConvAmount, Knows, Abs;
    Answers(caches, parse, q, a, b);
    EveryBranchGivesTheRatio(caches.rates, IdOf(caches, "USD"), a, b, price);
    RatioReverses(price(a), price(b));
    BothWays(price(a), price(b));
    ThereAndBackByRequest(caches, parse, q, printed, a, b, Ratio(price(a), price(b)), amount);
  }

  lemma BothWays(x: Price, y: Price)
    ensures Ratio(x, y) * Ratio(y, x) == 1.0
  {
    RatiosChain(x, y, x);
    RatioToItself(x);
  }

  lemma HundredthsScale(rate: real, x: real)
    ensures Printed(CalcConvAmount(rate, x / 100.0)) == Nearest(CalcConvAmount(rate, x))
  {
    assert 100.0 * ((x / 100.0) * rate) == x * rate;
  }
}
