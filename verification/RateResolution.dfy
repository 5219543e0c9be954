/** How GET /exchange finds a rate (stored, reversed, or through USD) and what it prints, in exact
    arithmetic with rounding only where the code prints two decimals. */
module RateResolution {
  import opened Options

  type Id = int

  /** Stored rates by (base, target). */
  type RateTable = map<(Id, Id), real>

  datatype Resolved = Rate(rate: real) | DividesByZero | NotFound

  function CalcConvAmount(rate: real, amount: real): real {
    amount * rate
  }

  type Price = p: real | p > 0.0 witness 1.0

  /** The quotient of two prices. */
  function Ratio(x: Price, y: Price): real {
    x / y
  }

  function CalcReverseRate(rate: real): Resolved {
    if rate == 0.0 then DividesByZero else Rate(1.0 / rate)
  }

  function CalcRateByUsdExchRates(usdBase: real, usdTarget: real): Resolved {
    if usdBase == 0.0 then DividesByZero else Rate(usdTarget / usdBase)
  }

  /** The three branches of the handler, in its order. */
  function Resolve(rates: RateTable, usd: Option<Id>, base: Id, target: Id): Resolved {
    if (base, target) in rates then Rate(rates[(base, target)])
    else if (target, base) in rates then CalcReverseRate(rates[(target, base)])
    else if usd.None? then NotFound
    else if (usd.value, base) !in rates then NotFound
    else if (usd.value, target) !in rates then NotFound
    else CalcRateByUsdExchRates(rates[(usd.value, base)], rates[(usd.value, target)])
  }

  // ---------------------------------------------------------------- coherence

  ghost predicate NonZero(rates: RateTable) {
    forall p <- rates :: rates[p] != 0.0
  }

  /** A rate is found one way exactly when it is found the other way, whatever is stored. */
  lemma FoundBothWays(rates: RateTable, usd: Option<Id>, a: Id, b: Id)
    ensures Resolve(rates, usd, a, b).NotFound? <==> Resolve(rates, usd, b, a).NotFound?
    ensures NonZero(rates) ==> (Resolve(rates, usd, a, b).Rate? <==> Resolve(rates, usd, b, a).Rate?)
  {
  }

  /** A quotient is the only number whose product with the divisor is the dividend. */
  lemma QuotientIs(q: real, x: real, y: real)
    requires y != 0.0 && q * y == x
    ensures q == x / y
  {
    assert (q - x / y) * y == q * y - (x / y) * y == 0.0;
  }

  lemma QuotientsInvert(x: real, y: real)
    requires x != 0.0 && y != 0.0
    ensures (x / y) * (y / x) == 1.0 && x * (1.0 / x) == 1.0 && x / y != 0.0
  {
    assert (x / y) * y == x && (y / x) * x == y;
    assert (x / y) * (y / x) * x == (x / y) * y;
  }

  /** The two directions multiply to one exactly unless both are stored with another product. */
  lemma DirectionsInvertIff(rates: RateTable, usd: Option<Id>, a: Id, b: Id)
    requires NonZero(rates) && Resolve(rates, usd, a, b).Rate?
    ensures Resolve(rates, usd, b, a).Rate?
    ensures Resolve(rates, usd, a, b).rate * Resolve(rates, usd, b, a).rate == 1.0 <==>
      ((a, b) in rates && (b, a) in rates ==> rates[(a, b)] * rates[(b, a)] == 1.0)
  {
    FoundBothWays(rates, usd, a, b);
    if (a, b) in rates {
      QuotientsInvert(rates[(a, b)], rates[(a, b)]);
    } else if (b, a) in rates {
      QuotientsInvert(rates[(b, a)], rates[(b, a)]);
    } else {
      QuotientsInvert(rates[(usd.value, a)], rates[(usd.value, b)]);
    }
  }

  lemma TimesZero(x: real, zero: real)
    requires zero == 0.0
    ensures x * zero == 0.0 && zero * x == 0.0
  {
  }

  /** The equation that the answered rate solves, without a division: the stored rate itself, or a
      rate whose product with the reverse rate is one, or one that takes USD to `b` by way of `a`. */
  ghost predicate IsRate(rates: RateTable, usd: Option<Id>, a: Id, b: Id, rate: real) {
    if (a, b) in rates then rate == rates[(a, b)]
    else if (b, a) in rates then rate * rates[(b, a)] == 1.0
    else
      && usd.Some? && (usd.value, a) in rates && (usd.value, b) in rates
      && rates[(usd.value, a)] * rate == rates[(usd.value, b)]
  }

  /** Some stored rate or pair of USD rates connects the two currencies. */
  predicate Connected(rates: RateTable, usd: Option<Id>, a: Id, b: Id) {
    (a, b) in rates || (b, a) in rates || (usd.Some? && (usd.value, a) in rates && (usd.value, b) in rates)
  }

  /** Over any stored rates: a rate is answered exactly when its equation has just that solution,
      none is found exactly when nothing connects the currencies, and the division by zero answers
      an equation with no solution or with every number as one. */
  lemma ResolvesIff(rates: RateTable, usd: Option<Id>, a: Id, b: Id)
    ensures var r := Resolve(rates, usd, a, b);
      && (r.NotFound? <==> !Connected(rates, usd, a, b))
      && (forall x :: r == Rate(x) <==> IsRate(rates, usd, a, b, x) && !r.DividesByZero?)
      && (r.DividesByZero? ==> forall x, y | IsRate(rates, usd, a, b, x) :: IsRate(rates, usd, a, b, y))
  {
    var r := Resolve(rates, usd, a, b);
    forall x | IsRate(rates, usd, a, b, x) && r.Rate? ensures x == r.rate {
      if (a, b) in rates {
      } else if (b, a) in rates {
        QuotientIs(x, 1.0, rates[(b, a)]);
      } else {
        QuotientIs(x, rates[(usd.value, b)], rates[(usd.value, a)]);
      }
    }
    if r.DividesByZero? {
      var divisor := if (b, a) in rates then rates[(b, a)] else rates[(usd.value, a)];
      forall x, y ensures IsRate(rates, usd, a, b, x) ==> IsRate(rates, usd, a, b, y) {
        TimesZero(x, divisor);
        TimesZero(y, divisor);
      }
    }
  }

  /** No stored zero is divided by when the currencies in `asked` are asked about: between two of them
      the reverse of each zero rate is stored, and wherever a zero rate leads from USD to one of them,
      each of them that USD leads to, itself included, has a stored rate to or from it. */
  ghost predicate ZeroRatesAreShadowed(rates: RateTable, usd: Option<Id>, asked: iset<Id>) {
    forall x, y | (x, y) in rates && rates[(x, y)] == 0.0 :: Shadowed(rates, usd, asked, x, y)
  }

  ghost predicate Shadowed(rates: RateTable, usd: Option<Id>, asked: iset<Id>, x: Id, y: Id) {
    && (x in asked && y in asked ==> (y, x) in rates)
    && (usd == Some(x) && y in asked ==>
          forall t | t in asked && (x, t) in rates :: (y, t) in rates || (t, y) in rates)
  }

  /** Exactly which tables can make a question about some of the currencies divide by zero. */
  lemma NeverDividesByZeroIff(rates: RateTable, usd: Option<Id>, asked: iset<Id>)
    ensures (forall a, b | a in asked && b in asked :: !Resolve(rates, usd, a, b).DividesByZero?)
      <==> ZeroRatesAreShadowed(rates, usd, asked)
  {
    if forall a, b | a in asked && b in asked :: !Resolve(rates, usd, a, b).DividesByZero? {
      forall x, y | (x, y) in rates && rates[(x, y)] == 0.0
        ensures Shadowed(rates, usd, asked, x, y)
      {
        assert x in asked && y in asked ==> !Resolve(rates, usd, y, x).DividesByZero?;
        forall t | usd == Some(x) && y in asked && t in asked && (x, t) in rates
          ensures (y, t) in rates || (t, y) in rates
        {
          assert !Resolve(rates, usd, y, t).DividesByZero?;
        }
      }
    }
    if ZeroRatesAreShadowed(rates, usd, asked) {
      forall a, b | a in asked && b in asked ensures !Resolve(rates, usd, a, b).DividesByZero? {
        if (b, a) in rates && rates[(b, a)] == 0.0 {
          assert Shadowed(rates, usd, asked, b, a);
        } else if usd.Some? && (usd.value, a) in rates && rates[(usd.value, a)] == 0.0 {
          assert Shadowed(rates, usd, asked, usd.value, a);
        }
      }
    }
  }

  /** The other direction is answered with the reverse of the rate, unless both directions are
      stored with another product. */
  lemma OppositeRate(rates: RateTable, usd: Option<Id>, a: Id, b: Id)
    requires Resolve(rates, usd, a, b).Rate? && Resolve(rates, usd, a, b).rate != 0.0
    requires (a, b) in rates && (b, a) in rates ==> rates[(a, b)] * rates[(b, a)] == 1.0
    ensures Resolve(rates, usd, b, a) == Rate(1.0 / Resolve(rates, usd, a, b).rate)
  {
    if (a, b) in rates {
      if (b, a) in rates {
        QuotientIs(rates[(b, a)], 1.0, rates[(a, b)]);
      }
    } else if (b, a) in rates {
      ReverseOfQuotient(1.0, rates[(b, a)]);
    } else {
      QuotientNonZero(rates[(usd.value, b)], rates[(usd.value, a)]);
      ReverseOfQuotient(rates[(usd.value, b)], rates[(usd.value, a)]);
    }
  }

  lemma QuotientNonZero(x: real, y: real)
    requires y != 0.0 && x / y != 0.0
    ensures x != 0.0
  {
  }

  lemma ReverseOfQuotient(x: real, y: real)
    requires x != 0.0 && y != 0.0
    ensures x / y != 0.0 && 1.0 / (x / y) == y / x && (x == 1.0 ==> y / x == y)
  {
    QuotientsInvert(y, x);
    QuotientIs(y / x, 1.0, x / y);
  }

  /** What storing or changing one rate does: its pair is answered with it, the reverse pair with its
      reverse unless stored itself, and no other answer changes but those that go through USD by
      this very rate. */
  lemma StoringARate(rates: RateTable, usd: Option<Id>, a: Id, b: Id, rate: real, x: Id, y: Id)
    ensures var after := rates[(a, b) := rate];
      && Resolve(after, usd, a, b) == Rate(rate)
      && (a != b && (b, a) !in rates ==> Resolve(after, usd, b, a) == CalcReverseRate(rate))
      && (Resolve(after, usd, x, y) != Resolve(rates, usd, x, y) ==>
            || (x, y) == (a, b)
            || ((x, y) == (b, a) && (b, a) !in rates)
            || (usd == Some(a) && (x == b || y == b) && (x, y) !in rates && (y, x) !in rates))
  {
  }

  /** Every stored rate is the ratio of the two currencies' prices. */
  ghost predicate Priced(rates: RateTable, price: Id -> Price) {
    forall p <- rates :: rates[p] == Ratio(price(p.0), price(p.1))
  }

  lemma RatioToItself(a: Price)
    ensures Ratio(a, a) == 1.0
  {
  }

  lemma RatioReverses(a: Price, b: Price)
    ensures a / b > 0.0 && 1.0 / (a / b) == b / a
  {
    QuotientsInvert(b, a);
    QuotientIs(b / a, 1.0, a / b);
  }

  lemma RatiosChain(x: Price, y: Price, z: Price)
    ensures CalcConvAmount(Ratio(x, y), Ratio(y, z)) == Ratio(x, z) && (x / y) * (y / z) == x / z
  {
    var q, r := x / y, y / z;
    assert q * y == x && r * z == y;
    assert (q * r) * z == q * (r * z);
    QuotientIs(q * r, x, z);
  }

  lemma RatioOfRatios(u: Price, a: Price, b: Price)
    ensures u / a > 0.0 && (u / b) / (u / a) == a / b
  {
    RatiosChain(a, u, b);
    RatioReverses(u, a);
    QuotientsInvert(a, u);
    var q := a / b;
    assert q == (a / u) * (u / b);
    RatiosChain(u, a, b);
    assert q * (u / a) == u / b;
    QuotientIs(q, u / b, u / a);
  }

  /** Whichever branch answers, it answers with the price ratio. */
  lemma EveryBranchGivesTheRatio(rates: RateTable, usd: Option<Id>, a: Id, b: Id, price: Id -> Price)
    requires Priced(rates, price) && !Resolve(rates, usd, a, b).NotFound?
    ensures Resolve(rates, usd, a, b) == Rate(Ratio(price(a), price(b)))
  {
    if (a, b) in rates {
    } else if (b, a) in rates {
      RatioReverses(price(b), price(a));
    } else {
      RatioOfRatios(price(usd.value), price(a), price(b));
    }
  }

  /** The rates met along a path of currencies, multiplied; all of them must be found. */
  function PathRate(rates: RateTable, usd: Option<Id>, path: seq<Id>): Option<real>
    requires path != []
  {
    if |path| == 1 then Some(1.0)
    else
      var first := Resolve(rates, usd, path[0], path[1]);
      var rest := PathRate(rates, usd, path[1..]);
      if first.Rate? && rest.Some? then Some(CalcConvAmount(first.rate, rest.value)) else None
  }

  /** A path can be converted exactly when each of its steps can, and then at the product of the rates. */
  lemma {:induction false} PathRateIs(rates: RateTable, usd: Option<Id>, path: seq<Id>)
    requires path != []
    ensures PathRate(rates, usd, path).Some? <==>
      forall i | 0 <= i < |path| - 1 :: Resolve(rates, usd, path[i], path[i + 1]).Rate?
    ensures |path| == 1 ==> PathRate(rates, usd, path) == Some(1.0)
    ensures |path| > 1 && PathRate(rates, usd, path).Some? ==>
      && PathRate(rates, usd, path[1..]).Some?
      && PathRate(rates, usd, path).value
           == PathRate(rates, usd, path[1..]).value * Resolve(rates, usd, path[0], path[1]).rate
  {
    if |path| > 1 {
      PathRateIs(rates, usd, path[1..]);
      hide Resolve;
      if PathRate(rates, usd, path[1..]).Some? && Resolve(rates, usd, path[0], path[1]).Rate? {
        forall i | 0 <= i < |path| - 1 ensures Resolve(rates, usd, path[i], path[i + 1]).Rate? {
          if i > 0 {
            assert Resolve(rates, usd, path[1..][i - 1], path[1..][i]).Rate?;
          }
        }
      }
      if forall i | 0 <= i < |path| - 1 :: Resolve(rates, usd, path[i], path[i + 1]).Rate? {
        forall i | 0 <= i < |path[1..]| - 1 ensures Resolve(rates, usd, path[1..][i], path[1..][i + 1]).Rate? {
          assert Resolve(rates, usd, path[i + 1], path[i + 2]).Rate?;
        }
      }
    }
  }

  /** No arbitrage: along any path that can be converted at all, whatever mix of branches answers,
      the rates multiply to the ratio of the end prices; round a cycle they multiply to one. */
  lemma {:induction false} PathsCompose(rates: RateTable, usd: Option<Id>, path: seq<Id>, price: Id -> Price)
    requires Priced(rates, price) && path != [] && PathRate(rates, usd, path).Some?
    ensures PathRate(rates, usd, path).value == Ratio(price(path[0]), price(path[|path| - 1]))
    ensures path[0] == path[|path| - 1] ==> PathRate(rates, usd, path).value == 1.0
  {
    RatioToItself(price(path[0]));
    hide Ratio, CalcConvAmount;
    if |path| > 1 {
      PathsCompose(rates, usd, path[1..], price);
      EveryBranchGivesTheRatio(rates, usd, path[0], path[1], price);
      hide Resolve, Priced;
      RatiosChain(price(path[0]), price(path[1]), price(path[|path| - 1]));
    }
  }

  // ---------------------------------------------------------------- rounding

  /** The nearest integer, halves to the even one. */
  function Nearest(x: real): int {
    var n := x.Floor;
    if x - n as real < 0.5 || (x - n as real == 0.5 && n % 2 == 0) then n else n + 1
  }

  /** Nothing but the nearest integer, or the even one of two equally near. */
  lemma NearestIff(x: real, n: int)
    ensures Nearest(x) == n <==> Abs(n as real - x) < 0.5 || (Abs(n as real - x) == 0.5 && n % 2 == 0)
  {
  }

  /** `str(2, std::ios::fixed)`, in hundredths. */
  function Printed(x: real): int {
    Nearest(100.0 * x)
  }

  function Abs(x: real): real {
    if x < 0.0 then -x else x
  }

  lemma NearestIsClose(x: real)
    ensures Abs(Nearest(x) as real - x) <= 0.5
  {
  }

  lemma NearestIs(x: real, n: int)
    requires Abs(n as real - x) < 0.5
    ensures Nearest(x) == n
  {
  }

  /** Printing keeps the order of amounts, and so of conversions at one positive rate. */
  lemma PrintedIsMonotone(rate: real, x: real, y: real)
    requires rate > 0.0 && x <= y
    ensures Printed(x) <= Printed(y) && Printed(CalcConvAmount(rate, x)) <= Printed(CalcConvAmount(rate, y))
  {
    ScaleLe(x, y, rate);
    NearestIsMonotone(100.0 * x, 100.0 * y);
    NearestIsMonotone(100.0 * CalcConvAmount(rate, x), 100.0 * CalcConvAmount(rate, y));
  }

  // Products are named by `CalcConvAmount`, `amount` first: `x` scaled by `k` is CalcConvAmount(k, x).

  lemma ScaleAbs(x: real, k: real)
    ensures Abs(CalcConvAmount(k, x)) == CalcConvAmount(Abs(k), Abs(x))
  {
  }

  lemma ScaleLe(x: real, y: real, k: real)
    requires x <= y && k >= 0.0
    ensures CalcConvAmount(k, x) <= CalcConvAmount(k, y)
  {
  }

  lemma ScaleSum(x: real, y: real, k: real)
    ensures CalcConvAmount(k, x) + CalcConvAmount(k, y) == CalcConvAmount(k, x + y)
    ensures CalcConvAmount(k, x) - CalcConvAmount(k, y) == CalcConvAmount(k, x - y)
  {
  }

  lemma SumScale(x: real, j: real, k: real)
    ensures CalcConvAmount(k, x) == CalcConvAmount(j, x) + CalcConvAmount(k - j, x)
  {
  }

  lemma ScaleCommutes(x: real, j: real, k: real)
    ensures CalcConvAmount(k, CalcConvAmount(j, x)) == CalcConvAmount(j, CalcConvAmount(k, x))
    ensures CalcConvAmount(CalcConvAmount(j, k), x) == CalcConvAmount(j, CalcConvAmount(k, x))
  {
  }

  lemma ScaleSmall(x: real, k: real)
    ensures x == 0.5 ==> CalcConvAmount(k, x) == k / 2.0
    ensures x == 1.0 / 200.0 ==> CalcConvAmount(k, x) == k / 200.0
    ensures k == 1.0 ==> CalcConvAmount(k, x) == x
  {
  }

  /** Scaling by a rate and by its reverse. */
  lemma ThereThenBack(rate: real, x: real)
    requires rate > 0.0
    ensures 1.0 / rate > 0.0 && CalcConvAmount(1.0 / rate, CalcConvAmount(rate, x)) == x
    ensures rate > 1.0 ==> 1.0 / rate < 1.0
  {
    var inverse := 1.0 / rate;
    assert rate * inverse == 1.0;
    assert (x * rate) * inverse == x * (rate * inverse);
  }

  lemma PrintedIsClose(x: real)
    ensures Abs(Printed(x) as real / 100.0 - x) <= 1.0 / 200.0
  {
    NearestIsClose(100.0 * x);
  }

  /** `computed` is `exact` up to the relative error. */
  ghost predicate Within(eps: real, computed: real, exact: real) {
    Abs(computed - exact) <= CalcConvAmount(eps, Abs(exact))
  }

  /** The first half of a round trip, seen from the end: what is printed, scaled back exactly. */
  lemma ThereIsNear(rate: real, inverse: real, eps: real, amount: real, product: real, there: real)
    requires rate > 0.0 && inverse == 1.0 / rate && eps >= 0.0
    requires Within(eps, product, CalcConvAmount(rate, amount))
    requires Abs(there - product) <= 1.0 / 200.0
    ensures Abs(CalcConvAmount(inverse, there) - amount) <= inverse / 200.0 + CalcConvAmount(eps, Abs(amount))
  {
    ThereThenBack(rate, amount);
    ThereThenBack(rate, Abs(amount));
    ScaleAbs(amount, rate);
    var exact := CalcConvAmount(rate, amount);
    var off := CalcConvAmount(eps, CalcConvAmount(rate, Abs(amount)));
    assert Abs(rate) == rate && Abs(inverse) == inverse;
    assert Abs(there - exact) <= 1.0 / 200.0 + off;
    hide CalcConvAmount;
    ScaleSum(there, exact, inverse);
    ScaleAbs(there - exact, inverse);
    ScaleLe(Abs(there - exact), 1.0 / 200.0 + off, inverse);
    ScaleSum(1.0 / 200.0, off, inverse);
    ScaleSmall(1.0 / 200.0, inverse);
    ScaleCommutes(CalcConvAmount(rate, Abs(amount)), eps, inverse);
  }

  /** The second half: the computed reverse rate and the computed product add their own errors. */
  lemma BackIsNear(inverse: real, reverse: real, eps: real, bound: real, there: real, product: real)
    requires inverse > 0.0 && eps >= 0.0
    requires Abs(reverse - inverse) <= CalcConvAmount(eps, inverse)
    requires Abs(CalcConvAmount(inverse, there)) <= bound
    requires Within(eps, product, CalcConvAmount(reverse, there))
    ensures Abs(product - CalcConvAmount(inverse, there))
         <= CalcConvAmount(eps, bound) + CalcConvAmount(eps, bound + CalcConvAmount(eps, bound))
  {
    hide CalcConvAmount;
    SumScale(there, inverse, reverse);
    ScaleAbs(there, reverse - inverse);
    ScaleAbs(there, inverse);
    RelativeError(Abs(there), Abs(reverse - inverse), inverse, eps, bound);
    assert Abs(CalcConvAmount(reverse, there)) <= bound + CalcConvAmount(eps, bound);
    ScaleLe(Abs(CalcConvAmount(reverse, there)), bound + CalcConvAmount(eps, bound), eps);
  }

  lemma RelativeError(there: real, err: real, inverse: real, eps: real, bound: real)
    requires there >= 0.0 && eps >= 0.0 && err <= CalcConvAmount(eps, inverse)
    requires CalcConvAmount(inverse, there) <= bound
    ensures CalcConvAmount(err, there) <= CalcConvAmount(eps, bound)
  {
    hide CalcConvAmount;
    Symmetric(err, there);
    ScaleLe(err, CalcConvAmount(eps, inverse), there);
    Symmetric(CalcConvAmount(eps, inverse), there);
    ScaleCommutes(there, eps, inverse);
    ScaleLe(CalcConvAmount(inverse, there), bound, eps);
  }

  lemma Symmetric(x: real, y: real)
    ensures CalcConvAmount(x, y) == CalcConvAmount(y, x)
  {
  }

  /** How far a round trip may stray when every division and product has a relative error of at most
      `eps`; without such errors, half a hundredth and half a hundredth over the rate. */
  function RoundTripError(rate: real, eps: real, amount: real): (e: real)
    requires rate > 0.0
    ensures eps == 0.0 ==> e == 1.0 / 200.0 + (1.0 / rate) / 200.0
  {
    var half, slip := (1.0 / rate) / 200.0, CalcConvAmount(eps, Abs(amount));
    var bound := Abs(amount) + half + slip;
    1.0 / 200.0 + half + slip + CalcConvAmount(eps, bound) + CalcConvAmount(eps, bound + CalcConvAmount(eps, bound))
  }

  lemma RoundTripErrorIs(rate: real, eps: real, amount: real)
    requires rate > 0.0
    ensures var half := (1.0 / rate) / 200.0;
      var bound := (1.0 + eps) * Abs(amount) + half;
      RoundTripError(rate, eps, amount) == 1.0 / 200.0 + half + eps * Abs(amount) + eps * (2.0 + eps) * bound
  {
    var half, size := (1.0 / rate) / 200.0, Abs(amount);
    var bound := size + half + CalcConvAmount(eps, size);
    assert bound == (1.0 + eps) * size + half;
    Expand(eps, bound);
  }

  lemma Expand(eps: real, bound: real)
    ensures CalcConvAmount(eps, bound) + CalcConvAmount(eps, bound + CalcConvAmount(eps, bound))
         == eps * (2.0 + eps) * bound
  {
  }

  /** An amount converted at `rate`, printed, and the printed amount converted back at the computed
      reverse rate and printed, is off by no more than `RoundTripError`; `product` and `product'`
      are the two products as computed. */
  lemma RoundTripBound(rate: real, reverse: real, eps: real, amount: real, product: real, product': real)
    requires rate > 0.0 && eps >= 0.0
    requires Within(eps, product, CalcConvAmount(rate, amount)) && Within(eps, reverse, 1.0 / rate)
    requires Within(eps, product', CalcConvAmount(reverse, Printed(product) as real / 100.0))
    ensures Abs(Printed(product') as real / 100.0 - amount) <= RoundTripError(rate, eps, amount)
  {
    var inverse, there := 1.0 / rate, Printed(product) as real / 100.0;
    ThereThenBack(rate, amount);
    PrintedIsClose(product);
    PrintedIsClose(product');
    assert Abs(inverse) == inverse;
    hide Printed, CalcConvAmount;
    ThereIsNear(rate, inverse, eps, amount, product, there);
    var bound := Abs(amount) + inverse / 200.0 + CalcConvAmount(eps, Abs(amount));
    BackIsNear(inverse, reverse, eps, bound, there, product');
  }

  /** `n` whole hundredths converted and printed. */
  function There(rate: real, n: int): int {
    Nearest(CalcConvAmount(rate, n as real))
  }

  /** And what is printed converted back and printed again. */
  function ThereAndBack(rate: real, n: int): int
    requires rate > 0.0
  {
    Nearest(CalcConvAmount(1.0 / rate, There(rate, n) as real))
  }

  lemma ExactBackWhenRateIsLarge(rate: real, n: int)
    requires rate >= 1.0
    ensures ThereAndBack(rate, n) == n
  {
    hide CalcConvAmount;
    var inverse, exact, there := 1.0 / rate, CalcConvAmount(rate, n as real), There(rate, n) as real;
    ThereThenBack(rate, n as real);
    ScaleSmall(n as real, rate);
    ScaleSmall(n as real, inverse);
    if rate == 1.0 {
      NearestIs(exact, n);
      NearestIs(n as real, n);
    } else {
      NearestIsClose(exact);
      ScaleSum(there, exact, inverse);
      ScaleAbs(there - exact, inverse);
      ScaleLe(Abs(there - exact), 0.5, inverse);
      ScaleSmall(0.5, inverse);
      NearestIs(CalcConvAmount(inverse, there), n);
    }
  }

  lemma NearestIsMonotone(x: real, y: real)
    requires x <= y
    ensures Nearest(x) <= Nearest(y)
  {
  }

  /** Amounts that come back exactly were printed differently on the way. */
  lemma {:induction false} ThereIsAtLeast(rate: real, n: nat)
    requires rate > 0.0 && forall k: nat | k <= n :: ThereAndBack(rate, k) == k
    ensures There(rate, n) >= n
  {
    if n > 0 {
      ThereIsAtLeast(rate, n - 1);
      assert ThereAndBack(rate, n - 1) == n - 1 && ThereAndBack(rate, n) == n;
      assert There(rate, n - 1) != There(rate, n);
      hide ThereAndBack, Nearest, CalcConvAmount;
      ScaleLe((n - 1) as real, n as real, rate);
      NearestIsMonotone(CalcConvAmount(rate, (n - 1) as real), CalcConvAmount(rate, n as real));
    }
  }

  lemma WideGap(rate: real) returns (n: nat)
    requires 0.0 < rate < 1.0
    ensures CalcConvAmount(rate, n as real) < n as real - 1.0
  {
    hide CalcConvAmount;
    var gap := 1.0 - rate;
    n := (1.0 / gap).Floor + 1;
    Distribute(n as real, rate, gap);
    ExceedsInverse(n as real, gap);
  }

  lemma ExceedsInverse(x: real, gap: real)
    requires gap > 0.0 && x > 1.0 / gap
    ensures CalcConvAmount(gap, x) > 1.0
  {
    assert (x - 1.0 / gap) * gap > 0.0;
  }

  lemma Distribute(x: real, rate: real, gap: real)
    requires gap == 1.0 - rate
    ensures CalcConvAmount(gap, x) == x - CalcConvAmount(rate, x)
  {
  }

  lemma ThereIsBelow(rate: real) returns (n: nat)
    requires 0.0 < rate < 1.0
    ensures There(rate, n) < n
  {
    n := WideGap(rate);
    NearestIsClose(CalcConvAmount(rate, n as real));
  }

  /** Every whole number of hundredths survives conversion there and back if and only if the rate
      is at least one. */
  lemma ThereAndBackIsExactIff(rate: real)
    requires rate > 0.0
    ensures (forall n: nat :: ThereAndBack(rate, n) == n) <==> rate >= 1.0
  {
    if rate >= 1.0 {
      forall n: nat ensures ThereAndBack(rate, n) == n {
        ExactBackWhenRateIsLarge(rate, n);
      }
    } else {
      var n := ThereIsBelow(rate);
      if forall k: nat | k <= n :: ThereAndBack(rate, k) == k {
        ThereIsAtLeast(rate, n);
      }
    }
  }
}
