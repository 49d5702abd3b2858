/**
 * Currency conversion (mcp_server/exchange.py): a table of rates relative to
 * a base currency, and `convert`, which routes a conversion from the base,
 * to the base, or across through the base. Amounts are exact reals; the
 * floating-point rounding of the source is not modelled.
 */
module Exchange {
  import opened Wrappers
  import PyStr

  /** What `convert` raises: `ValueError("Unknown currency: …")`, or `ZeroDivisionError` on a zero rate. */
  datatype ConversionError = UnknownCurrency(code: string) | ZeroDivision

  /** The `ExchangeRates` dataclass: `rates[c]` units of `c` buy one unit of `base`. */
  datatype ExchangeRates = ExchangeRates(base: string, rates: map<string, real>)

  /**
   * `convert(amount, from_ccy, to_ccy)`: the codes are upper-cased, then
   * routed by `Route`.
   */
  function Convert(x: ExchangeRates, amount: real, fromCcy: string, toCcy: string): (r: Result<real, ConversionError>)
    ensures PyStr.Upper(fromCcy) == PyStr.Upper(toCcy) ==> r == Ok(amount)
    ensures r.Err? && r.error.UnknownCurrency? ==>
      r.error.code == PyStr.Upper(fromCcy) || r.error.code == PyStr.Upper(toCcy)
  {
    Route(x, amount, PyStr.Upper(fromCcy), PyStr.Upper(toCcy))
  }

  /**
   * The routing of `convert` between the upper-cased codes `f` and `t`.
   * Equal codes give the amount back without a look-up; otherwise the
   * amount is multiplied by the target's rate (from the base), divided by
   * the source's rate (to the base), or both (across). A code missing from
   * the table is reported, the source code first.
   */
  function Route(x: ExchangeRates, amount: real, f: string, t: string): (r: Result<real, ConversionError>)
    ensures f == t ==> r == Ok(amount)
    ensures r.Err? && r.error.UnknownCurrency? ==> r.error.code == f || r.error.code == t
  {
    if f == t then Ok(amount)
    else if f == x.base then
      if t !in x.rates then Err(UnknownCurrency(t))
      else Ok(amount * x.rates[t])
    else if t == x.base then
      if f !in x.rates then Err(UnknownCurrency(f))
      else if x.rates[f] == 0.0 then Err(ZeroDivision)
      else Ok(amount / x.rates[f])
    else if f !in x.rates || t !in x.rates then
      Err(UnknownCurrency(if f !in x.rates then f else t))
    else if x.rates[f] == 0.0 then Err(ZeroDivision)
    else Ok(amount / x.rates[f] * x.rates[t])
  }

  /** `default_rates()`: ten currencies against the US dollar. */
  function DefaultRates(): ExchangeRates {
    ExchangeRates("USD", map[
      "USD" := 1.0,
      "EUR" := 0.92,
      "GBP" := 0.79,
      "JPY" := 147.0,
      "CAD" := 1.35,
      "AUD" := 1.52,
      "CHF" := 0.86,
      "CNY" := 7.25,
      "INR" := 83.1,
      "BRL" := 5.2])
  }

  /** A table whose base is listed at rate 1 and whose rates are all positive. */
  predicate Consistent(x: ExchangeRates) {
    && x.base in x.rates
    && x.rates[x.base] == 1.0
    && forall c :: c in x.rates ==> x.rates[c] > 0.0
  }

  /** The default table is consistent. */
  lemma DefaultRatesConsistent()
    ensures Consistent(DefaultRates())
    ensures DefaultRates().rates["USD"] == 1.0
  {
  }

  /**
   * The reference rule for converting between two listed codes: divide by
   * the source's rate to reach the base, multiply by the target's rate.
   */
  function ViaBase(x: ExchangeRates, amount: real, f: string, t: string): real
    requires f in x.rates && t in x.rates && x.rates[f] != 0.0
  {
    amount / x.rates[f] * x.rates[t]
  }

  /** From the base, the reference rule is one multiplication. */
  lemma ViaBaseFromBase(x: ExchangeRates, amount: real, t: string)
    requires Consistent(x) && t in x.rates
    ensures ViaBase(x, amount, x.base, t) == amount * x.rates[t]
  {
    assert amount / x.rates[x.base] == amount;
  }

  /** To the base, the reference rule is one division. */
  lemma ViaBaseToBase(x: ExchangeRates, amount: real, f: string)
    requires Consistent(x) && f in x.rates
    ensures ViaBase(x, amount, f, x.base) == amount / x.rates[f]
  {
    var q := amount / x.rates[f];
    assert q * x.rates[x.base] == q;
  }

  /** From the base, the route is one multiplication. */
  lemma RouteFromBase(x: ExchangeRates, amount: real, t: string)
    requires t in x.rates && x.base != t
    ensures Route(x, amount, x.base, t) == Ok(amount * x.rates[t])
  {
    var r := Route(x, amount, x.base, t);
    var v := amount * x.rates[t];
    assert r.Ok? && r.value == v;
    assert r == Ok(v);
  }

  /** To the base, the route is one division. */
  lemma RouteToBase(x: ExchangeRates, amount: real, f: string)
    requires f in x.rates && x.rates[f] != 0.0 && f != x.base
    ensures Route(x, amount, f, x.base) == Ok(amount / x.rates[f])
  {
    var r := Route(x, amount, f, x.base);
    var v := amount / x.rates[f];
    assert r.Ok? && r.value == v;
    assert r == Ok(v);
  }

  /** Between listed codes on a consistent table, every route follows the reference rule. */
  lemma RouteByReference(x: ExchangeRates, amount: real, f: string, t: string)
    requires Consistent(x) && f in x.rates && t in x.rates
    ensures f != t ==> Route(x, amount, f, t) == Ok(ViaBase(x, amount, f, t))
  {
    if f != t && f == x.base {
      RouteFromBase(x, amount, t);
      ViaBaseFromBase(x, amount, t);
    } else if f != t && t == x.base {
      RouteToBase(x, amount, f);
      ViaBaseToBase(x, amount, f);
    }
  }

  /**
   * On a consistent table all three routes of `convert` agree with the
   * reference rule: between two different listed codes the result is `ViaBase`.
   */
  lemma ConvertByReference(x: ExchangeRates, amount: real, fromCcy: string, toCcy: string)
    requires Consistent(x)
    requires PyStr.Upper(fromCcy) in x.rates && PyStr.Upper(toCcy) in x.rates
    ensures Convert(x, amount, fromCcy, toCcy) ==
      if PyStr.Upper(fromCcy) == PyStr.Upper(toCcy) then Ok(amount)
      else Ok(ViaBase(x, amount, PyStr.Upper(fromCcy), PyStr.Upper(toCcy)))
  {
    if PyStr.Upper(fromCcy) != PyStr.Upper(toCcy) {
      RouteByReference(x, amount, PyStr.Upper(fromCcy), PyStr.Upper(toCcy));
    }
  }

  /**
   * On a consistent table a conversion fails exactly when the codes differ
   * and one of them is not listed; the source code is reported when it is
   * the missing one, and a zero rate never arises.
   */
  lemma {:induction false} ConvertFailsOnlyOnUnknown(x: ExchangeRates, amount: real, fromCcy: string, toCcy: string)
    requires Consistent(x)
    ensures
      var f := PyStr.Upper(fromCcy);
      var t := PyStr.Upper(toCcy);
      var r := Convert(x, amount, fromCcy, toCcy);
      && (r.Err? <==> f != t && (f !in x.rates || t !in x.rates))
      && (r.Err? ==> r.error == UnknownCurrency(if f !in x.rates then f else t))
  {
  }

  /** Converting there and back gives the amount again, on a consistent table between listed codes. */
  lemma {:induction false} ConvertRoundTrip(x: ExchangeRates, amount: real, fromCcy: string, toCcy: string)
    requires Consistent(x)
    requires PyStr.Upper(fromCcy) in x.rates && PyStr.Upper(toCcy) in x.rates
    ensures
      var there := Convert(x, amount, fromCcy, toCcy);
      there.Ok? && Convert(x, there.value, toCcy, fromCcy) == Ok(amount)
  {
    var f := PyStr.Upper(fromCcy);
    var t := PyStr.Upper(toCcy);
    ConvertByReference(x, amount, fromCcy, toCcy);
    if f != t {
      ConvertByReference(x, ViaBase(x, amount, f, t), toCcy, fromCcy);
      ViaBaseUndo(x, amount, f, t);
    }
  }

  /** Converting back by the reference rule undoes converting there. */
  lemma ViaBaseUndo(x: ExchangeRates, amount: real, f: string, t: string)
    requires Consistent(x) && f in x.rates && t in x.rates
    ensures ViaBase(x, ViaBase(x, amount, f, t), t, f) == amount
  {
    var b := amount / x.rates[f];
    assert b * x.rates[t] / x.rates[t] == b;
    assert b * x.rates[f] == amount;
  }

  /**
   * With positive rates a conversion that succeeds keeps the sign of the
   * amount: zero stays zero, negative stays negative, positive stays positive.
   */
  lemma {:induction false} ConvertKeepsSign(x: ExchangeRates, amount: real, fromCcy: string, toCcy: string)
    requires forall c :: c in x.rates ==> x.rates[c] > 0.0
    ensures
      var r := Convert(x, amount, fromCcy, toCcy);
      r.Ok? ==>
        && (amount == 0.0 ==> r.value == 0.0)
        && (amount < 0.0 ==> r.value < 0.0)
        && (amount > 0.0 ==> r.value > 0.0)
  {
    var f := PyStr.Upper(fromCcy);
    var t := PyStr.Upper(toCcy);
    if f != t && f != x.base && t != x.base && f in x.rates && t in x.rates {
      var q := amount / x.rates[f];
      assert amount < 0.0 ==> q < 0.0;
      assert amount > 0.0 ==> q > 0.0;
    }
  }

  /** Equal codes up to case give the amount back, even when the code is not in the table. */
  lemma SameCodeUnlisted(amount: real)
    ensures Convert(DefaultRates(), amount, "xyz", "XYZ") == Ok(amount)
  {
    assert PyStr.Upper("xyz") == "XYZ" by {
      assert PyStr.Upper("xyz")[0] == 'X';
      assert PyStr.Upper("xyz")[1] == 'Y';
      assert PyStr.Upper("xyz")[2] == 'Z';
    }
    assert PyStr.Upper("XYZ") == "XYZ" by {
      assert PyStr.Upper("XYZ")[0] == 'X';
      assert PyStr.Upper("XYZ")[1] == 'Y';
      assert PyStr.Upper("XYZ")[2] == 'Z';
    }
  }

  /** With the default table, 100 US dollars are 92 euros. */
  lemma HundredDollarsInEuros()
    ensures Convert(DefaultRates(), 100.0, "usd", "eur") == Ok(92.0)
  {
    assert PyStr.Upper("usd") == "USD" by {
      assert PyStr.Upper("usd")[0] == 'U';
      assert PyStr.Upper("usd")[1] == 'S';
      assert PyStr.Upper("usd")[2] == 'D';
    }
    assert PyStr.Upper("eur") == "EUR" by {
      assert PyStr.Upper("eur")[0] == 'E';
      assert PyStr.Upper("eur")[1] == 'U';
      assert PyStr.Upper("eur")[2] == 'R';
    }
  }
}
