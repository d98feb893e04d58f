/**
 * The currency service (src/currency/currency.service.ts): the constructor's
 * configuration checks and `convert`. The exchange-rate feed is not called: the
 * reply to the rate request is a parameter, and its numbers are exact reals.
 */
module Currency {
  import opened Wrappers
  import opened JsString

  const ApiKeySetting := "OPEN_EXCHANGE_RATES_API_KEY"
  const BaseSetting := "OPEN_EXCHANGE_RATES_BASE"
  const DefaultBase := "USD"
  const ApiUrl := "https://openexchangerates.org/api/latest.json"

  const MissingKeyMessage := "OPEN_EXCHANGE_RATES_API_KEY is not set"
  const AmountMessage := "Amount must be a positive number"
  const FetchFailureMessage := "Error while fetching exchange rates"
  const UnsupportedSource := "Unsupported source currency: "
  const UnsupportedTarget := "Unsupported target currency: "

  /** The read-only settings of a constructed service. */
  datatype CurrencyService = CurrencyService(apiKey: string, base: string)

  /** `configService.get(name) ?? fallback`: `??` replaces a missing setting only, never an empty one. */
  function SettingOr(config: map<string, string>, name: string, fallback: string): (r: string)
    ensures name in config ==> r == config[name]
    ensures name !in config ==> r == fallback
  {
    if name in config then config[name] else fallback
  }

  /**
   * The constructor: it fails exactly when the API key is missing or empty (`!apiKey`);
   * otherwise it keeps the key and the configured base currency, "USD" when the base
   * is not configured.
   */
  function NewCurrencyService(config: map<string, string>): (r: Result<CurrencyService, string>)
    ensures r.Err? <==> ApiKeySetting !in config || config[ApiKeySetting] == ""
    ensures r.Err? ==> r.error == MissingKeyMessage
    ensures r.Ok? ==> r.value.apiKey == config[ApiKeySetting] && r.value.apiKey != ""
    ensures r.Ok? && BaseSetting !in config ==> r.value.base == DefaultBase
    ensures r.Ok? && BaseSetting in config ==> r.value.base == config[BaseSetting]
  {
    var apiKey := SettingOr(config, ApiKeySetting, "");
    var base := SettingOr(config, BaseSetting, DefaultBase);
    if apiKey == "" then Err(MissingKeyMessage) else Ok(CurrencyService(apiKey, base))
  }

  /**
   * The outcome of the rate request: no usable reply (network error, non-2xx status),
   * or a reply whose payload has a `rates` table or lacks one.
   */
  datatype RateReply = Unreachable | Reply(rates: Option<map<string, real>>)

  /** What the `try` block can throw. */
  datatype Thrown =
    | BadRequestThrown(message: string)
    | RequestFailed   // axios rejects the request
    | NoRateTable     // reading `rates[code]` of a payload without `rates`

  /** The HTTP errors `convert` reports. */
  datatype HttpError = BadRequest(message: string) | InternalServerError(message: string)

  /** `!rates[code]` fails: the code has a rate and that rate is not 0. */
  predicate Supported(rates: map<string, real>, code: string) {
    code in rates && rates[code] != 0.0
  }

  /**
   * `x.toFixed(2)` as a whole number of hundredths, with exact arithmetic: the
   * nearest integer to `x * 100`, a tie going away from zero (`toFixed` rounds the
   * magnitude, picking the larger candidate).
   */
  function Cents(x: real): (n: int)
    ensures -0.5 <= n as real - x * 100.0 <= 0.5
    ensures x >= 0.0 ==> n >= 0
  {
    if x >= 0.0 then (x * 100.0 + 0.5).Floor else -((-x) * 100.0 + 0.5).Floor
  }

  /** `Number(x.toFixed(2))`: a whole number of hundredths within half a hundredth of `x`. */
  function Round2(x: real): (r: real)
    ensures -1.0 / 200.0 <= r - x <= 1.0 / 200.0
    ensures r * 100.0 == Cents(x) as real
  {
    Cents(x) as real / 100.0
  }

  /** Reading the rate table out of the reply: the request or the payload may fail. */
  function RateTable(reply: RateReply): (r: Result<map<string, real>, Thrown>)
    ensures r.Ok? <==> reply.Reply? && reply.rates.Some?
    ensures r.Ok? ==> r.value == reply.rates.value
    ensures r.Err? ==> !r.error.BadRequestThrown?
  {
    if reply.Unreachable? then Err(RequestFailed)
    else if reply.rates.None? then Err(NoRateTable)
    else Ok(reply.rates.value)
  }

  /** `amount / rates[fromCode] * rates[toCode]`, rounded to two decimals. */
  function Converted(amount: real, fromCode: string, toCode: string, rates: map<string, real>): real
    requires Supported(rates, fromCode) && Supported(rates, toCode)
  {
    Round2(amount / rates[fromCode] * rates[toCode])
  }

  /** The rest of the `try` block: both codes need a rate, the source checked first. */
  function Rate(amount: real, fromCode: string, toCode: string, rates: map<string, real>): (r: Result<real, Thrown>)
    ensures r.Ok? <==> Supported(rates, fromCode) && Supported(rates, toCode)
    ensures r.Ok? ==> r.value == Converted(amount, fromCode, toCode, rates)
    ensures r.Err? ==> r.error.BadRequestThrown?
  {
    if !Supported(rates, fromCode) then Err(BadRequestThrown(UnsupportedSource + fromCode))
    else if !Supported(rates, toCode) then Err(BadRequestThrown(UnsupportedTarget + toCode))
    else Ok(Converted(amount, fromCode, toCode, rates))
  }

  /** The `catch` block: a bad request is rethrown as it is, anything else becomes an internal error. */
  function Catch(e: Thrown): (r: HttpError)
    ensures r.BadRequest? <==> e.BadRequestThrown?
    ensures e.BadRequestThrown? ==> r.message == e.message
    ensures !e.BadRequestThrown? ==> r == InternalServerError(FetchFailureMessage)
  {
    match e
    case BadRequestThrown(m) => BadRequest(m)
    case _ => InternalServerError(FetchFailureMessage)
  }

  /**
   * `convert(amount, from, to)` given the reply to the rate request.
   * A non-positive amount is rejected before the reply is looked at. The codes are
   * upper-cased; the source code is checked before the target code and each error
   * names the code; on success the result is `amount / rates[from] * rates[to]`
   * rounded to two decimals; a failed request or a reply without a rate table is an
   * internal error.
   */
  function Convert(amount: real, from: string, to: string, reply: RateReply): (r: Result<real, HttpError>)
    ensures amount <= 0.0 ==> r == Err(BadRequest(AmountMessage))
    ensures amount > 0.0 && (reply.Unreachable? || reply.rates.None?)
            ==> r == Err(InternalServerError(FetchFailureMessage))
    ensures amount > 0.0 && reply.Reply? && reply.rates.Some?
            && !Supported(reply.rates.value, ToUpperCase(from))
            ==> r == Err(BadRequest(UnsupportedSource + ToUpperCase(from)))
    ensures amount > 0.0 && reply.Reply? && reply.rates.Some?
            && Supported(reply.rates.value, ToUpperCase(from)) && !Supported(reply.rates.value, ToUpperCase(to))
            ==> r == Err(BadRequest(UnsupportedTarget + ToUpperCase(to)))
    ensures r.Ok? <==> amount > 0.0 && reply.Reply? && reply.rates.Some?
                       && Supported(reply.rates.value, ToUpperCase(from))
                       && Supported(reply.rates.value, ToUpperCase(to))
    ensures r.Ok? ==> r.value == Converted(amount, ToUpperCase(from), ToUpperCase(to), reply.rates.value)
  {
    if amount <= 0.0 then Err(BadRequest(AmountMessage))
    else
      var fromCode := ToUpperCase(from);
      var toCode := ToUpperCase(to);
      match RateTable(reply)
      case Err(e) => Err(Catch(e))
      case Ok(rates) =>
        match Rate(amount, fromCode, toCode, rates)
        case Ok(v) => Ok(v)
        case Err(e) => Err(Catch(e))
  }

  /** The letter case of the codes does not matter. */
  lemma ConvertIgnoresLetterCase(amount: real, from: string, to: string, reply: RateReply)
    ensures Convert(amount, from, to, reply) == Convert(amount, ToUpperCase(from), ToUpperCase(to), reply)
  {
    UpperCaseIdempotent(from);
    UpperCaseIdempotent(to);
  }

  /** Converting a currency into itself gives the amount back, before and after rounding. */
  lemma ConvertSameCurrency(amount: real, code: string, rates: map<string, real>)
    requires amount > 0.0 && Supported(rates, ToUpperCase(code))
    ensures amount / rates[ToUpperCase(code)] * rates[ToUpperCase(code)] == amount
    ensures Convert(amount, code, code, Reply(Some(rates))) == Ok(Round2(amount))
  {
    var rate := rates[ToUpperCase(code)];
    assert amount / rate * rate == amount;
  }

  /**
   * Converting there and back with positive rates lands within half a cent of the
   * amount plus half a cent scaled by the back conversion, the two roundings being
   * the only loss.
   */
  lemma ConvertRoundTrip(amount: real, from: string, to: string, rates: map<string, real>)
    requires amount > 0.0
    requires ToUpperCase(from) in rates && rates[ToUpperCase(from)] > 0.0
    requires ToUpperCase(to) in rates && rates[ToUpperCase(to)] > 0.0
    requires Convert(amount, from, to, Reply(Some(rates))).Ok?
    requires Convert(amount, from, to, Reply(Some(rates))).value > 0.0
    ensures var there := Convert(amount, from, to, Reply(Some(rates))).value;
            var back := Convert(there, to, from, Reply(Some(rates)));
            && back.Ok?
            && -(1.0 + rates[ToUpperCase(from)] / rates[ToUpperCase(to)]) / 200.0
               <= back.value - amount
               <= (1.0 + rates[ToUpperCase(from)] / rates[ToUpperCase(to)]) / 200.0
  {
    var rf := rates[ToUpperCase(from)];
    var rt := rates[ToUpperCase(to)];
    var there := Convert(amount, from, to, Reply(Some(rates))).value;
    var e1 := there - amount / rf * rt;
    assert -1.0 / 200.0 <= e1 <= 1.0 / 200.0;
    var back := Convert(there, to, from, Reply(Some(rates))).value;
    var e2 := back - there / rt * rf;
    assert -1.0 / 200.0 <= e2 <= 1.0 / 200.0;
    RoundTripError(amount, rf, rt, there, e1, back, e2);
  }

  lemma RoundTripError(amount: real, rf: real, rt: real, there: real, e1: real, back: real, e2: real)
    requires rf > 0.0 && rt > 0.0
    requires there == amount / rf * rt + e1 && -1.0 / 200.0 <= e1 <= 1.0 / 200.0
    requires back == there / rt * rf + e2 && -1.0 / 200.0 <= e2 <= 1.0 / 200.0
    ensures -(1.0 + rf / rt) / 200.0 <= back - amount <= (1.0 + rf / rt) / 200.0
  {
    var k := rf / rt;
    assert k > 0.0;
    assert there / rt * rf == amount + e1 * k;
    assert back - amount == e1 * k + e2;
    assert -k / 200.0 <= e1 * k <= k / 200.0;
    assert -(1.0 + k) / 200.0 == -k / 200.0 - 1.0 / 200.0;
    assert (1.0 + k) / 200.0 == k / 200.0 + 1.0 / 200.0;
  }

  /**
   * The worked example with a table quoted against USD that lists USD itself:
   * 100 "usd" is 90 "eur" at a rate of 0.9.
   */
  lemma ConvertExample()
    ensures Convert(100.0, "usd", "eur", Reply(Some(map["USD" := 1.0, "EUR" := 0.9]))) == Ok(90.0)
  {
    assert ToUpperCase("usd") == "USD";
    assert ToUpperCase("eur") == "EUR";
    assert (9000.0 + 0.5).Floor == 9000;
  }

  /**
   * The base currency needs a rate of its own: with a table that lists only EUR,
   * converting from USD is an unsupported source.
   */
  lemma ConvertBaseNotListed()
    ensures Convert(100.0, "USD", "EUR", Reply(Some(map["EUR" := 0.9])))
            == Err(BadRequest(UnsupportedSource + "USD"))
  {
    assert ToUpperCase("USD") == "USD";
    assert "USD"[0] != "EUR"[0];
  }
}
