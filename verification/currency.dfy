/** The currencies an account may hold, and the test-data generator that picks one. */
module Currency {

  const USD: string := "USD"
  const CAD: string := "CAD"
  const EUR: string := "EUR"
  const GBP: string := "GBP"
  const CHF: string := "CHF"

  /** The supported currencies, as an independent reference for `IsSupportedCurrency`. */
  const Supported: set<string> := {"USD", "CAD", "EUR", "GBP", "CHF"}

  /**
   * The switch of `IsSupportedCurrency`: exact, case-sensitive comparison
   * with each constant in turn, so a currency is supported exactly when it is
   * one of the five listed.
   */
  predicate IsSupportedCurrency(currency: string): (r: bool)
    ensures r <==> currency in Supported
  {
    match currency
    case "USD" => true
    case "CAD" => true
    case "EUR" => true
    case "GBP" => true
    case "CHF" => true
    case _ => false
  }

  /** Each constant holds its own name, and the five are pairwise distinct. */
  lemma ConstantsDistinct()
    ensures [USD, CAD, EUR, GBP, CHF] == ["USD", "CAD", "EUR", "GBP", "CHF"]
    ensures |{USD, CAD, EUR, GBP, CHF}| == 5
  {
  }

  /** Matching is case-sensitive: other spellings of a supported code are rejected. */
  lemma CaseSensitive()
    ensures IsSupportedCurrency("USD") && !IsSupportedCurrency("usd") && !IsSupportedCurrency("Usd")
    ensures !IsSupportedCurrency("") && !IsSupportedCurrency("USD ")
  {
  }

  /** The list `RandomCurrency` draws from. */
  const RandomChoices: seq<string> := [EUR, USD, CAD, GBP, CHF]

  /**
   * `RandomCurrency`, with the value of `rand.Intn(len(currencies))` passed
   * in as `pick`; every currency it can return is supported.
   */
  function RandomCurrency(pick: nat): (c: string)
    requires pick < |RandomChoices|
    ensures IsSupportedCurrency(c)
  {
    RandomChoices[pick]
  }

  /** Every supported currency can come out of `RandomCurrency`. */
  lemma RandomCurrencyCoversSupported(currency: string)
    requires IsSupportedCurrency(currency)
    ensures exists pick :: 0 <= pick < |RandomChoices| && RandomCurrency(pick) == currency
  {
    var pick := if currency == EUR then 0 else if currency == USD then 1 else if currency == CAD then 2
                else if currency == GBP then 3 else 4;
    assert RandomCurrency(pick) == currency;
  }
}
