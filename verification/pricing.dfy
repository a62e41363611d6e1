/** The price rules of the customer booking page: the stylist surcharge, the
    adjusted base price, promotion matching and discounting, and the deposit
    charged with its card-processing fee. All amounts are in cents. */
module Pricing {
  import opened Common
  import opened Text
  import opened Seqs

  /** A stylist as listed to the customer. `styleSurcharges` is the optional
      per-style override table (style id to amount); `surcharge` the base. */
  datatype Stylist = Stylist(
    id: string,
    fullName: string,
    styleSurcharges: Option<map<string, Numeric>>,
    surcharge: Numeric)

  /** The price and duration of one (style, variation) pair. */
  datatype PricingEntry = PricingEntry(categoryId: string, price: int, durationMinutes: int)

  datatype Style = Style(id: string, pricing: seq<PricingEntry>)

  /** An active promotion. `styleId` and `categoryId` are the ids of the
      promoted pricing's style and variation, "" when the promotion carries
      none. */
  datatype Promo = Promo(
    id: string,
    styleId: string,
    categoryId: string,
    discountPercentage: Numeric,
    promoPrice: Numeric)

  /** The stylist-select value that means "any stylist". */
  const Unassigned: string := "unassigned"

  /** The only stylist whose surcharge is applied is recognised by this
      fragment of the lower-cased full name. */
  const SurchargeName: string := "victoria"

  /** The selected stylist may carry a surcharge at all. */
  predicate SurchargeApplies(selected: Option<Stylist>, stylistId: string) {
    && selected.Some?
    && stylistId != Unassigned
    && Contains(ToLower(selected.value.fullName), SurchargeName)
  }

  /** The selected stylist has an override entry for the selected style. */
  predicate HasOverride(st: Stylist, styleId: string) {
    styleId != "" && st.styleSurcharges.Some? && styleId in st.styleSurcharges.value
  }

  /** The surcharge added for the stylist `selected` (the stylist found under
      `stylistId`) when style `styleId` is chosen. */
  function SurchargeFor(selected: Option<Stylist>, stylistId: string, styleId: string): (r: int)
    ensures !SurchargeApplies(selected, stylistId) ==> r == 0
    ensures SurchargeApplies(selected, stylistId) && HasOverride(selected.value, styleId) ==>
              r == OrZero(selected.value.styleSurcharges.value[styleId])
    ensures SurchargeApplies(selected, stylistId) && !HasOverride(selected.value, styleId) ==>
              r == OrZero(selected.value.surcharge)
  {
    if selected.None? || stylistId == Unassigned then 0
    else if !Contains(ToLower(selected.value.fullName), SurchargeName) then 0
    else if HasOverride(selected.value, styleId) then OrZero(selected.value.styleSurcharges.value[styleId])
    else OrZero(selected.value.surcharge)
  }

  /** `stylistSurcharge`: the stylist is looked up by id in the listed
      stylists, then the surcharge rule applies. */
  function StylistSurcharge(stylists: seq<Stylist>, stylistId: string, styleId: string): (r: int)
    ensures r != 0 ==> exists i :: 0 <= i < |stylists| && stylists[i].id == stylistId
                          && Contains(ToLower(stylists[i].fullName), SurchargeName)
    ensures stylistId == Unassigned ==> r == 0
  {
    SurchargeFor(Find(stylists, (st: Stylist) => st.id == stylistId), stylistId, styleId)
  }

  /** The name test ignores case: "Victoria", "VICTORIA B." and "victoria"
      are treated alike. */
  lemma SurchargeNameIgnoresCase(st: Stylist, name: string, stylistId: string, styleId: string)
    requires ToLower(name) == ToLower(st.fullName)
    ensures SurchargeFor(Some(st.(fullName := name)), stylistId, styleId)
         == SurchargeFor(Some(st), stylistId, styleId)
  {
  }

  /** With an override for the chosen style, the base surcharge is never
      consulted. */
  lemma OverrideShadowsBase(st: Stylist, base: Numeric, stylistId: string, styleId: string)
    requires HasOverride(st, styleId)
    ensures SurchargeFor(Some(st.(surcharge := base)), stylistId, styleId)
         == SurchargeFor(Some(st), stylistId, styleId)
  {
  }

  /** Unparseable or missing surcharge amounts count as no surcharge. */
  lemma UnparseableSurchargeIsZero(st: Stylist, stylistId: string, styleId: string)
    requires !HasOverride(st, styleId) && !st.surcharge.Num?
    ensures SurchargeFor(Some(st), stylistId, styleId) == 0
  {
  }

  /** `selectedPricing`: the entry for the selected variation in the first
      style with the selected id; nothing unless both ids are chosen. */
  function SelectedPricing(styles: seq<Style>, styleId: string, categoryId: string): (r: Option<PricingEntry>)
    ensures r.Some? ==> styleId != "" && categoryId != "" && r.value.categoryId == categoryId
    ensures r.Some? ==> exists i :: 0 <= i < |styles| && styles[i].id == styleId && r.value in styles[i].pricing
    ensures styleId != "" && categoryId != "" &&
            (exists i :: 0 <= i < |styles| && styles[i].id == styleId
                      && (forall j :: 0 <= j < i ==> styles[j].id != styleId)
                      && exists k :: 0 <= k < |styles[i].pricing| && styles[i].pricing[k].categoryId == categoryId)
            ==> r.Some?
  {
    if styleId == "" || categoryId == "" then None
    else
      match Find(styles, (s: Style) => s.id == styleId)
      case None => None
      case Some(style) => Find(style.pricing, (p: PricingEntry) => p.categoryId == categoryId)
  }

  /** `adjustedBasePrice`: the variation's price plus the surcharge, or 0 with
      no pricing selected. */
  function AdjustedBasePrice(pricing: Option<PricingEntry>, surcharge: int): (r: int)
    ensures pricing.None? ==> r == 0
    ensures pricing.Some? ==> r - surcharge == pricing.value.price
  {
    if pricing.None? then 0 else pricing.value.price + surcharge
  }

  /** `appliedDiscountPercentage`: the promotion's percentage, but only when a
      promotion is active and its style is the selected style. The variation
      is not compared. */
  function AppliedDiscountPercentage(promo: Option<Promo>, styleId: string): (p: int)
    ensures p != 0 ==> promo.Some? && styleId != "" && promo.value.styleId == styleId
    ensures promo.Some? && styleId != "" && promo.value.styleId == styleId ==>
              p == OrZero(promo.value.discountPercentage)
  {
    if promo.None? || styleId == "" || promo.value.styleId == "" then 0
    else if promo.value.styleId != styleId then 0
    else OrZero(promo.value.discountPercentage)
  }

  /** The promotion's variation plays no part in whether it applies. */
  lemma PromoIgnoresVariation(promo: Promo, categoryId: string, styleId: string)
    ensures AppliedDiscountPercentage(Some(promo.(categoryId := categoryId)), styleId)
         == AppliedDiscountPercentage(Some(promo), styleId)
  {
  }

  /** A promotion for another style gives no percentage discount. */
  lemma PromoForOtherStyle(promo: Promo, styleId: string)
    requires promo.styleId != styleId
    ensures AppliedDiscountPercentage(Some(promo), styleId) == 0
  {
  }

  /** `discountedPrice`: `Math.round(base * (1 - p/100) * 100) / 100` in
      cents, the base itself when no percentage applies, nothing without a
      pricing. */
  function DiscountedPrice(pricing: Option<PricingEntry>, percentage: int, base: int): (r: Option<int>)
    ensures r.Some? <==> pricing.Some?
    ensures r.Some? && percentage == 0 ==> r.value == base
    ensures r.Some? && percentage != 0 ==> Abs(100 * r.value - base * (100 - percentage)) <= 50
  {
    if pricing.None? then None
    else if percentage == 0 then Some(base)
    else Some(RoundHalfUp(base * (100 - percentage), 100))
  }

  /** With a percentage in [0, 100] the discounted price lies between 0 and
      the base price, and a larger percentage never costs more. */
  lemma {:induction false} DiscountWithinBase(pricing: PricingEntry, p: int, q: int, base: int)
    requires 0 <= p <= q <= 100 && base >= 0
    ensures 0 <= DiscountedPrice(Some(pricing), p, base).value <= base
    ensures DiscountedPrice(Some(pricing), q, base).value <= DiscountedPrice(Some(pricing), p, base).value
    ensures DiscountedPrice(Some(pricing), 100, base).value == 0
  {
    MulMonotone(base, 100 - q, 100 - p);
    RoundMonotone(base * (100 - q), base * (100 - p), 100);
    MulMonotone(base, 100 - p, 100);
    MulMonotone(base, 0, 100 - p);
    RoundMonotone(base * (100 - p), base * 100, 100);
    RoundMonotone(0, base * (100 - p), 100);
    assert RoundHalfUp(base * 100, 100) == base;
    assert RoundHalfUp(0, 100) == 0;
  }

  /** `effectivePromoPrice`: what the customer pays under the active
      promotion, if it applies. */
  function EffectivePromoPrice(promo: Option<Promo>, styleId: string, pricing: Option<PricingEntry>,
                               percentage: int, discounted: Option<int>, surcharge: int): (r: Option<int>)
    ensures r.Some? ==> promo.Some? && styleId != "" && pricing.Some? && promo.value.styleId == styleId
  {
    if promo.None? || styleId == "" || pricing.None? then None
    else if promo.value.styleId == "" || promo.value.styleId != styleId then None
    else if percentage > 0 && discounted.Some? then discounted
    else if promo.value.promoPrice.Num? && promo.value.promoPrice.value > 0 then
      Some(promo.value.promoPrice.value + surcharge)
    else None
  }

  /** Everything the page derives from the current selection. */
  datatype Quote = Quote(
    surcharge: int,
    pricing: Option<PricingEntry>,
    adjustedBase: int,
    percentage: int,
    discounted: Option<int>,
    promoPrice: Option<int>)

  /** The chain of derived values, each computed from the previous ones as the
      page's memoised values are. */
  function QuoteFor(styles: seq<Style>, stylists: seq<Stylist>, promo: Option<Promo>,
                    styleId: string, categoryId: string, stylistId: string): (q: Quote)
    ensures q.discounted.Some? <==> q.pricing.Some?
    ensures q.pricing.None? ==> q.adjustedBase == 0 && q.promoPrice.None?
    ensures q.pricing.Some? && q.percentage == 0 ==> q.discounted == Some(q.pricing.value.price + q.surcharge)
    ensures q.percentage != 0 || q.promoPrice.Some? ==> promo.Some? && promo.value.styleId == styleId && styleId != ""
    ensures q.surcharge != 0 ==> stylistId != Unassigned && exists i :: 0 <= i < |stylists| && stylists[i].id == stylistId
  {
    var surcharge := StylistSurcharge(stylists, stylistId, styleId);
    var pricing := SelectedPricing(styles, styleId, categoryId);
    var base := AdjustedBasePrice(pricing, surcharge);
    var percentage := AppliedDiscountPercentage(promo, styleId);
    var discounted := DiscountedPrice(pricing, percentage, base);
    Quote(surcharge, pricing, base, percentage, discounted,
          EffectivePromoPrice(promo, styleId, pricing, percentage, discounted, surcharge))
  }

  /** The four outcomes of the promotion price: none when no promotion, no
      pricing or a style mismatch; the percentage-discounted price when the
      percentage is positive; otherwise the fixed promotion price plus the
      surcharge when that is positive; otherwise none. */
  lemma PromoPriceOutcomes(styles: seq<Style>, stylists: seq<Stylist>, promo: Option<Promo>,
                           styleId: string, categoryId: string, stylistId: string)
    ensures var q := QuoteFor(styles, stylists, promo, styleId, categoryId, stylistId);
      && (promo.None? || q.pricing.None? || promo.value.styleId != styleId ==> q.promoPrice.None?)
      && (promo.Some? && q.pricing.Some? && promo.value.styleId == styleId && q.percentage > 0 ==>
            q.promoPrice == q.discounted && Abs(100 * q.promoPrice.value - q.adjustedBase * (100 - q.percentage)) <= 50)
      && (promo.Some? && q.pricing.Some? && promo.value.styleId == styleId && q.percentage <= 0 ==>
            (promo.value.promoPrice.Num? && promo.value.promoPrice.value > 0 <==> q.promoPrice.Some?)
            && (q.promoPrice.Some? ==> q.promoPrice.value == promo.value.promoPrice.value + q.surcharge))
  {
    var q := QuoteFor(styles, stylists, promo, styleId, categoryId, stylistId);
    if promo.Some? && q.pricing.Some? && promo.value.styleId == styleId {
      assert styleId != "";
    }
  }

  /** Without a percentage the "discounted" price is the full adjusted base:
      the base price plus the surcharge. */
  lemma NoPromoFullPrice(styles: seq<Style>, stylists: seq<Stylist>, styleId: string, categoryId: string, stylistId: string)
    ensures var q := QuoteFor(styles, stylists, None, styleId, categoryId, stylistId);
      q.pricing.Some? ==> q.discounted == Some(q.adjustedBase) && q.adjustedBase == q.pricing.value.price + q.surcharge
                          && q.promoPrice.None?
  {
  }

  /** The deposit setting as read from the salon settings: missing, a number
      (in cents), NaN, or a string together with what `parseFloat` reads from
      it (`None` for NaN). */
  datatype DepositSetting =
    | NoSetting
    | NumberSetting(cents: int)
    | NotANumberSetting
    | TextSetting(raw: string, parsed: Option<int>)

  const DefaultDepositCents: int := 5000

  /** The processing fee is 3.5%, written as 35 per mille. */
  const FeePerMille: int := 35

  /** `depositAmount`: a falsy setting (missing, 0, NaN or "") gives the
      default; a string is parsed; `None` stands for a NaN deposit. */
  function DepositAmount(setting: DepositSetting): (r: Option<int>)
    ensures setting.NoSetting? || setting.NotANumberSetting? ==> r == Some(DefaultDepositCents)
    ensures setting.NumberSetting? ==> r == Some(if setting.cents == 0 then DefaultDepositCents else setting.cents)
    ensures setting.TextSetting? ==> r == (if setting.raw == "" then Some(DefaultDepositCents) else setting.parsed)
  {
    match setting
    case NoSetting => Some(DefaultDepositCents)
    case NumberSetting(c) => if c == 0 then Some(DefaultDepositCents) else Some(c)
    case NotANumberSetting => Some(DefaultDepositCents)
    case TextSetting(raw, parsed) => if raw == "" then Some(DefaultDepositCents) else parsed
  }

  /** `PROCESSING_FEE`: 3.5% of the deposit rounded to the cent. */
  function ProcessingFee(deposit: int): (fee: int)
    ensures Abs(1000 * fee - FeePerMille * deposit) <= 500
    ensures deposit >= 0 ==> 0 <= fee <= deposit
  {
    RoundHalfUp(FeePerMille * deposit, 1000)
  }

  /** `TOTAL_DEPOSIT_CENTS`: the amount of the payment intent, deposit plus
      fee; NaN stays NaN. */
  function TotalDepositCents(setting: DepositSetting): (r: Option<int>)
    ensures r.Some? <==> DepositAmount(setting).Some?
    ensures r.Some? ==> r.value == DepositAmount(setting).value + ProcessingFee(DepositAmount(setting).value)
    ensures r.Some? && DepositAmount(setting).value >= 0 ==> r.value >= DepositAmount(setting).value
  {
    match DepositAmount(setting)
    case None => None
    case Some(d) => Some(d + ProcessingFee(d))
  }

  /** With no setting the customer is charged $50 plus $1.75. */
  lemma DefaultCharge()
    ensures TotalDepositCents(NoSetting) == Some(5175)
    ensures TotalDepositCents(NumberSetting(0)) == Some(5175)
  {
  }

  /** A numeric 0 falls back to the default, but the string "0" is truthy and
      yields a zero deposit. */
  lemma ZeroStringIsNotDefault()
    ensures DepositAmount(TextSetting("0", Some(0))) == Some(0)
    ensures DepositAmount(NumberSetting(0)) == Some(DefaultDepositCents)
  {
  }
}
