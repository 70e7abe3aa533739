/**
  Free pricing of a pool (apps/web/lib/pool-pricing.ts) and the server's own computation of the same split
  (apps/api/src/pricing/pricing.engine.ts). Amounts are cents; typed values arrive parsed, None standing for
  text that is not a valid amount. Percentages are real numbers.
 */
module PoolPricing {
  import opened Arithmetic
  import opened Wrappers

  const MAX_SAFE: int := 9_007_199_254_740_991
  const MAX_TOTAL: int := 9_999_999_999

  predicate Safe(n: int) { -MAX_SAFE <= n <= MAX_SAFE }

  datatype QuotaMode = Digitar(quota: Option<nat>) | Registro
  datatype FeeMode = Pct(pct: Option<real>) | PorCota(fee: Option<nat>) | Total(fee: Option<nat>) | Sobra

  datatype Reason =
    | SharesMissing | CostMissing | RegistroNeedsFee | RegistroNeedsCost | PercentOutOfRange | FeeMissing
    | QuotaMissing | QuotaNotPositive | QuotaBelowCost | FeeAboveQuota | TicketBelowCost | TotalTooLarge

  datatype Plan =
    | Plan(cost: int, shares: int, registro: int, quota: int, fee: int, ticket: int, feeBps: int, feeTotal: int, total: int, surplus: int)
    | Rejected(reason: Reason)

  function Round(x: real): int { (x + 0.5).Floor }

  function Ceil(x: real): int { -((-x).Floor) }

  /** Quota and fee per share, or why they cannot be formed. */
  datatype Offer = Offer(quota: int, fee: int) | NoOffer(reason: Reason)

  function FixedFee(mode: FeeMode, shares: int): int
    requires (mode.PorCota? || mode.Total?) && mode.fee.Some? && shares > 0
  {
    if mode.PorCota? then mode.fee.value else RoundDiv(mode.fee.value, shares)
  }

  function MakeOffer(registro: int, shares: int, quotaMode: QuotaMode, feeMode: FeeMode): Offer
    requires shares > 0
  {
    match quotaMode
    case Registro =>
      if feeMode.Sobra? then NoOffer(RegistroNeedsFee)
      else if registro == 0 then NoOffer(RegistroNeedsCost)
      else if feeMode.Pct? then
        if feeMode.pct.None? || feeMode.pct.value < 0.0 || feeMode.pct.value >= 100.0 then NoOffer(PercentOutOfRange)
        else
          var quota := Ceil(registro as real * 100.0 / (100.0 - feeMode.pct.value));
          Offer(quota, quota - registro)
      else if feeMode.fee.None? then NoOffer(FeeMissing)
      else
        var quota := registro + FixedFee(feeMode, shares);
        Offer(quota, quota - registro)
    case Digitar(typed) =>
      if typed.None? || typed.value == 0 then NoOffer(QuotaMissing)
      else
        var quota := typed.value;
        if feeMode.Sobra? then Offer(quota, quota - registro)
        else if feeMode.Pct? then
          if feeMode.pct.None? || feeMode.pct.value < 0.0 || feeMode.pct.value > 100.0 then NoOffer(PercentOutOfRange)
          else Offer(quota, Round(quota as real * feeMode.pct.value / 100.0))
        else if feeMode.fee.None? then NoOffer(FeeMissing)
        else Offer(quota, FixedFee(feeMode, shares))
  }

  /** The checks common to every mode. */
  function Check(cost: int, shares: int, registro: int, quota: int, fee: int): Plan
    requires shares > 0
  {
    var ticket := quota - fee;
    var total := quota * shares;
    if quota <= 0 then Rejected(QuotaNotPositive)
    else if fee < 0 || quota < registro then Rejected(QuotaBelowCost)
    else if fee > quota then Rejected(FeeAboveQuota)
    else if ticket < registro then Rejected(TicketBelowCost)
    else if !Safe(total) || total > MAX_TOTAL then Rejected(TotalTooLarge)
    else Plan(cost, shares, registro, quota, fee, ticket, RoundDiv(fee * 10_000, quota), fee * shares, total, ticket * shares - cost)
  }

  function PlanPricing(cost: int, shares: int, quotaMode: QuotaMode, feeMode: FeeMode): Plan {
    if !Safe(shares) || shares < 1 then Rejected(SharesMissing)
    else if !Safe(cost) || cost < 0 then Rejected(CostMissing)
    else
      var registro := CeilDiv(cost, shares);
      var offer := MakeOffer(registro, shares, quotaMode, feeMode);
      if offer.NoOffer? then Rejected(offer.reason) else Check(cost, shares, registro, offer.quota, offer.fee)
  }

  // ----- the server -----

  datatype Split = Split(cost: int, shares: int, ticket: int, fee: int, quota: int, ticketBudget: int, reserve: int, feeTotal: int, total: int) | Refused

  function SplitPoolByFee(cost: int, shares: int, quota: int, fee: int): Split {
    if !(Safe(cost) && Safe(shares) && Safe(quota) && Safe(fee)) || cost < 0 || shares <= 0 || quota <= 0 || fee < 0 then Refused
    else if fee > quota then Refused
    else
      var ticket := quota - fee;
      if ticket < CeilDiv(cost, shares) then Refused
      else
        var total := quota * shares;
        if !Safe(total) || total > MAX_TOTAL then Refused
        else Split(cost, shares, ticket, fee, quota, ticket * shares, ticket * shares - cost, fee * shares, total)
  }

  function SplitPoolByQuota(cost: int, shares: int, quota: int): Split {
    if !(Safe(cost) && Safe(shares) && Safe(quota)) || cost < 0 || shares <= 0 || quota <= 0 then Refused
    else
      var ticket := CeilDiv(cost, shares);
      if quota < ticket then Refused
      else
        var total := quota * shares;
        if !Safe(total) || total > MAX_TOTAL then Refused
        else Split(cost, shares, ticket, quota - ticket, quota, ticket * shares, ticket * shares - cost, (quota - ticket) * shares, total)
  }

  // ----- what is accepted -----

  lemma SafeRange(n: int)
    ensures Safe(n) <==> -9_007_199_254_740_992 < n < 9_007_199_254_740_992
  {
  }

  ghost predicate Readable(feeMode: FeeMode) {
    match feeMode
    case Pct(pct) => pct.Some? && 0.0 <= pct.value <= 100.0
    case PorCota(fee) => fee.Some?
    case Total(fee) => fee.Some?
    case Sobra => true
  }

  /** A typed quota has an offer exactly when it is positive and its fee can be read: a percentage from 0 to 100, or an amount. */
  lemma TypedQuotaOffers(registro: int, shares: int, quota: Option<nat>, feeMode: FeeMode)
    requires shares > 0
    ensures var o := MakeOffer(registro, shares, Digitar(quota), feeMode);
      && (o.Offer? <==> quota.Some? && quota.value > 0 && Readable(feeMode))
      && (quota.None? || quota.value == 0 ==> o == NoOffer(QuotaMissing))
      && (o.Offer? ==> o.quota == quota.value && (feeMode.Sobra? ==> o.fee == quota.value - registro))
  {
    hide Round, FixedFee;
  }

  /** Past the offer: the plan is accepted exactly when nothing of this fails, and the first that fails is the reason. */
  lemma CheckExactly(cost: int, shares: int, registro: int, quota: int, fee: int)
    requires shares > 0
    ensures var p := Check(cost, shares, registro, quota, fee);
      && (p.Plan? <==> quota > 0 && 0 <= fee <= quota && registro <= quota && registro <= quota - fee && quota * shares <= 9_999_999_999)
      && (p == Rejected(QuotaNotPositive) <==> quota <= 0)
      && (p == Rejected(QuotaBelowCost) <==> quota > 0 && (fee < 0 || quota < registro))
      && (p == Rejected(FeeAboveQuota) <==> quota > 0 && registro <= quota && fee > quota)
      && (p == Rejected(TicketBelowCost) <==> quota > 0 && registro <= quota && 0 <= fee <= quota && quota - fee < registro)
  {
    if quota > 0 { MulMonotone(quota, 1, shares); }
  }

  /** A share's ticket covers its part of the cost exactly when all tickets together cover the cost. */
  lemma TicketCovers(cost: int, shares: int, ticket: int)
    requires shares > 0
    ensures ticket >= CeilDiv(cost, shares) <==> ticket * shares >= cost
  {
    CeilBracket(cost, shares);
    var c := CeilDiv(cost, shares);
    if ticket >= c { MulMonotone(shares, c, ticket); } else { MulMonotone(shares, ticket, c - 1); }
    assert shares * (c - 1) == shares * c - shares;
  }

  /** What the server accepts: safe numbers, a fee within the quota, tickets that cover the cost, and a total within the cap. */
  lemma ServerAcceptsExactly(cost: int, shares: int, quota: int, fee: int)
    ensures SplitPoolByFee(cost, shares, quota, fee).Split? <==>
      && Safe(cost) && Safe(shares) && Safe(quota) && Safe(fee)
      && cost >= 0 && shares >= 1 && quota >= 1 && 0 <= fee <= quota
      && (quota - fee) * shares >= cost && quota * shares <= 9_999_999_999
    ensures SplitPoolByQuota(cost, shares, quota).Split? <==>
      && Safe(cost) && Safe(shares) && Safe(quota)
      && cost >= 0 && shares >= 1 && quota >= 1
      && quota * shares >= cost && quota * shares <= 9_999_999_999
  {
    if shares >= 1 {
      TicketCovers(cost, shares, quota - fee);
      TicketCovers(cost, shares, quota);
      if quota >= 1 { MulMonotone(quota, 1, shares); }
    }
    hide CeilDiv;
  }

  // ----- conservation -----

  // ----- conservation -----

  lemma CheckConserves(cost: int, shares: int, quota: int, fee: int)
    requires shares > 0 && cost >= 0
    ensures var p := Check(cost, shares, CeilDiv(cost, shares), quota, fee);
      p.Plan? ==>
        && p.total == p.cost + p.feeTotal + p.surplus && p.surplus >= 0
        && p.quota == p.ticket + p.fee && 0 <= p.fee <= p.quota
        && p.total == p.quota * p.shares <= MAX_TOTAL
  {
    var registro := CeilDiv(cost, shares);
    CeilBracket(cost, shares);
    var ticket := quota - fee;
    assert quota * shares == ticket * shares + fee * shares;
    if ticket >= registro { MulMonotone(shares, registro, ticket); }
  }

  /** Every accepted plan conserves cents: total == cost + fees + surplus, with nothing negative. */
  lemma PlanConservesCents(cost: int, shares: int, quotaMode: QuotaMode, feeMode: FeeMode)
    ensures var p := PlanPricing(cost, shares, quotaMode, feeMode);
      p.Plan? ==>
        && p.cost == cost && p.shares == shares
        && p.total == p.cost + p.feeTotal + p.surplus && p.surplus >= 0
        && p.quota == p.ticket + p.fee && 0 <= p.fee <= p.quota
        && p.total == p.quota * p.shares <= MAX_TOTAL
        && p.shares * p.registro >= cost && p.ticket >= p.registro
  {
    hide MakeOffer, CeilDiv, RoundDiv;
    if Safe(shares) && shares >= 1 && Safe(cost) && cost >= 0 {
      CeilBracket(cost, shares);
      var offer := MakeOffer(CeilDiv(cost, shares), shares, quotaMode, feeMode);
      if offer.Offer? { CheckConserves(cost, shares, offer.quota, offer.fee); }
    }
  }

  lemma RegistroFee(registro: int, shares: int, feeMode: FeeMode)
    requires shares > 0
    ensures var o := MakeOffer(registro, shares, Registro, feeMode); o.Offer? ==> o.fee == o.quota - registro
  {
    hide Ceil, FixedFee;
  }

  lemma CheckAtRegistro(cost: int, shares: int, quota: int)
    requires shares > 0
    ensures var registro := CeilDiv(cost, shares);
            var p := Check(cost, shares, registro, quota, quota - registro);
      p.Plan? ==> p.ticket == p.registro && 0 <= p.surplus < p.shares
  {
    CeilBracket(cost, shares);
    hide CeilDiv, RoundDiv;
  }

  /** When the quota is built from the registration, what is left over is less than one cent per share. */
  lemma RegistroSurplusBelowShares(cost: int, shares: int, feeMode: FeeMode)
    ensures var p := PlanPricing(cost, shares, Registro, feeMode);
      p.Plan? ==> p.ticket == p.registro && 0 <= p.surplus < p.shares
  {
    hide MakeOffer, Check, CeilDiv;
    if Safe(shares) && shares >= 1 && Safe(cost) && cost >= 0 {
      var registro := CeilDiv(cost, shares);
      RegistroFee(registro, shares, feeMode);
      var offer := MakeOffer(registro, shares, Registro, feeMode);
      if offer.Offer? { CheckAtRegistro(cost, shares, offer.quota); }
    }
  }

  // ----- percent fee -----

  lemma CeilIsLeast(x: real, n: int)
    ensures n as real >= x <==> n >= Ceil(x)
  {
  }

  /** quota >= r * 100 / (100 - p) says the same as: the part of the quota above r is at least p percent of it. */
  lemma PercentAsQuota(r: int, q: int, p: real)
    requires 0.0 <= p < 100.0
    ensures q as real >= r as real * 100.0 / (100.0 - p) <==> (q - r) as real * 100.0 >= p * q as real
  {
    var d := 100.0 - p;
    var x := r as real * 100.0 / d;
    assert x * d == r as real * 100.0;
    ScaleCompare(q as real, x, d);
    assert q as real * d == q as real * 100.0 - p * q as real;
    assert (q - r) as real * 100.0 == q as real * 100.0 - r as real * 100.0;
  }

  lemma ScaleCompare(a: real, b: real, d: real)
    requires d > 0.0
    ensures a >= b <==> a * d >= b * d
  {
    if a >= b { assert (a - b) * d >= 0.0; }
    if a < b { assert (b - a) * d > 0.0; }
  }

  /** What is left of a quota after the registration is at least this percentage of the quota. */
  predicate FeeReaches(registro: int, quota: int, pct: real) {
    (quota - registro) as real * 100.0 >= pct * quota as real
  }

  /** The percent fee gives the least quota whose fee reaches the percentage, among all quotas. */
  lemma PercentGivesLeastQuota(cost: int, shares: int, pct: real)
    requires 0.0 <= pct < 100.0
    ensures var p := PlanPricing(cost, shares, Registro, Pct(Some(pct)));
      p.Plan? ==> forall q: int :: FeeReaches(p.registro, q, pct) <==> q >= p.quota
  {
    var p := PlanPricing(cost, shares, Registro, Pct(Some(pct)));
    if p.Plan? {
      forall q: int ensures FeeReaches(p.registro, q, pct) <==> q >= p.quota {
        PercentAsQuota(p.registro, q, pct);
        CeilIsLeast(p.registro as real * 100.0 / (100.0 - pct), q);
      }
    }
  }

  // ----- what can be rejected -----

  /** Input that passes the mode's own validation. */
  predicate ValidRegistro(cost: int, shares: int, feeMode: FeeMode) {
    && Safe(shares) && shares >= 1 && Safe(cost) && cost > 0
    && match feeMode
       case Pct(pct) => pct.Some? && 0.0 <= pct.value < 100.0
       case PorCota(fee) => fee.Some?
       case Total(fee) => fee.Some?
       case Sobra => false
  }

  lemma OfferCoversRegistro(registro: int, shares: int, feeMode: FeeMode)
    requires registro > 0 && shares > 0 && !feeMode.Sobra?
    ensures var o := MakeOffer(registro, shares, Registro, feeMode);
      o.Offer? ==> o.fee == o.quota - registro && o.fee >= 0
  {
    if feeMode.Pct? && feeMode.pct.Some? && 0.0 <= feeMode.pct.value < 100.0 {
      var x := registro as real * 100.0 / (100.0 - feeMode.pct.value);
      PercentAsQuota(registro, registro - 1, feeMode.pct.value);
      assert feeMode.pct.value * (registro - 1) as real >= 0.0;
      CeilIsLeast(x, registro - 1);
    }
    if feeMode.Total? && feeMode.fee.Some? { RoundBracket(feeMode.fee.value, shares); RoundNonNegative(feeMode.fee.value, shares); }
  }

  lemma RoundNonNegative(a: nat, b: int)
    requires b > 0
    ensures RoundDiv(a, b) >= 0
  {
    RoundBracket(a, b);
    if RoundDiv(a, b) < 0 { MulMonotone(2 * b, RoundDiv(a, b), -1); }
  }

  /** In 'registro' mode, past input validation, only the cap on the total can reject. */
  lemma RegistroRejectsOnlyTooLarge(cost: int, shares: int, feeMode: FeeMode)
    ensures var p := PlanPricing(cost, shares, Registro, feeMode);
      && (ValidRegistro(cost, shares, feeMode) ==> p.Plan? || p == Rejected(TotalTooLarge))
      && (p.Plan? ==> ValidRegistro(cost, shares, feeMode))
      && (p == Rejected(TotalTooLarge) ==> ValidRegistro(cost, shares, feeMode))
  {
    if Safe(shares) && shares >= 1 && Safe(cost) && cost >= 0 {
      CeilBracket(cost, shares);
      RegistroZero(cost, shares);
      if CeilDiv(cost, shares) > 0 && !feeMode.Sobra? { OfferCoversRegistro(CeilDiv(cost, shares), shares, feeMode); }
    }
  }

  lemma RegistroZero(cost: int, shares: int)
    requires cost >= 0 && shares > 0
    ensures CeilDiv(cost, shares) >= 0
    ensures CeilDiv(cost, shares) == 0 <==> cost == 0
  {
    CeilBracket(cost, shares);
    var r := CeilDiv(cost, shares);
    if r < 0 { MulMonotone(shares, r, -1); }
    if r > 0 { MulMonotone(shares, 1, r); }
    if r == 0 { assert shares * r == 0; }
  }

  // ----- fixed fee and leftover fee -----

  /**
    A fixed fee f on top of the registration and a typed quota of registration + f whose fee is the leftover give the
    same plan, or are both rejected, exactly when the registration costs something, f is 0 or the total is too large.
   */
  lemma FixedFeeIsLeftover(cost: nat, shares: nat, f: nat)
    requires Safe(cost) && Safe(shares) && shares >= 1
    ensures var byFee := PlanPricing(cost, shares, Registro, PorCota(Some(f)));
            var registro := CeilDiv(cost, shares);
            var byQuota := PlanPricing(cost, shares, Digitar(Some(if registro + f >= 0 then registro + f else 0)), Sobra);
      && registro >= 0
      && (byFee == byQuota || (byFee.Rejected? && byQuota.Rejected?) <==> cost > 0 || f == 0 || f * shares > MAX_TOTAL)
      && (cost > 0 ==> byFee == byQuota)
  {
    RegistroZero(cost, shares);
    if cost == 0 && f > 0 {
      assert f * shares > 0 by { MulMonotone(shares, 1, f); }
    }
  }

  // ----- agreement with the server -----

  /** The server, given the plan's quota and fee, accepts it and computes the same cents. */
  lemma ServerAcceptsEveryPlan(cost: int, shares: int, quotaMode: QuotaMode, feeMode: FeeMode)
    ensures var p := PlanPricing(cost, shares, quotaMode, feeMode);
      p.Plan? ==>
        SplitPoolByFee(cost, shares, p.quota, p.fee)
          == Split(cost, shares, p.ticket, p.fee, p.quota, p.ticket * shares, p.surplus, p.feeTotal, p.total)
  {
    var p := PlanPricing(cost, shares, quotaMode, feeMode);
    if p.Plan? {
      MulMonotone(p.quota, 1, shares);
      assert p.quota <= p.total;
    }
  }

  /** In every mode, once a quota and a fee can be formed, the screen accepts them exactly when the server does. */
  lemma ScreenAndServerAgree(cost: int, shares: int, quotaMode: QuotaMode, feeMode: FeeMode)
    requires Safe(shares) && shares >= 1 && Safe(cost) && cost >= 0
    ensures var offer := MakeOffer(CeilDiv(cost, shares), shares, quotaMode, feeMode);
      PlanPricing(cost, shares, quotaMode, feeMode).Plan? <==> offer.Offer? && SplitPoolByFee(cost, shares, offer.quota, offer.fee).Split?
  {
    ServerAcceptsEveryPlan(cost, shares, quotaMode, feeMode);
    RegistroZero(cost, shares);
    hide MakeOffer, CeilDiv, RoundDiv;
  }

  /** The fee that the mode asks for, to the nearest cent. */
  ghost predicate NearestFee(quotaMode: QuotaMode, feeMode: FeeMode, shares: int, quota: int, fee: int) {
    match feeMode
    case Pct(pct) => quotaMode.Digitar? ==> pct.Some? && -50.0 <= fee as real * 100.0 - quota as real * pct.value <= 50.0
    case PorCota(typed) => typed.Some? && fee == typed.value
    case Total(typed) => typed.Some? && -shares <= 2 * (fee * shares - typed.value) <= shares
    case Sobra => true
  }

  lemma OfferFeeIsNearest(registro: int, shares: int, quotaMode: QuotaMode, feeMode: FeeMode)
    requires shares > 0
    ensures var o := MakeOffer(registro, shares, quotaMode, feeMode); o.Offer? ==> NearestFee(quotaMode, feeMode, shares, o.quota, o.fee)
  {
    hide Ceil;
    if feeMode.Total? && feeMode.fee.Some? {
      RoundBracket(feeMode.fee.value, shares);
      hide RoundDiv;
    }
    if quotaMode.Digitar? && feeMode.Pct? && feeMode.pct.Some? && quotaMode.quota.Some? {
      RoundIsNearest(quotaMode.quota.value as real * feeMode.pct.value / 100.0);
      hide Round;
    }
  }

  /** Percent fees of a typed quota and total fees are charged to the nearest cent, fees per share as typed. */
  lemma FeesAreNearest(cost: int, shares: int, quotaMode: QuotaMode, feeMode: FeeMode)
    ensures var p := PlanPricing(cost, shares, quotaMode, feeMode);
      p.Plan? ==> NearestFee(quotaMode, feeMode, shares, p.quota, p.fee)
  {
    hide MakeOffer, NearestFee, CeilDiv, RoundDiv;
    if Safe(shares) && shares >= 1 && Safe(cost) && cost >= 0 {
      OfferFeeIsNearest(CeilDiv(cost, shares), shares, quotaMode, feeMode);
    }
  }

  lemma RoundDivIsNearest(a: int, b: int)
    requires b > 0
    ensures -b <= 2 * (a - b * RoundDiv(a, b)) < b
  {
    RoundBracket(a, b);
    assert 2 * b * RoundDiv(a, b) == 2 * (b * RoundDiv(a, b));
    hide RoundDiv;
  }

  lemma CheckBasisPoints(cost: int, shares: int, registro: int, quota: int, fee: int)
    requires shares > 0
    ensures var p := Check(cost, shares, registro, quota, fee);
      p.Plan? ==> p.quota == quota > 0 && p.fee == fee && p.feeBps == RoundDiv(fee * 10_000, quota)
  {
    hide RoundDiv;
  }

  /** The percentage shown with a plan is that of its fee in its quota, to the nearest basis point, halves up. */
  lemma BasisPointsAreNearest(cost: int, shares: int, quotaMode: QuotaMode, feeMode: FeeMode)
    ensures var p := PlanPricing(cost, shares, quotaMode, feeMode);
      p.Plan? ==> p.quota > 0 && -p.quota <= 2 * (p.fee * 10_000 - p.quota * p.feeBps) < p.quota
  {
    var p := PlanPricing(cost, shares, quotaMode, feeMode);
    if p.Plan? {
      var registro := CeilDiv(cost, shares);
      var offer := MakeOffer(registro, shares, quotaMode, feeMode);
      CheckBasisPoints(cost, shares, registro, offer.quota, offer.fee);
      RoundDivIsNearest(p.fee * 10_000, p.quota);
    }
    hide MakeOffer, RoundDiv, CeilDiv, Check;
  }

  lemma RoundIsNearest(x: real)
    ensures -0.5 <= Round(x) as real - x <= 0.5
  {
  }

  /** The leftover fee is the largest fee the server would accept for that quota, and matches its split by quota. */
  lemma LeftoverIsLargestFee(cost: int, shares: int, quota: nat)
    ensures var p := PlanPricing(cost, shares, Digitar(Some(quota)), Sobra);
      && (p.Plan? <==> SplitPoolByQuota(cost, shares, quota).Split?)
      && (p.Plan? ==> SplitPoolByQuota(cost, shares, quota) == SplitPoolByFee(cost, shares, quota, p.fee))
      && (p.Plan? ==> forall fee :: SplitPoolByFee(cost, shares, quota, fee).Split? ==> fee <= p.fee)
  {
    ServerAcceptsEveryPlan(cost, shares, Digitar(Some(quota)), Sobra);
    if SplitPoolByQuota(cost, shares, quota).Split? { RegistroZero(cost, shares); }
    if Safe(shares) && shares >= 1 && Safe(cost) && cost >= 0 { RegistroZero(cost, shares); }
  }
}
