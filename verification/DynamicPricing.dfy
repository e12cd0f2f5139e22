/** The price of a booking under a list of pricing rules, over exact reals. */
module DynamicPricing {
  import opened Selections

  datatype RuleType = PeakHours | Seasonal | DemandBased | SpecialEvent | BulkDiscount

  /** The part of a rule that decides the price. */
  datatype PricedRule = PricedRule(id: string, ruleType: RuleType, multiplier: real)

  datatype AppliedRule = AppliedRule(ruleId: string, ruleType: RuleType, multiplier: real, priceImpact: real)

  /** An entry of the breakdown is absent until a rule of its type has been applied. */
  type Breakdown = map<RuleType, real>

  datatype PricingResult = PricingResult(
    originalPrice: real, finalPrice: real, totalDiscount: real, totalSurcharge: real,
    appliedRules: seq<AppliedRule>, breakdown: Breakdown)

  /** Rounds to two decimal places, halves up. */
  function RoundToCents(x: real): real {
    (x * 100.0 + 0.5).Floor as real / 100.0
  }

  function EntryOf(b: Breakdown, ruleType: RuleType): real {
    if ruleType in b then b[ruleType] else 0.0
  }

  // ----- the specification

  function Product(rules: seq<PricedRule>): real {
    if rules == [] then 1.0 else rules[0].multiplier * Product(rules[1..])
  }

  /** The price before rounding. */
  function Price(base: real, rules: seq<PricedRule>): real { base * Product(rules) }

  /** What rule i adds to the price it finds; negative for a discount. */
  function Impact(base: real, rules: seq<PricedRule>, i: nat): real
    requires i < |rules|
  {
    Price(base, rules[..i + 1]) - Price(base, rules[..i])
  }

  /** What the rules of one type add together. */
  function ImpactOfType(base: real, rules: seq<PricedRule>, ruleType: RuleType): real {
    if rules == [] then 0.0 else
    var last := |rules| - 1;
    ImpactOfType(base, rules[..last], ruleType)
    + if rules[last].ruleType == ruleType then Impact(base, rules, last) else 0.0
  }

  /** The sum of the impacts that raise the price, and the sum of those that do not. */
  function Raised(base: real, rules: seq<PricedRule>): real {
    if rules == [] then 0.0 else
    var last := |rules| - 1;
    var impact := Impact(base, rules, last);
    Raised(base, rules[..last]) + if impact > 0.0 then impact else 0.0
  }

  function Lowered(base: real, rules: seq<PricedRule>): real {
    if rules == [] then 0.0 else
    var last := |rules| - 1;
    var impact := Impact(base, rules, last);
    Lowered(base, rules[..last]) + if impact > 0.0 then 0.0 else -impact
  }

  lemma {:induction false} ProductOfAppend(rules: seq<PricedRule>, rule: PricedRule)
    ensures Product(rules + [rule]) == Product(rules) * rule.multiplier
  {
    if rules == [] {
      assert [rule][1..] == [];
    } else {
      ProductOfAppend(rules[1..], rule);
      assert (rules + [rule])[1..] == rules[1..] + [rule];
    }
  }

  lemma PriceOfStep(base: real, rules: seq<PricedRule>, i: nat)
    requires i < |rules|
    ensures Price(base, rules[..i + 1]) == Price(base, rules[..i]) * rules[i].multiplier
    ensures Impact(base, rules, i) == Price(base, rules[..i]) * (rules[i].multiplier - 1.0)
    ensures Impact(base, rules, i) == Price(base, rules[..i + 1]) - Price(base, rules[..i])
  {
    assert rules[..i + 1] == rules[..i] + [rules[i]];
    ProductOfAppend(rules[..i], rules[i]);
  }

  function TypeTotal(base: real, rules: seq<PricedRule>): real {
    ImpactOfType(base, rules, PeakHours) + ImpactOfType(base, rules, Seasonal)
    + ImpactOfType(base, rules, DemandBased) + ImpactOfType(base, rules, BulkDiscount)
    + ImpactOfType(base, rules, SpecialEvent)
  }

  function BreakdownTotal(b: Breakdown): real {
    EntryOf(b, PeakHours) + EntryOf(b, Seasonal) + EntryOf(b, DemandBased) + EntryOf(b, BulkDiscount)
    + EntryOf(b, SpecialEvent)
  }

  /** Two ways to account for the price, both exact: by direction and by type. */
  lemma {:induction false} PriceAccounts(base: real, rules: seq<PricedRule>)
    ensures Price(base, rules) == base + Raised(base, rules) - Lowered(base, rules)
    ensures Price(base, rules) == base + TypeTotal(base, rules)
    ensures Raised(base, rules) >= 0.0 && Lowered(base, rules) >= 0.0
  {
    if rules == [] {
    } else {
      var last := |rules| - 1;
      PriceAccounts(base, rules[..last]);
      assert rules[..last + 1] == rules;
    }
  }

  function SumOfImpacts(applied: seq<AppliedRule>): real {
    if applied == [] then 0.0 else applied[0].priceImpact + SumOfImpacts(applied[1..])
  }

  lemma {:induction false} SumOfAppended(applied: seq<AppliedRule>, a: AppliedRule)
    ensures SumOfImpacts(applied + [a]) == SumOfImpacts(applied) + a.priceImpact
  {
    if applied == [] {
    } else {
      SumOfAppended(applied[1..], a);
      assert (applied + [a])[1..] == applied[1..] + [a];
    }
  }

  // ----- the loop

  predicate Records(applied: seq<AppliedRule>, base: real, rules: seq<PricedRule>) {
    && |applied| <= |rules|
    && forall i :: 0 <= i < |applied| ==>
         applied[i] == AppliedRule(rules[i].id, rules[i].ruleType, rules[i].multiplier, Impact(base, rules, i))
  }

  predicate Occurs(ruleType: RuleType, rules: seq<PricedRule>) {
    exists i :: 0 <= i < |rules| && rules[i].ruleType == ruleType
  }

  predicate Breaks(b: Breakdown, base: real, rules: seq<PricedRule>) {
    && (forall ruleType :: ruleType in b <==> Occurs(ruleType, rules))
    && forall ruleType :: ruleType in b ==> b[ruleType] == ImpactOfType(base, rules, ruleType)
  }

  lemma NothingApplied(base: real)
    ensures Price(base, []) == base && Breaks(map[], base, [])
    ensures Raised(base, []) == 0.0 && Lowered(base, []) == 0.0
  {}

  lemma TotalsStep(base: real, rules: seq<PricedRule>, i: nat)
    requires i < |rules|
    ensures var impact := Impact(base, rules, i);
            && Raised(base, rules[..i + 1]) == Raised(base, rules[..i]) + (if impact > 0.0 then impact else 0.0)
            && Lowered(base, rules[..i + 1]) == Lowered(base, rules[..i]) + (if impact > 0.0 then 0.0 else -impact)
  {
    hide Price;
    assert rules[..i + 1][..i] == rules[..i] && rules[..i + 1][..i + 1] == rules[..i + 1];
  }

  lemma OccursInAppend(ruleType: RuleType, rules: seq<PricedRule>, rule: PricedRule)
    ensures Occurs(ruleType, rules + [rule]) <==> rule.ruleType == ruleType || Occurs(ruleType, rules)
  {
    var all := rules + [rule];
    assert all[|rules|] == rule;
    if Occurs(ruleType, rules) {
      var i :| 0 <= i < |rules| && rules[i].ruleType == ruleType;
      assert all[i].ruleType == ruleType;
    }
  }

  lemma TypeStep(base: real, rules: seq<PricedRule>, i: nat, ruleType: RuleType)
    requires i < |rules|
    ensures ImpactOfType(base, rules[..i + 1], ruleType)
            == ImpactOfType(base, rules[..i], ruleType)
               + if rules[i].ruleType == ruleType then Impact(base, rules, i) else 0.0
  {
    hide Price;
    assert rules[..i + 1][..i] == rules[..i] && rules[..i + 1][..i + 1] == rules[..i + 1];
  }

  lemma {:induction false} NoRulesOfType(base: real, rules: seq<PricedRule>, ruleType: RuleType)
    ensures !Occurs(ruleType, rules) ==> ImpactOfType(base, rules, ruleType) == 0.0
  {
    if rules == [] {
    } else {
      var last := |rules| - 1;
      NoRulesOfType(base, rules[..last], ruleType);
      OccursInAppend(ruleType, rules[..last], rules[last]);
      assert rules[..last] + [rules[last]] == rules;
    }
  }

  lemma BreakdownStep(b: Breakdown, base: real, rules: seq<PricedRule>, i: nat)
    requires i < |rules| && Breaks(b, base, rules[..i])
    ensures var t := rules[i].ruleType;
            Breaks(b[t := EntryOf(b, t) + Impact(base, rules, i)], base, rules[..i + 1])
  {
    hide Price;
    hide Impact;
    var before, now, t := rules[..i], rules[..i + 1], rules[i].ruleType;
    assert now == before + [rules[i]];
    NoRulesOfType(base, before, t);
    forall u: RuleType
      ensures Occurs(u, now) <==> u == t || Occurs(u, before)
      ensures ImpactOfType(base, now, u)
              == ImpactOfType(base, before, u) + if u == t then Impact(base, rules, i) else 0.0
    {
      OccursInAppend(u, before, rules[i]);
      TypeStep(base, rules, i, u);
    }
    hide Occurs;
    hide ImpactOfType;
  }

  lemma BreakdownIsTypeTotal(b: Breakdown, base: real, rules: seq<PricedRule>)
    requires Breaks(b, base, rules)
    ensures BreakdownTotal(b) == TypeTotal(base, rules)
  {
    forall t: RuleType
      ensures EntryOf(b, t) == ImpactOfType(base, rules, t)
    {
      NoRulesOfType(base, rules, t);
    }
  }

  // ----- what the reported figures say

  predicate RaisesPrice(a: AppliedRule) { a.priceImpact > 0.0 }

  predicate LowersPrice(a: AppliedRule) { a.priceImpact <= 0.0 }

  function HasType(ruleType: RuleType): AppliedRule -> bool { (a: AppliedRule) => a.ruleType == ruleType }

  lemma NothingReported(base: real, ruleType: RuleType)
    ensures Raised(base, []) == 0.0 && Lowered(base, []) == 0.0 && ImpactOfType(base, [], ruleType) == 0.0
    ensures SumOfImpacts([]) == 0.0
  {}

  lemma SelectOfStep(applied: seq<AppliedRule>, k: nat, passes: AppliedRule -> bool)
    requires 0 < k <= |applied|
    ensures var before := Select(applied[..k - 1], passes);
            Select(applied[..k], passes) == if passes(applied[k - 1]) then before + [applied[k - 1]] else before
  {
    assert applied[..k][..k - 1] == applied[..k - 1] && applied[..k][k - 1] == applied[k - 1];
    assert Select(applied[..k - 1], passes) + [] == Select(applied[..k - 1], passes);
  }

  /** The surcharge, the discount and the entries of the breakdown sum what the applied rules say,
      by the sign of their impact and by their type. */
  lemma {:induction false} ReportsAgree(applied: seq<AppliedRule>, base: real, rules: seq<PricedRule>, k: nat,
                                        ruleType: RuleType)
    requires Records(applied, base, rules) && k <= |applied|
    ensures Raised(base, rules[..k]) == SumOfImpacts(Select(applied[..k], RaisesPrice))
    ensures Lowered(base, rules[..k]) == -SumOfImpacts(Select(applied[..k], LowersPrice))
    ensures ImpactOfType(base, rules[..k], ruleType) == SumOfImpacts(Select(applied[..k], HasType(ruleType)))
  {
    hide Impact;
    hide Raised;
    hide Lowered;
    hide ImpactOfType;
    hide SumOfImpacts;
    hide Price;
    if k == 0 {
      assert rules[..0] == [] && applied[..0] == [];
      NothingReported(base, ruleType);
    } else {
      ReportsAgree(applied, base, rules, k - 1, ruleType);
      TotalsStep(base, rules, k - 1);
      TypeStep(base, rules, k - 1, ruleType);
      var a := applied[k - 1];
      assert applied[..k][..k - 1] == applied[..k - 1] && applied[..k][k - 1] == a;
      SumOfAppended(Select(applied[..k - 1], RaisesPrice), a);
      SumOfAppended(Select(applied[..k - 1], LowersPrice), a);
      SumOfAppended(Select(applied[..k - 1], HasType(ruleType)), a);
      SelectOfStep(applied, k, RaisesPrice);
      SelectOfStep(applied, k, LowersPrice);
      SelectOfStep(applied, k, HasType(ruleType));
    }
  }

  /** The price after the first k applied rules, as they report it. */
  function PriceAfter(base: real, applied: seq<AppliedRule>, k: nat): real
    requires k <= |applied|
  {
    base + SumOfImpacts(applied[..k])
  }

  /** Each applied rule reports what multiplying by it adds to the price it finds. */
  lemma {:induction false} PriceFollows(applied: seq<AppliedRule>, base: real, rules: seq<PricedRule>, k: nat)
    requires Records(applied, base, rules) && k <= |applied|
    ensures PriceAfter(base, applied, k) == Price(base, rules[..k])
    ensures k > 0 ==> PriceAfter(base, applied, k) == PriceAfter(base, applied, k - 1) * rules[k - 1].multiplier
  {
    hide Price;
    hide SumOfImpacts;
    if k == 0 {
      assert rules[..0] == [] && applied[..0] == [];
      NothingApplied(base);
      NothingReported(base, PeakHours);
    } else {
      PriceFollows(applied, base, rules, k - 1);
      PriceOfStep(base, rules, k - 1);
      assert applied[..k] == applied[..k - 1] + [applied[k - 1]];
      SumOfAppended(applied[..k - 1], applied[k - 1]);
    }
  }

  /** Rounding to cents is what it is called: a whole number of cents, as near as possible, and the
      higher one of two. */
  lemma RoundsToCents(x: real, y: real)
    ensures y == RoundToCents(x) <==> (y * 100.0).Floor as real == y * 100.0 && -0.005 < y - x <= 0.005
  {
    var cents := (x * 100.0 + 0.5).Floor;
    assert RoundToCents(x) * 100.0 == cents as real;
    assert x * 100.0 - 0.5 < cents as real <= x * 100.0 + 0.5;
    if (y * 100.0).Floor as real == y * 100.0 && -0.005 < y - x <= 0.005 {
      var other := (y * 100.0).Floor;
      assert x * 100.0 - 0.5 < other as real <= x * 100.0 + 0.5;
      assert -1.0 < other as real - cents as real < 1.0;
      assert other == cents;
    }
  }

  lemma Reported(applied: seq<AppliedRule>, b: Breakdown, base: real, rules: seq<PricedRule>)
    requires Records(applied, base, rules) && |applied| == |rules| && Breaks(b, base, rules)
    ensures forall k :: 0 < k <= |rules| ==>
              PriceAfter(base, applied, k) == PriceAfter(base, applied, k - 1) * rules[k - 1].multiplier
    ensures PriceAfter(base, applied, |rules|) == Price(base, rules)
    ensures Raised(base, rules) == SumOfImpacts(Select(applied, RaisesPrice))
    ensures Lowered(base, rules) == -SumOfImpacts(Select(applied, LowersPrice))
    ensures forall t :: EntryOf(b, t) == SumOfImpacts(Select(applied, HasType(t)))
  {
    hide Price;
    hide PriceAfter;
    hide Raised;
    hide Lowered;
    hide SumOfImpacts;
    hide Select;
    hide Records;
    hide ImpactOfType;
    assert rules[..|rules|] == rules && applied[..|applied|] == applied;
    forall k | 0 < k <= |rules|
      ensures PriceAfter(base, applied, k) == PriceAfter(base, applied, k - 1) * rules[k - 1].multiplier
    {
      PriceFollows(applied, base, rules, k);
    }
    PriceFollows(applied, base, rules, |rules|);
    forall t: RuleType
      ensures EntryOf(b, t) == SumOfImpacts(Select(applied, HasType(t)))
    {
      ReportsAgree(applied, base, rules, |rules|, t);
      NoRulesOfType(base, rules, t);
    }
    ReportsAgree(applied, base, rules, |rules|, PeakHours);
  }

  /** applyPricingRules: the price is the base times every multiplier, and the reported impacts,
      totals and breakdown entries each account for all of it. */
  method ApplyPricingRules(basePrice: real, rules: seq<PricedRule>) returns (result: PricingResult)
    ensures result.originalPrice == basePrice
    ensures result.finalPrice == RoundToCents(Price(basePrice, rules))
    ensures |result.appliedRules| == |rules| && Records(result.appliedRules, basePrice, rules)
    ensures Breaks(result.breakdown, basePrice, rules)
    ensures result.totalSurcharge == Raised(basePrice, rules)
    ensures result.totalDiscount == Lowered(basePrice, rules)
    ensures Price(basePrice, rules) == basePrice + SumOfImpacts(result.appliedRules)
    ensures Price(basePrice, rules) == basePrice + result.totalSurcharge - result.totalDiscount
    ensures Price(basePrice, rules) == basePrice + BreakdownTotal(result.breakdown)
    ensures forall k :: 0 < k <= |rules| ==>
              PriceAfter(basePrice, result.appliedRules, k)
              == PriceAfter(basePrice, result.appliedRules, k - 1) * rules[k - 1].multiplier
    ensures var exact := PriceAfter(basePrice, result.appliedRules, |rules|);
            && (result.finalPrice * 100.0).Floor as real == result.finalPrice * 100.0
            && -0.005 < result.finalPrice - exact <= 0.005
    ensures result.totalSurcharge == SumOfImpacts(Select(result.appliedRules, RaisesPrice))
    ensures result.totalDiscount == -SumOfImpacts(Select(result.appliedRules, LowersPrice))
    ensures forall t :: EntryOf(result.breakdown, t) == SumOfImpacts(Select(result.appliedRules, HasType(t)))
  {
    hide Price;
    hide Product;
    hide Impact;
    hide Occurs;
    hide ImpactOfType;
    hide Select;
    hide SumOfImpacts;
    hide PriceAfter;
    hide Raised;
    hide Lowered;
    hide Breaks;
    hide BreakdownTotal;
    hide TypeTotal;
    hide RoundToCents;
    var currentPrice := basePrice;
    var appliedRules: seq<AppliedRule> := [];
    var breakdown: Breakdown := map[];
    var totalDiscount, totalSurcharge := 0.0, 0.0;
    NothingApplied(basePrice);
    NothingReported(basePrice, PeakHours);
    assert rules[..0] == [];
    for i := 0 to |rules|
      invariant currentPrice == Price(basePrice, rules[..i])
      invariant |appliedRules| == i && Records(appliedRules, basePrice, rules)
      invariant currentPrice == basePrice + SumOfImpacts(appliedRules)
      invariant Breaks(breakdown, basePrice, rules[..i])
      invariant totalSurcharge == Raised(basePrice, rules[..i])
      invariant totalDiscount == Lowered(basePrice, rules[..i])
    {
      var rule := rules[i];
      var priceBeforeRule := currentPrice;
      var adjustment := currentPrice * (rule.multiplier - 1.0);
      currentPrice := currentPrice * rule.multiplier;
      var priceImpact := currentPrice - priceBeforeRule;
      PriceOfStep(basePrice, rules, i);
      var applied := AppliedRule(rule.id, rule.ruleType, rule.multiplier, priceImpact);
      SumOfAppended(appliedRules, applied);
      appliedRules := appliedRules + [applied];
      TotalsStep(basePrice, rules, i);
      BreakdownStep(breakdown, basePrice, rules, i);
      breakdown := breakdown[rule.ruleType := EntryOf(breakdown, rule.ruleType) + adjustment];
      if adjustment > 0.0 {
        totalSurcharge := totalSurcharge + adjustment;
      } else {
        totalDiscount := totalDiscount + -adjustment;
      }
    }
    assert rules[..|rules|] == rules;
    PriceAccounts(basePrice, rules);
    BreakdownIsTypeTotal(breakdown, basePrice, rules);
    var finalPrice := RoundToCents(currentPrice);
    Reported(appliedRules, breakdown, basePrice, rules);
    RoundsToCents(currentPrice, finalPrice);
    result := PricingResult(basePrice, finalPrice, totalDiscount, totalSurcharge, appliedRules, breakdown);
  }

  // ----- what does not depend on the order

  lemma {:induction false} ProductTakesOut(rules: seq<PricedRule>, i: nat)
    requires i < |rules|
    ensures Product(rules) == rules[i].multiplier * Product(rules[..i] + rules[i + 1..])
  {
    if i == 0 {
      assert rules[..0] + rules[1..] == rules[1..];
    } else {
      var without := rules[..i] + rules[i + 1..];
      assert without[1..] == rules[1..][..i - 1] + rules[1..][i..];
      assert without[0] == rules[0];
      assert Product(rules) == rules[0].multiplier * Product(rules[1..]);
      assert Product(without) == rules[0].multiplier * Product(without[1..]);
      hide Product;
      ProductTakesOut(rules[1..], i - 1);
    }
  }

  lemma Occurrence(a: seq<PricedRule>, b: seq<PricedRule>) returns (i: nat)
    requires a != [] && multiset(a) == multiset(b)
    ensures i < |b| && b[i] == a[0]
    ensures multiset(a[1..]) == multiset(b[..i] + b[i + 1..])
  {
    assert a[0] in multiset(b);
    i :| 0 <= i < |b| && b[i] == a[0];
    assert b == b[..i] + [b[i]] + b[i + 1..];
    assert a == [a[0]] + a[1..];
    assert multiset(b[..i] + b[i + 1..]) == multiset(b) - multiset{a[0]};
  }

  lemma {:induction false} ProductOfPermutation(a: seq<PricedRule>, b: seq<PricedRule>)
    requires multiset(a) == multiset(b)
    ensures Product(a) == Product(b)
  {
    if a == [] {
      assert |multiset(b)| == 0;
    } else {
      assert Product(a) == a[0].multiplier * Product(a[1..]);
      hide Product;
      var i := Occurrence(a, b);
      ProductOfPermutation(a[1..], b[..i] + b[i + 1..]);
      ProductTakesOut(b, i);
    }
  }

  /** The priority order of the rules decides how the price is split, never what it is. */
  lemma FinalPriceIgnoresOrder(base: real, a: seq<PricedRule>, b: seq<PricedRule>)
    requires multiset(a) == multiset(b)
    ensures RoundToCents(Price(base, a)) == RoundToCents(Price(base, b))
  {
    ProductOfPermutation(a, b);
    assert Price(base, a) == Price(base, b);
  }

  // ----- bounds

  /** The range the DTO allows a multiplier. */
  predicate AllowedMultiplier(m: real) { 0.1 <= m <= 10.0 }

  predicate AllAllowed(rules: seq<PricedRule>) {
    forall i :: 0 <= i < |rules| ==> AllowedMultiplier(rules[i].multiplier)
  }

  function TenTo(n: nat): (p: real)
    ensures p > 0.0
  {
    if n == 0 then 1.0 else 10.0 * TenTo(n - 1)
  }

  lemma MulMonotone(k: real, x: real, y: real)
    requires k >= 0.0 && x <= y
    ensures x * k <= y * k && k * x <= k * y
  {}

  lemma OneMoreFactor(m: real, p: real, ten: real)
    requires AllowedMultiplier(m) && 0.0 < p <= ten && 1.0 <= p * ten
    ensures 0.0 < m * p <= 10.0 * ten && 1.0 <= m * p * (10.0 * ten)
  {
    MulMonotone(p, m, 10.0);
    MulMonotone(p * ten, 0.1, m);
    assert m * p * (10.0 * ten) == 10.0 * (m * (p * ten));
  }

  lemma {:induction false} ProductBounds(rules: seq<PricedRule>)
    requires AllAllowed(rules)
    ensures 1.0 <= Product(rules) * TenTo(|rules|) && 0.0 < Product(rules) <= TenTo(|rules|)
  {
    if rules == [] {
    } else {
      ProductBounds(rules[1..]);
      OneMoreFactor(rules[0].multiplier, Product(rules[1..]), TenTo(|rules| - 1));
    }
  }

  lemma SignOfFactor(z: real, k: real)
    requires k > 0.0
    ensures z * k >= 0.0 ==> z >= 0.0
  {
    if z < 0.0 {
      assert z * k < 0.0;
    }
  }

  lemma DivideBound(x: real, y: real, k: real)
    requires k > 0.0 && x <= y * k
    ensures x / k <= y
  {
    assert (y - x / k) * k == y * k - x;
    SignOfFactor(y - x / k, k);
  }

  lemma ScaledBounds(base: real, p: real, ten: real, price: real)
    requires base >= 0.0 && 0.0 < p <= ten && 1.0 <= p * ten && price == base * p
    ensures base / ten <= price <= base * ten
  {
    MulMonotone(base, p, ten);
    MulMonotone(base, 1.0, p * ten);
    assert base * p * ten == base * (p * ten);
    DivideBound(base, price, ten);
  }

  lemma AsFactors(base: real, rules: seq<PricedRule>)
    ensures Price(base, rules) == base * Product(rules)
  {}

  /** Before rounding, n rules move a price by at most a factor of 10 to the n either way. */
  lemma PriceBounds(base: real, rules: seq<PricedRule>)
    requires base >= 0.0 && forall i :: 0 <= i < |rules| ==> 0.1 <= rules[i].multiplier <= 10.0
    ensures base / TenTo(|rules|) <= Price(base, rules) <= base * TenTo(|rules|)
  {
    ProductBounds(rules);
    AsFactors(base, rules);
    hide Price;
    hide Product;
    hide TenTo;
    ScaledBounds(base, Product(rules), TenTo(|rules|), Price(base, rules));
  }

  lemma RoundingIsMonotone(x: real, y: real)
    requires x <= y
    ensures RoundToCents(x) <= RoundToCents(y)
  {
    var a, b := (x * 100.0 + 0.5).Floor, (y * 100.0 + 0.5).Floor;
    assert a <= b;
  }

  /** The final price is within half a cent of the exact one. */
  lemma RoundingError(x: real)
    ensures -0.005 <= RoundToCents(x) - x <= 0.005
  {
    var cents := (x * 100.0 + 0.5).Floor as real;
    assert x * 100.0 - 0.5 <= cents <= x * 100.0 + 0.5;
  }

  lemma InsertedFactor(before: seq<PricedRule>, rule: PricedRule, after: seq<PricedRule>)
    ensures Product(before + [rule] + after) == rule.multiplier * Product(before + after)
  {
    hide Product;
    var all := before + [rule] + after;
    ProductTakesOut(all, |before|);
    assert all[..|before|] + all[|before| + 1..] == before + after;
  }

  lemma MulStrictlyMonotone(k: real, x: real, y: real)
    requires k > 0.0 && x < y
    ensures x * k < y * k && k * x < k * y
  {}

  lemma ScaleByOneOrMore(p: real, m: real)
    requires p > 0.0
    ensures m * p >= p <==> m >= 1.0
  {
    if m >= 1.0 {
      MulMonotone(p, 1.0, m);
    } else {
      MulStrictlyMonotone(p, m, 1.0);
    }
  }

  lemma ScaledPrice(base: real, p: real, m: real, scaled: real)
    requires base >= 0.0 && p > 0.0 && scaled == m * p
    ensures base * scaled >= base * p <==> m >= 1.0 || base == 0.0
  {
    ScaleByOneOrMore(p, m);
    if base > 0.0 {
      if m >= 1.0 {
        MulMonotone(base, p, scaled);
      } else {
        MulStrictlyMonotone(base, scaled, p);
      }
    }
  }

  /** Putting one more rule anywhere into the list raises or keeps the exact price of a booking
      precisely when its multiplier is at least one, and then the rounded price does not fall
      either. A price of zero stays zero under every rule. */
  lemma AddingARule(base: real, before: seq<PricedRule>, rule: PricedRule, after: seq<PricedRule>)
    requires base >= 0.0 && AllAllowed(before + after)
    ensures Price(base, before + [rule] + after) >= Price(base, before + after)
            <==> rule.multiplier >= 1.0 || base == 0.0
    ensures rule.multiplier >= 1.0
            ==> RoundToCents(Price(base, before + [rule] + after)) >= RoundToCents(Price(base, before + after))
  {
    hide RoundToCents;
    ProductBounds(before + after);
    InsertedFactor(before, rule, after);
    ScaledPrice(base, Product(before + after), rule.multiplier, Product(before + [rule] + after));
    AsFactors(base, before + after);
    AsFactors(base, before + [rule] + after);
    hide Price;
    hide Product;
    hide TenTo;
    if rule.multiplier >= 1.0 {
      RoundingIsMonotone(Price(base, before + after), Price(base, before + [rule] + after));
    }
  }
}
