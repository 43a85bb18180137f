/** Prices per million tokens, and the exact cost of a cell or an event. */
module Pricing {
  import opened Wrappers
  import Text
  import opened UsageIndex

  datatype Rates = Rates(input: real, output: real, cachedInput: real, cacheRead: real)

  predicate NonNegative(r: Rates) { r.input >= 0.0 && r.output >= 0.0 && r.cachedInput >= 0.0 && r.cacheRead >= 0.0 }

  /** Prices by normalised model name, none of them negative. */
  type CostTable = t: map<string, Rates> | forall m :: m in t ==> NonNegative(t[m]) witness map[]

  /** `LookupCost`. */
  function LookupCost(table: CostTable, model: string): Option<Rates> {
    var key := Text.NormalName(model);
    if key == "" || key !in table then None else Some(table[key])
  }

  function Charge(tokens: nat, rate: real): real { tokens as real / 1000000.0 * rate }

  function RatedCost(r: Rates, c: AggCell): real {
    Charge(c.input, r.input) + Charge(c.output, r.output) + Charge(c.cacheCreation, r.cachedInput)
      + Charge(c.cached, r.cacheRead)
  }

  /** `aggCellCost`: an unknown model is free of charge. */
  function CellCost(table: CostTable, model: string, c: AggCell): real {
    match LookupCost(table, model)
    case Some(r) => RatedCost(r, c)
    case None => 0.0
  }

  /** `computeCost`: the price of one request. */
  function RequestCost(table: CostTable, model: string, input: nat, output: nat, cached: nat,
                       cacheCreation: nat): real {
    match LookupCost(table, model)
    case Some(r) => Charge(input, r.input) + Charge(output, r.output) + Charge(cacheCreation, r.cachedInput)
                    + Charge(cached, r.cacheRead)
    case None => 0.0
  }

  lemma ChargeAdds(a: nat, b: nat, rate: real)
    ensures Charge(a + b, rate) == Charge(a, rate) + Charge(b, rate)
    ensures rate >= 0.0 ==> Charge(a, rate) >= 0.0
  {
    assert (a + b) as real == a as real + b as real;
    assert (a as real + b as real) / 1000000.0 == a as real / 1000000.0 + b as real / 1000000.0;
  }

  /** Cost is additive over cells and never negative, so pricing a sum of cells is
      summing their prices. */
  lemma CellCostAdds(table: CostTable, model: string, a: AggCell, b: AggCell)
    ensures CellCost(table, model, Plus(a, b)) == CellCost(table, model, a) + CellCost(table, model, b)
    ensures CellCost(table, model, EMPTY_CELL) == 0.0 && CellCost(table, model, a) >= 0.0
  {
    match LookupCost(table, model)
    case Some(r) =>
      ChargeAdds(a.input, b.input, r.input);
      ChargeAdds(a.output, b.output, r.output);
      ChargeAdds(a.cacheCreation, b.cacheCreation, r.cachedInput);
      ChargeAdds(a.cached, b.cached, r.cacheRead);
    case None =>
  }

  /** The price charged on the spot is the price of the event's cell. */
  lemma RequestCostIsCellCost(table: CostTable, e: Event)
    ensures RequestCost(table, e.model, e.input, e.output, e.cached, e.cacheCreation)
         == CellCost(table, e.model, EventCell(e))
    ensures RequestCost(table, e.model, e.input, e.output, e.cached, e.cacheCreation) >= 0.0
  {
    CellCostAdds(table, e.model, EventCell(e), EMPTY_CELL);
  }

  // ---------------------------------------------------------------------------
  // What a token costs

  /** The rates stored under the model's trimmed, lower-cased name. */
  ghost predicate Priced(table: CostTable, model: string, r: Rates) {
    Text.NormalName(model) != "" && Text.NormalName(model) in table && table[Text.NormalName(model)] == r
  }

  lemma ChargeOf(tokens: nat, rate: real)
    ensures Charge(tokens, rate) * 1000000.0 == tokens as real * rate && Charge(0, rate) == 0.0
  {
    var t := tokens as real;
    assert t / 1000000.0 * rate * 1000000.0 == t * rate * (1000000.0 / 1000000.0);
  }

  /** A request with tokens of one kind only costs a millionth of their number times the rate
      of that kind; tokens that create a cache entry go at the rate for cached input. As
      cost is additive this fixes every price. */
  lemma PriceByKind(table: CostTable, model: string, r: Rates, tokens: nat)
    requires Priced(table, model, r)
    ensures RequestCost(table, model, tokens, 0, 0, 0) * 1000000.0 == tokens as real * r.input
    ensures RequestCost(table, model, 0, tokens, 0, 0) * 1000000.0 == tokens as real * r.output
    ensures RequestCost(table, model, 0, 0, tokens, 0) * 1000000.0 == tokens as real * r.cacheRead
    ensures RequestCost(table, model, 0, 0, 0, tokens) * 1000000.0 == tokens as real * r.cachedInput
  {
    hide Charge;
    ChargeOf(tokens, r.input);
    ChargeOf(tokens, r.output);
    ChargeOf(tokens, r.cacheRead);
    ChargeOf(tokens, r.cachedInput);
  }

  /** The price of a request is the sum over its four kinds of tokens. */
  lemma PriceIsSum(table: CostTable, model: string, r: Rates, input: nat, output: nat, cached: nat, cacheCreation: nat)
    requires Priced(table, model, r)
    ensures RequestCost(table, model, input, output, cached, cacheCreation) * 1000000.0
         == input as real * r.input + output as real * r.output + cached as real * r.cacheRead
            + cacheCreation as real * r.cachedInput
  {
    hide Charge;
    ChargeOf(input, r.input);
    ChargeOf(output, r.output);
    ChargeOf(cached, r.cacheRead);
    ChargeOf(cacheCreation, r.cachedInput);
  }

  /** A stored cell costs what its tokens cost, kind by kind. */
  lemma CellPriceIsSum(table: CostTable, model: string, r: Rates, c: AggCell)
    requires Priced(table, model, r)
    ensures CellCost(table, model, c) * 1000000.0
         == c.input as real * r.input + c.output as real * r.output + c.cached as real * r.cacheRead
            + c.cacheCreation as real * r.cachedInput
  {
    hide Charge;
    ChargeOf(c.input, r.input);
    ChargeOf(c.output, r.output);
    ChargeOf(c.cached, r.cacheRead);
    ChargeOf(c.cacheCreation, r.cachedInput);
  }

  /** A model without rates is free. */
  lemma UnknownModelFree(table: CostTable, model: string, input: nat, output: nat, cached: nat, cacheCreation: nat)
    requires forall r :: !Priced(table, model, r)
    ensures RequestCost(table, model, input, output, cached, cacheCreation) == 0.0
  {
    var key := Text.NormalName(model);
    assert key != "" && key in table ==> Priced(table, model, table[key]);
  }
}
