/** Intra-city dynamics: `SIR_step_one_city`. Both transition counts are
    truncated products of the SAME pre-step infected count; infection is
    applied first, then death. */
module IntraCity {
  import opened Results
  import opened Store
  import opened Compartments

  /** Infection and mortality rates the model can run with. Negative rates
      would hand negative counts to the clamped moves. */
  predicate NonNegativeRates(r: Rates) {
    r.infection >= 0.0 && r.mortality >= 0.0
  }

  /** Python's `int(x)` on a non-negative float: truncation toward zero. */
  function Truncate(x: real): (n: nat)
    requires x >= 0.0
    ensures n as real <= x < n as real + 1.0
  {
    x.Floor
  }

  /** `num_to_infect`: zero once the city has no susceptibles left. */
  function ToInfect(c: Cell, rates: Rates): (r: nat)
    requires NonNegativeRates(rates)
    ensures c.s == 0 ==> r == 0
    ensures c.s > 0 ==> r as real <= c.i as real * rates.infection < r as real + 1.0
  {
    if c.s > 0 then Truncate(c.i as real * rates.infection) else 0
  }

  /** `num_to_die`, computed whether or not anyone is left to infect. */
  function ToDie(c: Cell, rates: Rates): (r: nat)
    requires NonNegativeRates(rates)
    ensures r as real <= c.i as real * rates.mortality < r as real + 1.0
  {
    Truncate(c.i as real * rates.mortality)
  }

  /** One city's SIR update of one cell. */
  function SirCell(c: Cell, rates: Rates): (r: Cell)
    requires NonNegativeRates(rates)
    ensures r.itimes == c.itimes
    ensures r.s <= c.s
    ensures Population(c) < 256 ==> Population(r) == Population(c) && r.d >= c.d
    ensures c.i == 0 ==> r == c
  {
    Kill(Infect(c, ToInfect(c, rates)), ToDie(c, rates))
  }

  /** Exact effect of one SIR update on a cell without byte overflow: S loses
      the clamped infection count, D gains the death count computed from the
      pre-step I, clamped by the post-infection I. */
  lemma SirCellCounts(c: Cell, rates: Rates)
    requires NonNegativeRates(rates)
    requires Population(c) < 256
    ensures var r := SirCell(c, rates);
      && c.s - r.s == Min(ToInfect(c, rates), c.s)
      && r.d - c.d == Min(ToDie(c, rates), c.i + (c.s - r.s))
      && r.i == c.i + (c.s - r.s) - (r.d - c.d)
  {
  }

  /** A city whose susceptibles are exhausted gets no new infections, only deaths. */
  lemma SirCellExhausted(c: Cell, rates: Rates)
    requires NonNegativeRates(rates)
    requires Population(c) < 256 && c.s == 0
    ensures SirCell(c, rates).s == 0
    ensures SirCell(c, rates).i == c.i - Min(ToDie(c, rates), c.i)
  {
  }

  /** `SIR_step_one_city(city, t)`: update the cell of `city` at `t`, nothing else. */
  function SirStepOneCity(m: Model, city: City, t: int): (r: Result<Model>)
    requires Wf(m) && NonNegativeRates(m.rates)
    ensures r.Ok? <==> city in m.nodes && StepIndex(t, m.maxSteps).Ok?
    ensures city !in m.nodes ==> r == Err(UnknownCity(city))
    ensures r.Ok? ==> Wf(r.value) && r.value.(history := m.history) == m
    ensures r.Ok? ==>
      var (j, v) := Locate(m, city, t).value;
      && r.value.history[j][v] == SirCell(m.history[j][v], m.rates)
      && forall k, w :: 0 <= k < |m.nodes| && 0 <= w < m.maxSteps && (k != j || w != v) ==>
           r.value.history[k][w] == m.history[k][w]
    ensures r.Ok? && m.history[Locate(m, city, t).value.0][Locate(m, city, t).value.1].i == 0 ==>
      r.value == m
  {
    var (j, v) :- Locate(m, city, t);
    var m' := m.(history := SetCell(m.history, j, v, SirCell(m.history[j][v], m.rates)));
    Ok(m')
  }
}
