/** The two population moves of `CityInfectionModel`: `city_make_infected`
    (S to I) and `city_make_dead` (I to D). Both clamp the requested count to
    what the source compartment holds, so no count ever goes negative. */
module Compartments {
  import opened Results
  import opened Store

  function Min(a: int, b: int): int {
    if a <= b then a else b
  }

  /** Move up to `n` people of a cell from S to I. */
  function Infect(c: Cell, n: nat): (r: Cell)
    ensures r.d == c.d && r.itimes == c.itimes
    ensures r.s <= c.s
    ensures n >= c.s ==> r.s == 0
    ensures n < c.s ==> r.s == c.s - n
    ensures c.s + c.i < 256 ==> r.s + r.i == c.s + c.i
  {
    var k := if c.s <= n then c.s else n;
    c.(s := c.s - k, i := Wrap(c.i + k))
  }

  /** Move up to `n` people of a cell from I to D. */
  function Kill(c: Cell, n: nat): (r: Cell)
    ensures r.s == c.s && r.itimes == c.itimes
    ensures r.i <= c.i
    ensures n >= c.i ==> r.i == 0
    ensures n < c.i ==> r.i == c.i - n
    ensures c.i + c.d < 256 ==> r.i + r.d == c.i + c.d
  {
    var k := if c.i <= n then c.i else n;
    c.(i := c.i - k, d := Wrap(c.d + k))
  }

  /** Clamping: asking for more than S infects exactly S, and what leaves S
      arrives in I, so S + I + D is conserved. */
  lemma InfectConserves(c: Cell, n: nat)
    requires Population(c) < 256
    ensures c.s - Infect(c, n).s == Min(n, c.s)
    ensures Infect(c, n).i == c.i + Min(n, c.s)
    ensures Population(Infect(c, n)) == Population(c)
  {
  }

  lemma KillConserves(c: Cell, n: nat)
    requires Population(c) < 256
    ensures c.i - Kill(c, n).i == Min(n, c.i)
    ensures Kill(c, n).d == c.d + Min(n, c.i)
    ensures Population(Kill(c, n)) == Population(c)
  {
  }

  /** The cell of `city` at time `t`: its slot and column, or the exception the
      Python indexing raises (the city lookup happens first). */
  function Locate(m: Model, city: City, t: int): (r: Result<(nat, nat)>)
    requires Wf(m)
    ensures r.Ok? <==> city in m.nodes && StepIndex(t, m.maxSteps).Ok?
    ensures city !in m.nodes ==> r == Err(UnknownCity(city))
    ensures r.Ok? ==> r.value.0 < |m.nodes| && r.value.1 < m.maxSteps
    ensures r.Ok? ==> CityIndex(m.nodes, city) == Ok(r.value.0)
    ensures r.Ok? ==> StepIndex(t, m.maxSteps) == Ok(r.value.1)
  {
    var j :- CityIndex(m.nodes, city);
    var v :- StepIndex(t, m.maxSteps);
    Ok((j, v))
  }

  /** `city_make_infected(city, t, n)`. */
  function MakeInfected(m: Model, city: City, t: int, n: nat): (r: Result<Model>)
    requires Wf(m)
    ensures r.Ok? <==> city in m.nodes && StepIndex(t, m.maxSteps).Ok?
    ensures city !in m.nodes ==> r == Err(UnknownCity(city))
    ensures r.Ok? ==> Wf(r.value) && r.value.(history := m.history) == m
    ensures r.Ok? ==>
      var (j, v) := Locate(m, city, t).value;
      && r.value.history[j][v] == Infect(m.history[j][v], n)
      && forall k, w :: 0 <= k < |m.nodes| && 0 <= w < m.maxSteps && (k != j || w != v) ==>
           r.value.history[k][w] == m.history[k][w]
  {
    var (j, v) :- Locate(m, city, t);
    Ok(m.(history := SetCell(m.history, j, v, Infect(m.history[j][v], n))))
  }

  /** `city_make_dead(city, t, n)`. */
  function MakeDead(m: Model, city: City, t: int, n: nat): (r: Result<Model>)
    requires Wf(m)
    ensures r.Ok? <==> city in m.nodes && StepIndex(t, m.maxSteps).Ok?
    ensures city !in m.nodes ==> r == Err(UnknownCity(city))
    ensures r.Ok? ==> Wf(r.value) && r.value.(history := m.history) == m
    ensures r.Ok? ==>
      var (j, v) := Locate(m, city, t).value;
      && r.value.history[j][v] == Kill(m.history[j][v], n)
      && forall k, w :: 0 <= k < |m.nodes| && 0 <= w < m.maxSteps && (k != j || w != v) ==>
           r.value.history[k][w] == m.history[k][w]
  {
    var (j, v) :- Locate(m, city, t);
    Ok(m.(history := SetCell(m.history, j, v, Kill(m.history[j][v], n))))
  }
}
