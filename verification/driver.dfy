/** The simulation driver of `CityInfectionModel`: construction, copy-forward,
    the two per-step phases over a frozen snapshot of the infected set, one
    complete step, and a run of consecutive steps.

    Python iterates a `frozenset` in hash order, which the program does not fix;
    the phase methods therefore pick the next city of the snapshot with `:|`
    and every contract holds whatever order is picked. */
module Driver {
  import opened Results
  import opened Store
  import opened Compartments
  import opened IntraCity
  import opened InterCity

  /** People present at time 0 in a city listed as initially infected. */
  const Inoculum: nat := 10

  /** The cities of a list, as a set. */
  function Elements(cities: seq<City>): (r: set<City>)
    ensures forall c :: c in r <==> c in cities
  {
    set k | 0 <= k < |cities| :: cities[k]
  }

  /** The cities of a non-empty list are those of all but its last entry,
      plus the last; in a list without repetitions the last is not among
      the others. */
  lemma ElementsLast(cities: seq<City>)
    requires |cities| > 0
    ensures Elements(cities) == Elements(cities[..|cities| - 1]) + {cities[|cities| - 1]}
    ensures (forall i, k :: 0 <= i < k < |cities| ==> cities[i] != cities[k]) ==>
      cities[|cities| - 1] !in Elements(cities[..|cities| - 1])
  {
    assert cities == cities[..|cities| - 1] + [cities[|cities| - 1]];
  }

  /** How often `c` occurs in `cities`. */
  function Count(cities: seq<City>, c: City): (r: nat)
    ensures r == multiset(cities)[c]
    ensures r == 0 <==> c !in cities
  {
    if |cities| == 0 then 0
    else
      assert cities == [cities[0]] + cities[1..];
      (if cities[0] == c then 1 else 0) + Count(cities[1..], c)
  }

  /** Moving up to `a` and then up to `b` people out of a pool of `s` moves up
      to `a + b`. */
  lemma MinAdd(a: nat, b: nat, s: nat)
    ensures Min(a, s) + Min(b, s - Min(a, s)) == Min(a + b, s)
  {
  }

  /** Seed every listed city, in order, with `Inoculum` infected at step 0 and
      add it to the infected set; a repeated city is seeded again. */
  function Seed(m: Model, cities: seq<City>): (r: Result<Model>)
    requires Wf(m) && m.maxSteps >= 1
    decreases |cities|
    ensures r.Ok? <==> forall k :: 0 <= k < |cities| ==> cities[k] in m.nodes
    ensures r.Ok? ==> Wf(r.value) && r.value.(history := m.history, infected := m.infected) == m
    ensures r.Ok? ==> r.value.infected == m.infected + Elements(cities)
  {
    if |cities| == 0 then Ok(m)
    else
      match MakeInfected(m, cities[0], 0, Inoculum)
      case Err(e) => Err(e)
      case Ok(m1) => Seed(m1.(infected := m1.infected + {cities[0]}), cities[1..])
  }

  /** Seeding writes column 0 only, and there only the first slot of each
      city. */
  lemma {:induction false} SeedUntouched(m: Model, cities: seq<City>, j: nat, w: nat)
    requires Wf(m) && m.maxSteps >= 1 && j < |m.nodes| && w < m.maxSteps
    requires Seed(m, cities).Ok?
    decreases |cities|
    ensures w != 0 || CityIndex(m.nodes, m.nodes[j]) != Ok(j) ==>
      Seed(m, cities).value.history[j][w] == m.history[j][w]
  {
    if |cities| > 0 {
      var city := cities[0];
      var m1 := MakeInfected(m, city, 0, Inoculum).value;
      var m2 := m1.(infected := m1.infected + {city});
      SeedStepCell(m, city, j, w);
      assert Seed(m, cities) == Seed(m2, cities[1..]);
      SeedUntouched(m2, cities[1..], j, w);
    }
  }

  /** `q` inoculations of one cell. */
  function InfectTimes(c: Cell, q: nat): (r: Cell)
    ensures r.d == c.d && r.itimes == c.itimes
    ensures r.s <= c.s
    ensures c.s + c.i < 256 ==> r.s + r.i == c.s + c.i
    decreases q
  {
    if q == 0 then c else InfectTimes(Infect(c, Inoculum), q - 1)
  }

  /** `q` inoculations move up to `q * Inoculum` people from S to I (clamped
      by S; exact as long as the byte does not overflow). */
  lemma {:induction false} InfectTimesMoves(c: Cell, q: nat)
    requires c.s + c.i < 256
    decreases q
    ensures InfectTimes(c, q) == Cell(c.s - Min(Inoculum * q, c.s), c.i + Min(Inoculum * q, c.s), c.d, c.itimes)
  {
    if q > 0 {
      var c2 := Infect(c, Inoculum);
      InfectTimesMoves(c2, q - 1);
      MinAdd(Inoculum, Inoculum * (q - 1), c.s);
    }
  }

  /** The inoculation of one slot: the first slot of a city listed `q` times
      is inoculated `q` times, in list order. */
  lemma {:induction false} SeedCells(m: Model, cities: seq<City>, j: nat)
    requires Wf(m) && m.maxSteps >= 1 && j < |m.nodes|
    requires Seed(m, cities).Ok?
    decreases |cities|
    ensures CityIndex(m.nodes, m.nodes[j]) == Ok(j) ==>
      Seed(m, cities).value.history[j][0] == InfectTimes(m.history[j][0], Count(cities, m.nodes[j]))
  {
    if |cities| > 0 {
      var city := cities[0];
      var m1 := MakeInfected(m, city, 0, Inoculum).value;
      var m2 := m1.(infected := m1.infected + {city});
      SeedStepCell(m, city, j, 0);
      assert Seed(m, cities) == Seed(m2, cities[1..]);
      SeedCells(m2, cities[1..], j);
      var c, n := m.history[j][0], Count(cities[1..], m.nodes[j]);
      if m.nodes[j] == city {
        assert Count(cities, m.nodes[j]) == n + 1;
        assert InfectTimes(c, n + 1) == InfectTimes(Infect(c, Inoculum), n);
      } else {
        assert Count(cities, m.nodes[j]) == n;
      }
    }
  }

  /** Seeding `city` once: the first slot of `city` is inoculated at
      column 0, every other cell is kept. */
  lemma SeedStepCell(m: Model, city: City, j: nat, w: nat)
    requires Wf(m) && m.maxSteps >= 1 && j < |m.nodes| && w < m.maxSteps
    requires MakeInfected(m, city, 0, Inoculum).Ok?
    ensures var m1 := MakeInfected(m, city, 0, Inoculum).value;
      && m1.nodes == m.nodes && m1.maxSteps == m.maxSteps
      && m1.history[j][w] ==
           if w == 0 && m.nodes[j] == city && CityIndex(m.nodes, city) == Ok(j) then Infect(m.history[j][w], Inoculum)
           else m.history[j][w]
  {
    var v := Locate(m, city, 0).value;
    assert v.1 == 0;
  }

  /** `CityInfectionModel(nodes, max_steps, init_infected, model_rates)`. */
  function NewModel(nodes: seq<City>, maxSteps: nat, initInfected: seq<City>, rates: Option<Rates>): (r: Result<Model>)
    ensures r.Ok? <==> maxSteps >= 1 && forall k :: 0 <= k < |initInfected| ==> initInfected[k] in nodes
    ensures r.Ok? ==> Wf(r.value) && r.value.nodes == nodes && r.value.maxSteps == maxSteps
    ensures r.Ok? ==> r.value.rates == rates.GetOr(DefaultRates)
    ensures r.Ok? ==> r.value.infected == Elements(initInfected)
    ensures r.Ok? ==> Conserved(r.value, 0)
    ensures r.Ok? ==> forall j :: 0 <= j < |nodes| && nodes[j] !in initInfected ==>
      r.value.history[j][0] == Cell(InitialPopulation, 0, 0, 0)
    ensures r.Ok? ==> forall j, w :: 0 <= j < |nodes| && 1 <= w < maxSteps ==> r.value.history[j][w] == Zero
    ensures r.Ok? ==> forall j :: 0 <= j < |nodes| && CityIndex(nodes, nodes[j]) != Ok(j) ==>
      r.value.history[j][0] == Cell(InitialPopulation, 0, 0, 0)
    ensures r.Ok? ==> forall j :: 0 <= j < |nodes| && CityIndex(nodes, nodes[j]) == Ok(j) ==>
      var seeded := Min(Inoculum * Count(initInfected, nodes[j]), InitialPopulation);
      r.value.history[j][0] == Cell(InitialPopulation - seeded, seeded, 0, 0)
  {
    if maxSteps == 0 then Err(StepOutOfRange(0))
    else
      var r := Seed(Fresh(nodes, maxSteps, rates.GetOr(DefaultRates)), initInfected);
      if r.Ok? then
        SeedFresh(nodes, maxSteps, initInfected, rates.GetOr(DefaultRates), r.value);
        SeedFreshCells(nodes, maxSteps, initInfected, rates.GetOr(DefaultRates), r.value);
        r
      else r
  }

  /** The model before seeding: every city holds the initial population at
      step 0, every later column is zero, nobody is infected. */
  function Fresh(nodes: seq<City>, maxSteps: nat, rates: Rates): (m: Model)
    requires maxSteps >= 1
    ensures Wf(m) && m.nodes == nodes && m.maxSteps == maxSteps && m.rates == rates && m.infected == {}
    ensures forall j :: 0 <= j < |nodes| ==> m.history[j][0] == Cell(InitialPopulation, 0, 0, 0)
    ensures forall j, w :: 0 <= j < |nodes| && 1 <= w < maxSteps ==> m.history[j][w] == Zero
  {
    Model(nodes, maxSteps, rates, Allocate(|nodes|, maxSteps), {})
  }

  /** Seeding a fresh model keeps its shape and its initial population,
      infects exactly the listed cities and touches column 0 only, and there
      only the slots of listed cities. */
  lemma SeedFresh(nodes: seq<City>, maxSteps: nat, initInfected: seq<City>, rates: Rates, r: Model)
    requires maxSteps >= 1 && Seed(Fresh(nodes, maxSteps, rates), initInfected) == Ok(r)
    ensures Wf(r) && r.nodes == nodes && r.maxSteps == maxSteps && r.rates == rates
    ensures r.infected == Elements(initInfected)
    ensures Conserved(r, 0)
    ensures forall j :: 0 <= j < |nodes| && nodes[j] !in initInfected ==>
      r.history[j][0] == Cell(InitialPopulation, 0, 0, 0)
    ensures forall j, w :: 0 <= j < |nodes| && 1 <= w < maxSteps ==> r.history[j][w] == Zero
  {
    var m := Fresh(nodes, maxSteps, rates);
    forall j | 0 <= j < |nodes|
      ensures Population(r.history[j][0]) == InitialPopulation as nat
      ensures nodes[j] !in initInfected ==> r.history[j][0] == Cell(InitialPopulation, 0, 0, 0)
    {
      SeedUntouched(m, initInfected, j, 0);
      SeedCells(m, initInfected, j);
      assert Population(m.history[j][0]) < 256;
    }
    forall j, w | 0 <= j < |nodes| && 1 <= w < maxSteps
      ensures r.history[j][w] == Zero
    {
      SeedUntouched(m, initInfected, j, w);
    }
  }

  /** The cells of a seeded fresh model: a slot that is not the first of its
      city keeps the initial population, the first slot of a city listed `q`
      times holds `min(q * Inoculum, InitialPopulation)` infected and the
      rest susceptible. */
  lemma SeedFreshCells(nodes: seq<City>, maxSteps: nat, initInfected: seq<City>, rates: Rates, r: Model)
    requires maxSteps >= 1 && Seed(Fresh(nodes, maxSteps, rates), initInfected) == Ok(r)
    ensures forall j :: 0 <= j < |nodes| && CityIndex(nodes, nodes[j]) != Ok(j) ==>
      r.history[j][0] == Cell(InitialPopulation, 0, 0, 0)
    ensures forall j :: 0 <= j < |nodes| && CityIndex(nodes, nodes[j]) == Ok(j) ==>
      var seeded := Min(Inoculum * Count(initInfected, nodes[j]), InitialPopulation);
      r.history[j][0] == Cell(InitialPopulation - seeded, seeded, 0, 0)
  {
    forall j | 0 <= j < |nodes| {
      SeedFreshCell(nodes, maxSteps, initInfected, rates, r, j);
    }
  }

  /** `SeedFreshCells` at one slot. */
  lemma SeedFreshCell(nodes: seq<City>, maxSteps: nat, initInfected: seq<City>, rates: Rates, r: Model, j: nat)
    requires maxSteps >= 1 && Seed(Fresh(nodes, maxSteps, rates), initInfected) == Ok(r) && j < |nodes|
    ensures CityIndex(nodes, nodes[j]) != Ok(j) ==> r.history[j][0] == Cell(InitialPopulation, 0, 0, 0)
    ensures CityIndex(nodes, nodes[j]) == Ok(j) ==>
      var seeded := Min(Inoculum * Count(initInfected, nodes[j]), InitialPopulation);
      r.history[j][0] == Cell(InitialPopulation - seeded, seeded, 0, 0)
  {
    var m := Fresh(nodes, maxSteps, rates);
    var c := m.history[j][0];
    assert c == Cell(InitialPopulation, 0, 0, 0);
    SeedUntouched(m, initInfected, j, 0);
    if CityIndex(nodes, nodes[j]) == Ok(j) {
      var q := Count(initInfected, nodes[j]);
      SeedCells(m, initInfected, j);
      InfectTimesMoves(c, q);
    }
    assert m.history[j][0] == Cell(InitialPopulation, 0, 0, 0);
  }

  /** A model built over the cities of a graph whose neighbours are all
      cities is consistent with that graph, so its runs never fail a lookup. */
  lemma NewModelClosed(nodes: seq<City>, maxSteps: nat, initInfected: seq<City>, rates: Option<Rates>, g: Graph)
    requires NewModel(nodes, maxSteps, initInfected, rates).Ok?
    requires forall j :: 0 <= j < |nodes| ==> nodes[j] in g
    requires forall c, k :: c in g && 0 <= k < |g[c]| ==> g[c][k] in nodes
    ensures Closed(NewModel(nodes, maxSteps, initInfected, rates).value, g)
  {
  }

  /** Copy S, I and D of every city from column `src` into column `dst`;
      Itimes at `dst` keeps its value. */
  function CopyColumn(h: seq<seq<Cell>>, n: nat, src: nat, dst: nat): (h': seq<seq<Cell>>)
    requires src < n && dst < n
    requires forall j :: 0 <= j < |h| ==> |h[j]| == n
    ensures |h'| == |h| && forall j :: 0 <= j < |h| ==> |h'[j]| == n
    ensures forall j :: 0 <= j < |h| ==> h'[j][dst] == h[j][src].(itimes := h[j][dst].itimes)
    ensures forall j, w :: 0 <= j < |h| && 0 <= w < n && w != dst ==> h'[j][w] == h[j][w]
  {
    seq(|h|, j requires 0 <= j < |h| => h[j][dst := h[j][src].(itimes := h[j][dst].itimes)])
  }

  /** `copy_timestep(t)` as written: `history[:, :3, t - 1]` uses numpy
      indexing, so `t == 0` reads the LAST column rather than failing. */
  function CopyTimestepAsWritten(m: Model, t: int): (r: Result<Model>)
    requires Wf(m)
    ensures r.Ok? <==> StepIndex(t - 1, m.maxSteps).Ok? && StepIndex(t, m.maxSteps).Ok?
    ensures r.Ok? ==> Wf(r.value) && r.value.(history := m.history) == m
    ensures r.Ok? ==>
      var src, dst := StepIndex(t - 1, m.maxSteps).value, StepIndex(t, m.maxSteps).value;
      forall j :: 0 <= j < |m.nodes| ==>
        r.value.history[j][dst] == m.history[j][src].(itimes := m.history[j][dst].itimes)
    ensures r.Ok? ==>
      var dst := StepIndex(t, m.maxSteps).value;
      forall j, w :: 0 <= j < |m.nodes| && 0 <= w < m.maxSteps && w != dst ==>
        r.value.history[j][w] == m.history[j][w]
  {
    var src :- StepIndex(t - 1, m.maxSteps);
    var dst :- StepIndex(t, m.maxSteps);
    Ok(m.(history := CopyColumn(m.history, m.maxSteps, src, dst)))
  }

  /** Counterexample to copy-forward on the as-written code: on a fresh model
      with a horizon of at least two steps, `copy_timestep(0)` succeeds and
      overwrites the initial population with the still-empty last column. */
  lemma CopyTimestepZeroWipesStart(nodes: seq<City>, maxSteps: nat)
    requires |nodes| >= 1 && maxSteps >= 2
    ensures var m := NewModel(nodes, maxSteps, [], None).value;
      && Conserved(m, 0)
      && CopyTimestepAsWritten(m, 0).Ok?
      && CopyTimestepAsWritten(m, 0).value.history[0][0] == Zero
      && !Conserved(CopyTimestepAsWritten(m, 0).value, 0)
  {
  }

  /** `copy_timestep(t)` with the step-0 case rejected: step 0 holds the
      initial conditions and has no predecessor. Every other step numpy
      accepts, negative ones included, is a genuine copy-forward from the
      column before the target. */
  function CopyTimestep(m: Model, t: int): (r: Result<Model>)
    requires Wf(m)
    ensures r.Ok? <==> -(m.maxSteps as int) < t < m.maxSteps && t != 0
    ensures r.Err? ==> r.error == StepOutOfRange(t) || r.error == StepOutOfRange(t - 1)
    ensures r.Ok? ==>
      var v := StepIndex(t, m.maxSteps).value;
      && 1 <= v
      && StepIndex(t - 1, m.maxSteps) == Ok(v - 1)
      && Wf(r.value) && r.value.(history := m.history) == m
      && (forall j :: 0 <= j < |m.nodes| ==>
            r.value.history[j][v] == m.history[j][v - 1].(itimes := m.history[j][v].itimes))
      && (forall j, w :: 0 <= j < |m.nodes| && 0 <= w < m.maxSteps && w != v ==>
            r.value.history[j][w] == m.history[j][w])
      && (Conserved(m, v - 1) ==> Conserved(r.value, v))
  {
    if t == 0 then Err(StepOutOfRange(t))
    else CopyTimestepAsWritten(m, t)
  }

  /** The correction changes nothing but step 0. */
  lemma CopyTimestepAgrees(m: Model, t: int)
    requires Wf(m)
    ensures t != 0 <==> CopyTimestep(m, t) == CopyTimestepAsWritten(m, t)
  {
    if t == 0 && m.maxSteps >= 1 {
      assert CopyTimestepAsWritten(m, t).Ok?;
    }
  }

  /** Slot `j` is the one `SIR_step_one_city` updates for a city of `done`. */
  predicate Updated(m: Model, done: set<City>, j: nat)
    requires j < |m.nodes|
  {
    m.nodes[j] in done && CityIndex(m.nodes, m.nodes[j]) == Ok(j)
  }

  /** `SIR_one_step(t)`: the SIR update of every city of the infected set. The
      result does not depend on the iteration order: exactly the slots of the
      infected cities get one `SirCell` update at column `t`, everything else
      is unchanged. */
  method SirOneStep(m: Model, t: int) returns (r: Result<Model>)
    requires Wf(m) && NonNegativeRates(m.rates)
    ensures r.Ok? ==> Wf(r.value) && r.value.(history := m.history) == m
    ensures r.Ok? && m.infected != {} ==> StepIndex(t, m.maxSteps).Ok?
    ensures (forall c :: c in m.infected ==> c in m.nodes) && StepIndex(t, m.maxSteps).Ok? ==> r.Ok?
    ensures r.Ok? && StepIndex(t, m.maxSteps).Err? ==> r.value == m
    ensures r.Ok? && StepIndex(t, m.maxSteps).Ok? ==>
      var v := StepIndex(t, m.maxSteps).value;
      && (forall j, w :: 0 <= j < |m.nodes| && 0 <= w < m.maxSteps && w != v ==>
            r.value.history[j][w] == m.history[j][w])
      && (forall j :: 0 <= j < |m.nodes| ==>
            r.value.history[j][v] ==
              if Updated(m, m.infected, j) then SirCell(m.history[j][v], m.rates) else m.history[j][v])
  {
    if m.infected == {} {
      return Ok(m);
    }
    var step := StepIndex(t, m.maxSteps);
    if step.Err? {
      // the first city of the snapshot raises, whichever it is
      var c :| c in m.infected;
      r := SirStepOneCity(m, c, t);
      return;
    }
    var v := step.value;
    var todo := m.infected;
    var cur := m;
    while todo != {}
      invariant todo <= m.infected
      invariant SirDone(m, cur, v, m.infected - todo)
      decreases todo
    {
      var c :| c in todo;
      var next := SirStepOneCity(cur, c, t);
      if next.Err? {
        return next;
      }
      SirTurn(m, cur, c, t, todo);
      cur := next.value;
      todo := todo - {c};
    }
    r := Ok(cur);
  }

  /** `cur` is `m` with the SIR update applied at column `v` to the slots of
      the cities of `done`, and nothing else changed. */
  ghost predicate SirDone(m: Model, cur: Model, v: nat, done: set<City>) {
    && Wf(m) && NonNegativeRates(m.rates) && v < m.maxSteps
    && Wf(cur) && cur.(history := m.history) == m
    && (forall j, w :: 0 <= j < |m.nodes| && 0 <= w < m.maxSteps && w != v ==>
          cur.history[j][w] == m.history[j][w])
    && (forall j :: 0 <= j < |m.nodes| ==>
          cur.history[j][v] ==
            if Updated(m, done, j) then SirCell(m.history[j][v], m.rates) else m.history[j][v])
  }

  /** One turn of the SIR loop: the city `c` still to do moves to the done
      part of the snapshot. */
  lemma SirTurn(m: Model, cur: Model, c: City, t: int, todo: set<City>)
    requires Wf(m) && NonNegativeRates(m.rates) && StepIndex(t, m.maxSteps).Ok?
    requires todo <= m.infected && c in todo
    requires SirDone(m, cur, StepIndex(t, m.maxSteps).value, m.infected - todo)
    requires SirStepOneCity(cur, c, t).Ok?
    ensures SirDone(m, SirStepOneCity(cur, c, t).value, StepIndex(t, m.maxSteps).value, m.infected - (todo - {c}))
  {
    var v := StepIndex(t, m.maxSteps).value;
    var j0 := CityIndex(m.nodes, c).value;
    assert Locate(cur, c, t).value == (j0, v);
    assert forall j :: 0 <= j < |m.nodes| ==>
      (Updated(m, m.infected - (todo - {c}), j) <==> Updated(m, m.infected - todo, j) || j == j0);
  }

  /** Every city that some city of `from` lists as a graph neighbour. */
  function NeighboursOf(g: Graph, from: set<City>): (r: set<City>)
    ensures forall o, k :: o in from && o in g && 0 <= k < |g[o]| ==> g[o][k] in r
    ensures forall c :: c in r ==> exists o, k :: o in from && o in g && 0 <= k < |g[o]| && g[o][k] == c
  {
    set o, k | o in from && o in g && 0 <= k < |g[o]| :: g[o][k]
  }

  /** What transmission from the cities of `from` can do to one cell of a
      city: D never changes, S only falls, S + I is kept (barring byte
      overflow), a city no one in `from` lists as a neighbour keeps S and I,
      and Itimes moves only for a city of `from`, by at most its degree
      (modulo the byte). */
  ghost predicate CellTransmitted(c: Cell, c': Cell, city: City, g: Graph, from: set<City>) {
    && c'.d == c.d
    && c'.s <= c.s
    && (c.s + c.i < 256 ==> c'.s + c'.i == c.s + c.i)
    && (city !in NeighboursOf(g, from) ==> c'.s == c.s && c'.i == c.i)
    && (city !in from ==> c'.itimes == c.itimes)
    && (city in from && city in g ==> (c'.itimes - c.itimes) % 256 <= |g[city]|)
  }

  /** The cumulative effect, at column `v`, of transmission from the cities of
      `from`: only their neighbours join the infected set, only column `v`
      changes, and every cell there changes as `CellTransmitted` allows. */
  ghost predicate Transmitted(m: Model, m': Model, g: Graph, v: int, from: set<City>) {
    && Wf(m) && 0 <= v < m.maxSteps
    && Wf(m') && m'.(history := m.history, infected := m.infected) == m
    && (forall c :: c in from ==> c in g)
    && m.infected <= m'.infected <= m.infected + NeighboursOf(g, from)
    && (forall j, w :: 0 <= j < |m.nodes| && 0 <= w < m.maxSteps && w != v ==>
          m'.history[j][w] == m.history[j][w])
    && (forall j :: 0 <= j < |m.nodes| ==>
          CellTransmitted(m.history[j][v], m'.history[j][v], m.nodes[j], g, from))
  }

  /** The cell-level half of `TransmittedStep`. */
  lemma CellTransmittedStep(c0: Cell, c1: Cell, c2: Cell, city: City, g: Graph, from: set<City>, o: City,
                            hits: nat, origin: bool, n: nat)
    requires CellTransmitted(c0, c1, city, g, from)
    requires TransmittedCell(c1, c2, hits, origin, n)
    requires o !in from && o in g && n <= |g[o]|
    requires origin ==> city == o
    requires city !in g[o] ==> hits == 0
    ensures CellTransmitted(c0, c2, city, g, from + {o})
  {
    if origin {
      WrapDiff(c0.itimes, n);
    }
  }

  /** Transmission from one more city extends the cumulative effect. */
  lemma TransmittedStep(m: Model, cur: Model, g: Graph, u: Rng, pos: nat, c: City, t: int, from: set<City>)
    requires Wf(m) && StepIndex(t, m.maxSteps).Ok?
    requires Transmitted(m, cur, g, StepIndex(t, m.maxSteps).value, from)
    requires c !in from
    requires IntercityStepOneCity(cur, g, u, pos, c, t).Ok?
    ensures Transmitted(m, IntercityStepOneCity(cur, g, u, pos, c, t).value, g, StepIndex(t, m.maxSteps).value, from + {c})
  {
    var v := StepIndex(t, m.maxSteps).value;
    var next := IntercityStepOneCity(cur, g, u, pos, c, t).value;
    IntercityStepEffect(cur, g, u, pos, c, t);
    var j0 := CityIndex(m.nodes, c).value;
    assert Locate(cur, c, t).value == (j0, v);
    var p := Probability(cur, j0, v);
    assert StepEffect(cur, next, g, u, pos, c, j0, v);
    var n := Successes(p, u, pos, |g[c]|);
    forall x | 0 <= x < |m.nodes|
      ensures CellTransmitted(m.history[x][v], next.history[x][v], m.nodes[x], g, from + {c})
    {
      CellTransmittedStep(m.history[x][v], cur.history[x][v], next.history[x][v], m.nodes[x], g, from, c,
        Hits(m.nodes, x, p, u, pos, g[c]), x == j0, n);
    }
    forall o, k | o in from + {c} && o in g && 0 <= k < |g[o]|
      ensures g[o][k] in NeighboursOf(g, from + {c})
    {
    }
    assert NeighboursOf(g, from) <= NeighboursOf(g, from + {c});
    assert Reached(p, u, pos, g[c]) <= NeighboursOf(g, from + {c});
  }

  /** `order` lists every city of `s` exactly once: one iteration order of
      the frozen set. */
  ghost predicate IsOrder(order: seq<City>, s: set<City>) {
    && (forall i, k :: 0 <= i < k < |order| ==> order[i] != order[k])
    && (forall c :: c in order <==> c in s)
  }

  /** `intercity_step_one_city` applied to the cities of `order` in turn,
      each origin consuming one draw per graph neighbour; the first failure
      ends the fold. The second component is the draw position reached. */
  function TransmitAll(m: Model, g: Graph, u: Rng, pos: nat, order: seq<City>, t: int): (res: (Result<Model>, nat))
    requires Wf(m)
    decreases |order|
    ensures res.1 >= pos
    ensures res.0.Ok? ==> Wf(res.0.value) && res.0.value.(history := m.history, infected := m.infected) == m
  {
    if |order| == 0 then (Ok(m), pos)
    else
      var (r, p) := TransmitAll(m, g, u, pos, order[..|order| - 1], t);
      if r.Err? then (r, p)
      else
        var c := order[|order| - 1];
        var next := IntercityStepOneCity(r.value, g, u, p, c, t);
        if next.Err? then (next, p) else (next, p + |g[c]|)
  }

  /** Extending the order by one city extends the fold by one call. */
  lemma TransmitAllSnoc(m: Model, g: Graph, u: Rng, pos: nat, order: seq<City>, c: City, t: int, cur: Model, p: nat)
    requires Wf(m) && TransmitAll(m, g, u, pos, order, t) == (Ok(cur), p)
    ensures var next := IntercityStepOneCity(cur, g, u, p, c, t);
      TransmitAll(m, g, u, pos, order + [c], t) == if next.Err? then (next, p) else (next, p + |g[c]|)
  {
    assert (order + [c])[..|order|] == order;
  }

  /** A city not yet listed extends an order of `done` to one of `done + {c}`. */
  lemma IsOrderSnoc(order: seq<City>, done: set<City>, c: City)
    requires IsOrder(order, done) && c !in done
    ensures IsOrder(order + [c], done + {c})
  {
    assert forall x :: x in order + [c] <==> x in order || x == c;
  }

  /** A successful fold over a list of distinct cities has the cumulative
      effect of transmission from those cities, and keeps a model consistent
      with the graph consistent. */
  lemma {:induction false} TransmitAllEffect(m: Model, g: Graph, u: Rng, pos: nat, order: seq<City>, t: int, from: set<City>)
    requires Wf(m) && TransmitAll(m, g, u, pos, order, t).0.Ok?
    requires forall i, k :: 0 <= i < k < |order| ==> order[i] != order[k]
    requires from == Elements(order)
    decreases |order|
    ensures var cur := TransmitAll(m, g, u, pos, order, t).0.value;
      && (|order| > 0 ==> StepIndex(t, m.maxSteps).Ok?)
      && (StepIndex(t, m.maxSteps).Err? ==> cur == m)
      && (StepIndex(t, m.maxSteps).Ok? ==> Transmitted(m, cur, g, StepIndex(t, m.maxSteps).value, from))
      && (Closed(m, g) ==> Closed(cur, g))
  {
    if |order| > 0 {
      var init, c := order[..|order| - 1], order[|order| - 1];
      var (r, p) := TransmitAll(m, g, u, pos, init, t);
      TransmitAllEffect(m, g, u, pos, init, t, Elements(init));
      ElementsLast(order);
      if StepIndex(t, m.maxSteps).Ok? {
        TransmittedStep(m, r.value, g, u, p, c, t, Elements(init));
      }
    }
  }

  /** Under a consistent graph and a valid step the fold never fails: every
      listed city is a known graph node. */
  lemma {:induction false} TransmitAllClosed(m: Model, g: Graph, u: Rng, pos: nat, order: seq<City>, t: int)
    requires Wf(m) && Closed(m, g) && StepIndex(t, m.maxSteps).Ok?
    requires forall i, k :: 0 <= i < k < |order| ==> order[i] != order[k]
    requires forall c :: c in order ==> c in m.infected
    decreases |order|
    ensures TransmitAll(m, g, u, pos, order, t).0.Ok?
  {
    if |order| > 0 {
      var init := order[..|order| - 1];
      assert forall c :: c in init ==> c in order;
      TransmitAllClosed(m, g, u, pos, init, t);
      TransmitAllEffect(m, g, u, pos, init, t, Elements(init));
    }
  }

  /** What the fold over an order of the snapshot says about the phase: the
      cumulative effect `Transmitted`, success under a consistent graph and
      preservation of that consistency. */
  lemma PhaseEffect(m: Model, g: Graph, u: Rng, pos: nat, order: seq<City>, t: int, r: Result<Model>, p: nat)
    requires Wf(m) && TransmitAll(m, g, u, pos, order, t) == (r, p)
    requires forall i, k :: 0 <= i < k < |order| ==> order[i] != order[k]
    requires forall c :: c in order ==> c in m.infected
    requires r.Ok? ==> IsOrder(order, m.infected)
    ensures r.Ok? && m.infected != {} ==> StepIndex(t, m.maxSteps).Ok?
    ensures Closed(m, g) && StepIndex(t, m.maxSteps).Ok? ==> r.Ok?
    ensures r.Ok? && Closed(m, g) ==> Closed(r.value, g)
    ensures r.Ok? && StepIndex(t, m.maxSteps).Err? ==> r.value == m
    ensures r.Ok? && StepIndex(t, m.maxSteps).Ok? ==>
      Transmitted(m, r.value, g, StepIndex(t, m.maxSteps).value, m.infected)
  {
    if r.Ok? {
      assert Elements(order) == m.infected;
      TransmitAllEffect(m, g, u, pos, order, t, m.infected);
    }
    if Closed(m, g) && StepIndex(t, m.maxSteps).Ok? {
      TransmitAllClosed(m, g, u, pos, order, t);
    }
  }

  /** `intercity_one_step(t)`: the transmission step of every city of the
      infected set as it stood when the phase began, in some order `order`
      of that snapshot. The result is exactly the fold of
      `intercity_step_one_city` over `order`, and it has the cumulative
      effect `Transmitted`. Cities infected during the phase do not transmit
      in it: their Itimes entries do not change. */
  method IntercityOneStep(m: Model, g: Graph, u: Rng, pos: nat, t: int)
    returns (r: Result<Model>, pos': nat, ghost order: seq<City>)
    requires Wf(m)
    ensures TransmitAll(m, g, u, pos, order, t) == (r, pos')
    ensures forall i, k :: 0 <= i < k < |order| ==> order[i] != order[k]
    ensures forall c :: c in order ==> c in m.infected
    ensures r.Ok? ==> IsOrder(order, m.infected)
    ensures r.Ok? && m.infected != {} ==> StepIndex(t, m.maxSteps).Ok?
    ensures Closed(m, g) && StepIndex(t, m.maxSteps).Ok? ==> r.Ok?
    ensures r.Ok? && Closed(m, g) ==> Closed(r.value, g)
    ensures r.Ok? && StepIndex(t, m.maxSteps).Err? ==> r.value == m
    ensures r.Ok? && StepIndex(t, m.maxSteps).Ok? ==>
      Transmitted(m, r.value, g, StepIndex(t, m.maxSteps).value, m.infected)
  {
    var todo := m.infected;
    var cur := m;
    pos' := pos;
    order := [];
    while todo != {}
      invariant todo <= m.infected
      invariant TransmitAll(m, g, u, pos, order, t) == (Ok(cur), pos')
      invariant IsOrder(order, m.infected - todo)
      decreases todo
    {
      var c :| c in todo;
      var next := IntercityStepOneCity(cur, g, u, pos', c, t);
      TransmitAllSnoc(m, g, u, pos, order, c, t, cur, pos');
      IsOrderSnoc(order, m.infected - todo, c);
      if next.Err? {
        PhaseEffect(m, g, u, pos, order + [c], t, next, pos');
        return next, pos', order + [c];
      }
      assert m.infected - (todo - {c}) == (m.infected - todo) + {c};
      pos' := pos' + |g[c]|;
      cur := next.value;
      todo := todo - {c};
      order := order + [c];
    }
    assert m.infected - todo == m.infected;
    r := Ok(cur);
    PhaseEffect(m, g, u, pos, order, t, r, pos');
  }

  /** The SIR phase of `model_one_step` at column `v`, seen from the state
      before the copy-forward: column `v` of `mid` is column `v - 1` (with
      the Itimes entries of `v`), updated by `SirCell` at the slots of the
      infected cities; nothing else changes. */
  ghost predicate SirPhase(m: Model, mid: Model, v: int) {
    && Wf(m) && 1 <= v < m.maxSteps && NonNegativeRates(m.rates)
    && Wf(mid) && mid.(history := m.history) == m
    && (forall j, w :: 0 <= j < |m.nodes| && 0 <= w < m.maxSteps && w != v ==>
          mid.history[j][w] == m.history[j][w])
    && (forall j :: 0 <= j < |m.nodes| ==>
          var copied := m.history[j][v - 1].(itimes := m.history[j][v].itimes);
          mid.history[j][v] == if Updated(m, m.infected, j) then SirCell(copied, m.rates) else copied)
  }

  /** The transmission phase from `mid` to `m'` is exactly the fold of
      `intercity_step_one_city` over `order`, an order of the infected set of
      `mid`, drawing from position `pos` up to `pos'`. */
  ghost predicate TransmittedExactly(mid: Model, m': Model, g: Graph, u: Rng, pos: nat, pos': nat, order: seq<City>, t: int) {
    Wf(mid) && IsOrder(order, mid.infected) && TransmitAll(mid, g, u, pos, order, t) == (Ok(m'), pos')
  }

  /** One complete step at column `v`: copy-forward and SIR from `m` to `mid`,
      then transmission from the infected cities from `mid` to `m'`. */
  ghost predicate Step(m: Model, mid: Model, m': Model, g: Graph, v: int) {
    SirPhase(m, mid, v) && Transmitted(mid, m', g, v, mid.infected)
  }

  /** A step keeps a conserved population: column `v` ends with the
      population of column `v - 1`, S never rises and D never falls. */
  lemma StepConserves(m: Model, mid: Model, m': Model, g: Graph, v: int)
    requires Step(m, mid, m', g, v)
    ensures forall j :: 0 <= j < |m.nodes| ==> m'.history[j][v].s <= m.history[j][v - 1].s
    ensures forall j :: 0 <= j < |m.nodes| && Population(m.history[j][v - 1]) < 256 ==>
      && Population(m'.history[j][v]) == Population(m.history[j][v - 1])
      && m'.history[j][v].d >= m.history[j][v - 1].d
    ensures Conserved(m, v - 1) ==> Conserved(m', v)
    ensures Conserved(m, v - 1) ==> forall j :: 0 <= j < |m.nodes| ==> m'.history[j][v].d >= m.history[j][v - 1].d
  {
    forall j | 0 <= j < |m.nodes| && Population(m.history[j][v - 1]) < 256
      ensures Population(mid.history[j][v]) == Population(m.history[j][v - 1])
    {
    }
  }

  /** A city that is not infected and that no infected city lists as a
      neighbour goes through a step unchanged: its S, I and D at `v` are
      those at `v - 1`. */
  lemma StepStable(m: Model, mid: Model, m': Model, g: Graph, v: int, j: nat)
    requires Step(m, mid, m', g, v) && j < |m.nodes|
    requires m.nodes[j] !in m.infected && m.nodes[j] !in NeighboursOf(g, m.infected)
    ensures m'.history[j][v].(itimes := 0) == m.history[j][v - 1].(itimes := 0)
  {
  }

  /** Copy-forward followed by the SIR update of the copied column is the
      SIR phase of the step. */
  lemma CopyThenSir(m: Model, copied: Model, mid: Model, t: int)
    requires Wf(m) && NonNegativeRates(m.rates) && CopyTimestep(m, t) == Ok(copied)
    requires Wf(mid) && mid.(history := copied.history) == copied
    requires StepIndex(t, copied.maxSteps).Ok? ==>
      var v := StepIndex(t, copied.maxSteps).value;
      && (forall j, w :: 0 <= j < |copied.nodes| && 0 <= w < copied.maxSteps && w != v ==>
            mid.history[j][w] == copied.history[j][w])
      && (forall j :: 0 <= j < |copied.nodes| ==>
            mid.history[j][v] ==
              if Updated(copied, copied.infected, j) then SirCell(copied.history[j][v], copied.rates)
              else copied.history[j][v])
    ensures SirPhase(m, mid, StepIndex(t, m.maxSteps).value)
  {
  }

  /** The first two phases of `model_one_step(t)`: copy-forward, then SIR on
      the infected cities, at the column of step `t`. */
  method CopyAndSir(m: Model, t: int) returns (r: Result<Model>)
    requires Wf(m) && NonNegativeRates(m.rates)
    ensures r.Ok? ==> -(m.maxSteps as int) < t < m.maxSteps && t != 0
    ensures (forall c :: c in m.infected ==> c in m.nodes) && -(m.maxSteps as int) < t < m.maxSteps && t != 0 ==> r.Ok?
    ensures r.Ok? ==> SirPhase(m, r.value, StepIndex(t, m.maxSteps).value)
  {
    var copied := CopyTimestep(m, t);
    if copied.Err? {
      return copied;
    }
    r := SirOneStep(copied.value, t);
    if r.Ok? {
      CopyThenSir(m, copied.value, r.value, t);
    }
  }

  /** The SIR phase at column `v` followed by the fold of the transmission
      step over an order of the infected cities is a complete `Step`, and it
      keeps closure and a conserved population. */
  lemma StepOutcome(m: Model, mid: Model, m': Model, g: Graph, u: Rng, pos: nat, pos': nat, order: seq<City>, t: int)
    requires StepIndex(t, m.maxSteps).Ok? && SirPhase(m, mid, StepIndex(t, m.maxSteps).value)
    requires TransmitAll(mid, g, u, pos, order, t) == (Ok(m'), pos')
    requires IsOrder(order, mid.infected)
    ensures Step(m, mid, m', g, StepIndex(t, m.maxSteps).value)
    ensures TransmittedExactly(mid, m', g, u, pos, pos', order, t)
    ensures Closed(m, g) ==> Closed(m', g)
    ensures var v := StepIndex(t, m.maxSteps).value;
      && (Conserved(m, v - 1) ==> Conserved(m', v))
      && (forall j :: 0 <= j < |m.nodes| ==> m'.history[j][v].s <= m.history[j][v - 1].s)
      && (Conserved(m, v - 1) ==> forall j :: 0 <= j < |m.nodes| ==> m'.history[j][v].d >= m.history[j][v - 1].d)
  {
    assert mid.nodes == m.nodes && mid.maxSteps == m.maxSteps && mid.infected == m.infected;
    PhaseEffect(mid, g, u, pos, order, t, Ok(m'), pos');
    StepConservesAt(m, mid, m', g, t);
  }

  /** `StepConserves` at the column of step `t`. */
  lemma StepConservesAt(m: Model, mid: Model, m': Model, g: Graph, t: int)
    requires StepIndex(t, m.maxSteps).Ok? && Step(m, mid, m', g, StepIndex(t, m.maxSteps).value)
    ensures var v := StepIndex(t, m.maxSteps).value;
      && (Conserved(m, v - 1) ==> Conserved(m', v))
      && (forall j :: 0 <= j < |m.nodes| ==> m'.history[j][v].s <= m.history[j][v - 1].s)
      && (Conserved(m, v - 1) ==> forall j :: 0 <= j < |m.nodes| ==> m'.history[j][v].d >= m.history[j][v - 1].d)
  {
    StepConserves(m, mid, m', g, StepIndex(t, m.maxSteps).value);
  }

  /** `model_one_step(t)`: copy-forward, then SIR on the infected cities, then
      transmission from them, all at the column `v` of step `t`. `mid` is the
      state after the SIR phase. */
  method ModelOneStep(m: Model, g: Graph, u: Rng, pos: nat, t: int)
    returns (r: Result<Model>, pos': nat, ghost mid: Model, ghost order: seq<City>)
    requires Wf(m) && NonNegativeRates(m.rates)
    ensures pos' >= pos
    ensures r.Ok? ==> -(m.maxSteps as int) < t < m.maxSteps && t != 0
    ensures Closed(m, g) && -(m.maxSteps as int) < t < m.maxSteps && t != 0 ==> r.Ok?
    ensures r.Ok? ==> Step(m, mid, r.value, g, StepIndex(t, m.maxSteps).value)
    ensures r.Ok? ==> TransmittedExactly(mid, r.value, g, u, pos, pos', order, t)
    ensures r.Ok? && Closed(m, g) ==> Closed(r.value, g)
    ensures r.Ok? ==> var v := StepIndex(t, m.maxSteps).value;
      && (Conserved(m, v - 1) ==> Conserved(r.value, v))
      && (forall j :: 0 <= j < |m.nodes| ==> r.value.history[j][v].s <= m.history[j][v - 1].s)
      && (Conserved(m, v - 1) ==> forall j :: 0 <= j < |m.nodes| ==> r.value.history[j][v].d >= m.history[j][v - 1].d)
  {
    pos' := pos;
    mid := m;
    order := [];
    var sir := CopyAndSir(m, t);
    if sir.Err? {
      return sir, pos', mid, order;
    }
    mid := sir.value;
    r, pos', order := IntercityOneStep(sir.value, g, u, pos, t);
    if r.Ok? {
      StepOutcome(m, mid, r.value, g, u, pos, pos', order, t);
    }
  }

  /** The column that step `start` of a run writes: numpy's index of it. */
  function Base(start: int, n: nat): int {
    if start < 0 then start + n else start
  }

  /** `cur` is `m` after steps that wrote the columns `b`, ..., `b + k - 1`:
      nothing else changed, the infected set only grew, and along those
      columns S falls, D rises and a conserved population stays conserved. */
  ghost predicate Ran(m: Model, cur: Model, b: int, k: nat) {
    RanFrame(m, cur, b, k) && RanConserves(m, cur, b, k) && RanMonotone(m, cur, b, k)
  }

  /** The frame part of `Ran`: only the columns `b`, ..., `b + k - 1` changed
      and the infected set only grew. */
  ghost predicate RanFrame(m: Model, cur: Model, b: int, k: nat) {
    && Wf(m) && Wf(cur) && cur.(history := m.history, infected := m.infected) == m
    && m.infected <= cur.infected
    && (k > 0 ==> 1 <= b && b + k <= m.maxSteps)
    && (forall j, w :: 0 <= j < |m.nodes| && 0 <= w < m.maxSteps && !(b <= w < b + k) ==>
          cur.history[j][w] == m.history[j][w])
  }

  /** The conservation part of `Ran`: a population conserved at column
      `b - 1` is conserved at every column written. */
  ghost predicate RanConserves(m: Model, cur: Model, b: int, k: nat)
    requires RanFrame(m, cur, b, k)
  {
    Conserved(m, b - 1) ==> forall w :: b - 1 <= w < b + k ==> Conserved(cur, w)
  }

  /** The monotone part of `Ran`: along the columns written S never rises,
      and D never falls when the population was conserved. */
  ghost predicate RanMonotone(m: Model, cur: Model, b: int, k: nat)
    requires RanFrame(m, cur, b, k)
  {
    && (forall j, w :: 0 <= j < |m.nodes| && b <= w < b + k ==> SusceptibleFell(cur, j, w))
    && (Conserved(m, b - 1) ==> forall j, w :: 0 <= j < |m.nodes| && b <= w < b + k ==> DeadRose(cur, j, w))
  }

  /** S of slot `j` has not risen from column `w - 1` to column `w`. */
  ghost predicate SusceptibleFell(m: Model, j: int, w: int) {
    Wf(m) && 0 <= j < |m.nodes| && 1 <= w < m.maxSteps && m.history[j][w].s <= m.history[j][w - 1].s
  }

  /** D of slot `j` has not fallen from column `w - 1` to column `w`. */
  ghost predicate DeadRose(m: Model, j: int, w: int) {
    Wf(m) && 0 <= j < |m.nodes| && 1 <= w < m.maxSteps && m.history[j][w].d >= m.history[j][w - 1].d
  }

  /** What a step leaves alone: everything but column `v`, and the infected
      cities, which stay infected. */
  lemma StepFrame(m: Model, mid: Model, m': Model, g: Graph, v: int)
    requires Step(m, mid, m', g, v)
    ensures 1 <= v < m.maxSteps
    ensures Wf(m') && m'.(history := m.history, infected := m.infected) == m
    ensures m.infected <= m'.infected
    ensures forall j, w :: 0 <= j < |m.nodes| && 0 <= w < m.maxSteps && w != v ==>
      m'.history[j][w] == m.history[j][w]
  {
  }

  /** `next` differs from `cur` only at column `v`, where S has not risen and
      a population below the byte limit is kept with D not fallen; the
      infected set has only grown. */
  ghost predicate Advanced(cur: Model, next: Model, v: int) {
    && Wf(cur) && 1 <= v < cur.maxSteps
    && Wf(next) && next.(history := cur.history, infected := cur.infected) == cur
    && cur.infected <= next.infected
    && (forall j, w :: 0 <= j < |cur.nodes| && 0 <= w < cur.maxSteps && w != v ==>
          next.history[j][w] == cur.history[j][w])
    && (forall j :: 0 <= j < |cur.nodes| ==> next.history[j][v].s <= cur.history[j][v - 1].s)
    && (forall j :: 0 <= j < |cur.nodes| && Population(cur.history[j][v - 1]) < 256 ==>
          && Population(next.history[j][v]) == Population(cur.history[j][v - 1])
          && next.history[j][v].d >= cur.history[j][v - 1].d)
  }

  /** Every step advances its column. */
  lemma StepAdvances(m: Model, mid: Model, m': Model, g: Graph, v: int)
    requires Step(m, mid, m', g, v)
    ensures Advanced(m, m', v)
  {
    StepFrame(m, mid, m', g, v);
    StepConserves(m, mid, m', g, v);
  }

  /** A step at column `b` followed by a run from column `b + 1` is a run
      from column `b` (an empty run may be given any column). */
  lemma RanCons(m: Model, next: Model, r: Model, b: int, b': int, k: nat)
    requires Advanced(m, next, b) && Ran(next, r, b', k) && (k > 0 ==> b' == b + 1)
    ensures Ran(m, r, b, k + 1)
  {
    RanConsFrame(m, next, r, b, b', k);
    RanConsConserves(m, next, r, b, b', k);
    RanConsMonotone(m, next, r, b, b', k);
  }

  /** The frame part of `RanCons`. */
  lemma RanConsFrame(m: Model, next: Model, r: Model, b: int, b': int, k: nat)
    requires Advanced(m, next, b) && RanFrame(next, r, b', k) && (k > 0 ==> b' == b + 1)
    ensures RanFrame(m, r, b, k + 1)
  {
  }

  /** The conservation part of `RanCons`. */
  lemma RanConsConserves(m: Model, next: Model, r: Model, b: int, b': int, k: nat)
    requires Advanced(m, next, b) && RanFrame(next, r, b', k) && RanConserves(next, r, b', k)
    requires k > 0 ==> b' == b + 1
    ensures RanFrame(m, r, b, k + 1) && RanConserves(m, r, b, k + 1)
  {
    RanConsFrame(m, next, r, b, b', k);
    if Conserved(m, b - 1) {
      ConservedFrame(m, next, b - 1);
      assert Conserved(next, b);
      ConservedFrame(next, r, b - 1);
      if k == 0 {
        ConservedFrame(next, r, b);
      }
    }
  }

  /** The monotone part of `RanCons`. */
  lemma RanConsMonotone(m: Model, next: Model, r: Model, b: int, b': int, k: nat)
    requires Advanced(m, next, b) && RanFrame(next, r, b', k) && RanMonotone(next, r, b', k)
    requires k > 0 ==> b' == b + 1
    ensures RanFrame(m, r, b, k + 1) && RanMonotone(m, r, b, k + 1)
  {
    RanConsFrame(m, next, r, b, b', k);
    if Conserved(m, b - 1) {
      ConservedFrame(m, next, b - 1);
      assert Conserved(next, b);
    }
  }

  /** `states` is a run through `mids`: step `i` of it goes from `states[i]`
      through `mids[i]` to `states[i + 1]` and is a `Step` at column `b + i`. */
  ghost predicate Trace(states: seq<Model>, mids: seq<Model>, g: Graph, b: int) {
    && |states| == |mids| + 1
    && forall i :: 0 <= i < |mids| ==> Step(states[i], mids[i], states[i + 1], g, b + i)
  }

  /** A step at column `b` followed by a trace from column `b + 1` is a
      trace from column `b` (an empty trace may be given any column). */
  lemma TraceCons(m: Model, mid: Model, states: seq<Model>, mids: seq<Model>, g: Graph, b: int, b': int)
    requires |states| > 0 && Step(m, mid, states[0], g, b)
    requires Trace(states, mids, g, b') && (|mids| > 0 ==> b' == b + 1)
    ensures Trace([m] + states, [mid] + mids, g, b)
  {
    forall i | 0 <= i < |mids| + 1
      ensures Step(([m] + states)[i], ([mid] + mids)[i], ([m] + states)[i + 1], g, b + i)
    {
      if i > 0 {
        assert ([m] + states)[i] == states[i - 1] && ([m] + states)[i + 1] == states[i];
        assert ([mid] + mids)[i] == mids[i - 1];
      }
    }
  }

  /** The first step of a trace advances its column, and the steps after it
      form a trace from the next column. */
  lemma TraceTail(states: seq<Model>, mids: seq<Model>, g: Graph, b: int)
    requires Trace(states, mids, g, b) && |mids| > 0
    ensures Advanced(states[0], states[1], b)
    ensures Trace(states[1..], mids[1..], g, b + 1)
  {
    StepAdvances(states[0], mids[0], states[1], g, b + 0);
    forall i | 0 <= i < |mids| - 1
      ensures Step(states[1..][i], mids[1..][i], states[1..][i + 1], g, b + 1 + i)
    {
      assert states[1..][i] == states[i + 1] && states[1..][i + 1] == states[i + 2] && mids[1..][i] == mids[i + 1];
    }
  }

  /** Every trace is a run: the steps of a trace from column `b` write the
      columns `b`, `b + 1`, ... and nothing else, keep what they should. */
  lemma {:induction false} TraceRan(states: seq<Model>, mids: seq<Model>, g: Graph, b: int)
    requires Trace(states, mids, g, b) && Wf(states[0])
    decreases |mids|
    ensures Ran(states[0], states[|mids|], b, |mids|)
  {
    if |mids| > 0 {
      TraceTail(states, mids, g, b);
      TraceRan(states[1..], mids[1..], g, b + 1);
      assert states[1..][|mids| - 1] == states[|mids|];
      RanCons(states[0], states[1], states[|mids|], b, b + 1, |mids| - 1);
    }
  }

  /** The transmission phases of a trace, exactly: the step taken from
      `mids[i]` to `states[i + 1]` is the fold of the transmission step over
      `orders[i]`, for step number `t + i`, drawing from `poss[i]` up to
      `poss[i + 1]`. */
  ghost predicate ExactTrace(states: seq<Model>, mids: seq<Model>, orders: seq<seq<City>>, poss: seq<nat>,
                             g: Graph, u: Rng, t: int) {
    && |states| == |mids| + 1 && |orders| == |mids| && |poss| == |mids| + 1
    && forall i :: 0 <= i < |mids| ==>
         TransmittedExactly(mids[i], states[i + 1], g, u, poss[i], poss[i + 1], orders[i], t + i)
  }

  /** An exact step followed by an exact trace is an exact trace. */
  lemma ExactTraceCons(m: Model, mid: Model, order: seq<City>, pos: nat, states: seq<Model>, mids: seq<Model>,
                       orders: seq<seq<City>>, poss: seq<nat>, g: Graph, u: Rng, t: int)
    requires |states| > 0 && |poss| > 0
    requires TransmittedExactly(mid, states[0], g, u, pos, poss[0], order, t)
    requires ExactTrace(states, mids, orders, poss, g, u, t + 1)
    ensures ExactTrace([m] + states, [mid] + mids, [order] + orders, [pos] + poss, g, u, t)
  {
    forall i | 0 <= i < |mids| + 1
      ensures TransmittedExactly(([mid] + mids)[i], ([m] + states)[i + 1], g, u, ([pos] + poss)[i],
                                 ([pos] + poss)[i + 1], ([order] + orders)[i], t + i)
    {
      if i > 0 {
        assert ([mid] + mids)[i] == mids[i - 1] && ([m] + states)[i + 1] == states[i];
        assert ([pos] + poss)[i] == poss[i - 1] && ([pos] + poss)[i + 1] == poss[i];
        assert ([order] + orders)[i] == orders[i - 1];
      }
    }
  }

  /** A step of step number `start` followed by a run of `n - 1` steps from
      `start + 1` is a run of `n` steps from `start`: the records of the two
      put together are a trace, an exact trace and a run of `n` columns. */
  lemma RunCons(m: Model, mid: Model, next: Model, order: seq<City>, pos: nat, p: nat,
                states': seq<Model>, mids': seq<Model>, orders': seq<seq<City>>, poss': seq<nat>,
                r: Model, p': nat, g: Graph, u: Rng, n: nat, start: int)
    requires n > 0 && Wf(m) && StepIndex(start, m.maxSteps).Ok?
    requires Step(m, mid, next, g, StepIndex(start, m.maxSteps).value)
    requires TransmittedExactly(mid, next, g, u, pos, p, order, start)
    requires |mids'| == n - 1 && Trace(states', mids', g, Base(start + 1, next.maxSteps))
    requires states'[0] == next && states'[n - 1] == r
    requires ExactTrace(states', mids', orders', poss', g, u, start + 1) && poss'[0] == p && poss'[n - 1] == p'
    ensures |[mid] + mids'| == n && Trace([m] + states', [mid] + mids', g, Base(start, m.maxSteps))
    ensures ([m] + states')[0] == m && ([m] + states')[n] == r
    ensures ExactTrace([m] + states', [mid] + mids', [order] + orders', [pos] + poss', g, u, start)
    ensures ([pos] + poss')[0] == pos && ([pos] + poss')[n] == p'
    ensures Ran(m, r, Base(start, m.maxSteps), n)
  {
    var b := StepIndex(start, m.maxSteps).value;
    assert b == Base(start, m.maxSteps);
    StepFrame(m, mid, next, g, b);
    if n > 1 {
      assert Step(states'[0], mids'[0], states'[1], g, Base(start + 1, next.maxSteps) + 0);
    }
    TraceCons(m, mid, states', mids', g, b, Base(start + 1, next.maxSteps));
    ExactTraceCons(m, mid, order, pos, states', mids', orders', poss', g, u, start);
    TraceRan([m] + states', [mid] + mids', g, b);
  }

  /** `run_model(n, start)`: steps `start`, ..., `start + n - 1` in increasing
      order. It succeeds exactly when every one of those steps is a valid
      nonzero numpy index: all of them positive, or all of them negative. The
      ghost `states` and `mids` record the run: consecutive states are
      related by `Step` at consecutive columns from `Base(start)`, and the
      result is a `Ran` of `n` columns from there. The ghost `orders` and
      `poss` make the transmission phases exact: step `start + i` folds the
      transmission step over `orders[i]`, drawing from `poss[i]` on, and the
      draws of one step begin where those of the previous step ended. */
  method RunModel(m: Model, g: Graph, u: Rng, pos: nat, n: nat, start: int)
    returns (r: Result<Model>, pos': nat, ghost states: seq<Model>, ghost mids: seq<Model>,
             ghost orders: seq<seq<City>>, ghost poss: seq<nat>)
    requires Wf(m) && NonNegativeRates(m.rates)
    decreases n
    ensures pos' >= pos
    ensures n == 0 ==> r == Ok(m)
    ensures r.Ok? ==>
      n == 0 || (1 <= start && start + n <= m.maxSteps) || (-(m.maxSteps as int) < start && start + n <= 0)
    ensures (Closed(m, g) &&
      (n == 0 || (1 <= start && start + n <= m.maxSteps) || (-(m.maxSteps as int) < start && start + n <= 0))) ==> r.Ok?
    ensures r.Ok? ==> |mids| == n && Trace(states, mids, g, Base(start, m.maxSteps))
    ensures r.Ok? ==> states[0] == m && states[n] == r.value
    ensures r.Ok? ==> ExactTrace(states, mids, orders, poss, g, u, start) && poss[0] == pos && poss[n] == pos'
    ensures r.Ok? ==> Ran(m, r.value, Base(start, m.maxSteps), n)
    ensures r.Ok? && Closed(m, g) ==> Closed(r.value, g)
  {
    if n == 0 {
      return Ok(m), pos, [m], [], [], [pos];
    }
    var next, p, mid, order := ModelOneStep(m, g, u, pos, start);
    if next.Err? {
      return next, p, [m], [], [], [pos];
    }
    var rest, p', states', mids', orders', poss' := RunModel(next.value, g, u, p, n - 1, start + 1);
    if rest.Err? {
      return rest, p', [m], [], [], [pos];
    }
    RunCons(m, mid, next.value, order, pos, p, states', mids', orders', poss', rest.value, p', g, u, n, start);
    r, pos', states, mids, orders, poss := rest, p', [m] + states', [mid] + mids', [order] + orders', [pos] + poss';
  }
}
