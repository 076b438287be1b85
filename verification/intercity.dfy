/** Inter-city transmission: `toss` and `intercity_step_one_city`.

    The ambient numpy generator becomes an explicit oracle: `u(k)` is the k-th
    uniform draw in [0, 1) that `np.random.ranf()` would return, and every
    neighbour of the origin consumes exactly one draw, in the graph's
    iteration order. */
module InterCity {
  import opened Results
  import opened Store
  import opened Compartments

  /** One value of `np.random.ranf()`. */
  type Unit = x: real | 0.0 <= x < 1.0

  /** The random source, as the sequence of its draws. */
  type Rng = nat -> Unit

  /** `toss(p)`: a Bernoulli trial that succeeds when the draw falls below `p`.
      `p` is not clamped, so the trial is impossible at `p <= 0` and certain at
      `p >= 1`. */
  function Toss(p: real, draw: Unit): (success: bool)
    ensures p <= 0.0 ==> !success
    ensures p >= 1.0 ==> success
    ensures 0.0 <= p <= 1.0 ==> (success <==> draw < p)
  {
    draw < p
  }

  /** Number of successful trials among the `n` draws starting at `pos`. */
  function Successes(p: real, u: Rng, pos: nat, n: nat): (r: nat)
    decreases n
    ensures r <= n
  {
    if n == 0 then 0
    else (if Toss(p, u(pos)) then 1 else 0) + Successes(p, u, pos + 1, n - 1)
  }

  /** The neighbours whose trial succeeds, when `nbrs` are tried from draw `pos`. */
  function Reached(p: real, u: Rng, pos: nat, nbrs: seq<City>): (r: set<City>)
    decreases |nbrs|
    ensures forall c :: c in r ==> c in nbrs
    ensures forall c :: c in r <==> exists k :: 0 <= k < |nbrs| && nbrs[k] == c && Toss(p, u(pos + k))
  {
    if |nbrs| == 0 then {}
    else (if Toss(p, u(pos)) then {nbrs[0]} else {}) + Reached(p, u, pos + 1, nbrs[1..])
  }

  /** Number of successful trials whose neighbour lives in slot `k`. */
  function Hits(nodes: seq<City>, k: nat, p: real, u: Rng, pos: nat, nbrs: seq<City>): nat
    decreases |nbrs|
  {
    if |nbrs| == 0 then 0
    else
      (if Toss(p, u(pos)) && CityIndex(nodes, nbrs[0]) == Ok(k) then 1 else 0)
      + Hits(nodes, k, p, u, pos + 1, nbrs[1..])
  }

  /** The origin's side of a transmission event: its Itimes entry is bumped. */
  function Bump(c: Cell): (r: Cell)
    ensures r.(itimes := c.itimes) == c
    ensures c.itimes < 255 ==> r.itimes == c.itimes + 1
    ensures c.itimes == 255 ==> r.itimes == 0
  {
    c.(itimes := Wrap(c.itimes + 1))
  }

  /** The effect of one transmission event on the cell of slot `x`, when the
      neighbour lives in slot `k` and the origin in slot `j`. */
  function EventCell(c: Cell, x: nat, j: nat, k: nat): Cell {
    var a := if x == k then Infect(c, 1) else c;
    if x == j then Bump(a) else a
  }

  /** One transmission event from slot `j` to neighbour `c` in slot `k` at
      column `v`: one person of `c` is infected (clamped), the origin's Itimes
      is bumped and `c` joins the infected set. */
  function Event(m: Model, j: nat, v: nat, k: nat, c: City): (r: Model)
    requires Wf(m) && j < |m.nodes| && k < |m.nodes| && v < m.maxSteps
    ensures Wf(r) && r.(history := m.history, infected := m.infected) == m
    ensures r.nodes == m.nodes && r.maxSteps == m.maxSteps
    ensures r.infected == m.infected + {c}
    ensures forall x, w :: 0 <= x < |m.nodes| && 0 <= w < m.maxSteps && w != v ==>
      r.history[x][w] == m.history[x][w]
    ensures forall x :: 0 <= x < |m.nodes| ==> r.history[x][v] == EventCell(m.history[x][v], x, j, k)
  {
    var h1 := SetCell(m.history, k, v, Infect(m.history[k][v], 1));
    var h2 := SetCell(h1, j, v, Bump(h1[j][v]));
    m.(history := h2, infected := m.infected + {c})
  }

  /** The loop of `intercity_step_one_city` over the neighbours `nbrs`, with
      the transmission probability `p` fixed before the loop. It fails exactly
      when a neighbour whose trial succeeds is not a known city. */
  function Transmit(m: Model, j: nat, v: nat, p: real, nbrs: seq<City>, u: Rng, pos: nat): (r: Result<Model>)
    requires Wf(m) && j < |m.nodes| && v < m.maxSteps
    decreases |nbrs|
    ensures r.Ok? <==> forall c :: c in Reached(p, u, pos, nbrs) ==> c in m.nodes
    ensures r.Ok? ==> Wf(r.value) && r.value.(history := m.history, infected := m.infected) == m
    ensures p <= 0.0 ==> r == Ok(m)
  {
    if |nbrs| == 0 then Ok(m)
    else if !Toss(p, u(pos)) then Transmit(m, j, v, p, nbrs[1..], u, pos + 1)
    else
      match CityIndex(m.nodes, nbrs[0])
      case Err(e) => Err(e)
      case Ok(k) => Transmit(Event(m, j, v, k, nbrs[0]), j, v, p, nbrs[1..], u, pos + 1)
  }

  /** Every successful neighbour, and nothing else, joins the infected set;
      steps other than `v` are untouched. */
  lemma {:induction false} TransmitFrame(m: Model, j: nat, v: nat, p: real, nbrs: seq<City>, u: Rng, pos: nat)
    requires Wf(m) && j < |m.nodes| && v < m.maxSteps
    requires Transmit(m, j, v, p, nbrs, u, pos).Ok?
    decreases |nbrs|
    ensures Transmit(m, j, v, p, nbrs, u, pos).value.infected == m.infected + Reached(p, u, pos, nbrs)
    ensures forall x, w :: 0 <= x < |m.nodes| && 0 <= w < m.maxSteps && w != v ==>
      Transmit(m, j, v, p, nbrs, u, pos).value.history[x][w] == m.history[x][w]
  {
    if |nbrs| == 0 {
    } else if !Toss(p, u(pos)) {
      TransmitFrame(m, j, v, p, nbrs[1..], u, pos + 1);
    } else {
      var k := CityIndex(m.nodes, nbrs[0]).value;
      TransmitFrame(Event(m, j, v, k, nbrs[0]), j, v, p, nbrs[1..], u, pos + 1);
    }
  }

  /** The effect of a neighbour loop on one cell, given the number of
      successful trials aimed at it (`hits`), whether it is the origin's cell,
      and the number of successful trials overall: D is untouched, S only
      shrinks, each hit moves at most one person from S to I (so S + I is
      conserved barring byte overflow), a cell nobody aimed at keeps S and I,
      and the origin's Itimes grows by the number of successes. */
  ghost predicate TransmittedCell(c: Cell, c': Cell, hits: nat, origin: bool, successes: nat) {
    && c'.d == c.d
    && c'.s <= c.s
    && (c.s + c.i < 256 ==> c'.s + c'.i == c.s + c.i && c.s - c'.s == Min(hits, c.s))
    && (hits == 0 ==> c'.s == c.s && c'.i == c.i)
    && c'.itimes == (if origin then Wrap(c.itimes + successes) else c.itimes)
  }

  /** One transmission event is a transmission of one success. */
  lemma EventTransmits(c: Cell, x: nat, j: nat, k: nat)
    ensures TransmittedCell(c, EventCell(c, x, j, k), if x == k then 1 else 0, x == j, 1)
  {
  }

  /** One transmission event followed by a transmission of `h` hits and `n`
      successes is a transmission with the event's hit and success added. */
  lemma EventThen(c: Cell, c': Cell, x: nat, j: nat, k: nat, h: nat, n: nat)
    requires TransmittedCell(EventCell(c, x, j, k), c', h, x == j, n)
    ensures TransmittedCell(c, c', (if x == k then 1 else 0) + h, x == j, 1 + n)
  {
    EventTransmits(c, x, j, k);
    ComposeTransmitted(c, EventCell(c, x, j, k), c', if x == k then 1 else 0, h, x == j, 1, n);
  }

  /** Two transmissions in a row add their hits and successes. */
  lemma ComposeTransmitted(c: Cell, c1: Cell, c2: Cell, h1: nat, h2: nat, origin: bool, s1: nat, s2: nat)
    requires TransmittedCell(c, c1, h1, origin, s1)
    requires TransmittedCell(c1, c2, h2, origin, s2)
    ensures TransmittedCell(c, c2, h1 + h2, origin, s1 + s2)
  {
    if origin {
      WrapAdd(c.itimes + s1, s2);
    }
  }

  /** The neighbour loop seen from slot `x`: its cell is transmitted with as
      many hits as successful trials aimed at it, and the origin's Itimes
      counts every success. */
  lemma {:induction false} TransmitCell(m: Model, j: nat, v: nat, p: real, nbrs: seq<City>, u: Rng, pos: nat, x: nat)
    requires Wf(m) && j < |m.nodes| && v < m.maxSteps && x < |m.nodes|
    requires Transmit(m, j, v, p, nbrs, u, pos).Ok?
    decreases |nbrs|
    ensures TransmittedCell(m.history[x][v], Transmit(m, j, v, p, nbrs, u, pos).value.history[x][v],
      Hits(m.nodes, x, p, u, pos, nbrs), x == j, Successes(p, u, pos, |nbrs|))
  {
    if |nbrs| == 0 {
    } else if !Toss(p, u(pos)) {
      assert Transmit(m, j, v, p, nbrs[1..], u, pos + 1) == Transmit(m, j, v, p, nbrs, u, pos);
      TransmitCell(m, j, v, p, nbrs[1..], u, pos + 1, x);
      assert Hits(m.nodes, x, p, u, pos, nbrs) == Hits(m.nodes, x, p, u, pos + 1, nbrs[1..]);
      assert Successes(p, u, pos, |nbrs|) == Successes(p, u, pos + 1, |nbrs| - 1);
    } else {
      var k := CityIndex(m.nodes, nbrs[0]).value;
      var m1 := Event(m, j, v, k, nbrs[0]);
      assert Transmit(m1, j, v, p, nbrs[1..], u, pos + 1) == Transmit(m, j, v, p, nbrs, u, pos);
      TransmitCell(m1, j, v, p, nbrs[1..], u, pos + 1, x);
      EventThen(m.history[x][v], Transmit(m, j, v, p, nbrs, u, pos).value.history[x][v], x, j, k,
        Hits(m.nodes, x, p, u, pos + 1, nbrs[1..]), Successes(p, u, pos + 1, |nbrs| - 1));
      assert Hits(m.nodes, x, p, u, pos, nbrs) == (if x == k then 1 else 0) + Hits(m.nodes, x, p, u, pos + 1, nbrs[1..]);
      assert Successes(p, u, pos, |nbrs|) == 1 + Successes(p, u, pos + 1, |nbrs| - 1);
    }
  }

  /** `TransmitCell` for every slot at once. */
  lemma TransmitCells(m: Model, j: nat, v: nat, p: real, nbrs: seq<City>, u: Rng, pos: nat)
    requires Wf(m) && j < |m.nodes| && v < m.maxSteps
    requires Transmit(m, j, v, p, nbrs, u, pos).Ok?
    ensures forall x :: 0 <= x < |m.nodes| ==>
      TransmittedCell(m.history[x][v], Transmit(m, j, v, p, nbrs, u, pos).value.history[x][v],
        Hits(m.nodes, x, p, u, pos, nbrs), x == j, Successes(p, u, pos, |nbrs|))
  {
    forall x | 0 <= x < |m.nodes| {
      TransmitCell(m, j, v, p, nbrs, u, pos, x);
    }
  }

  /** A city that is not among the neighbours is never hit. */
  lemma {:induction false} HitsOutside(nodes: seq<City>, x: nat, p: real, u: Rng, pos: nat, nbrs: seq<City>)
    requires x < |nodes| && nodes[x] !in nbrs
    decreases |nbrs|
    ensures Hits(nodes, x, p, u, pos, nbrs) == 0
  {
    if |nbrs| > 0 {
      HitsOutside(nodes, x, p, u, pos + 1, nbrs[1..]);
    }
  }

  /** `p_transmission`: the rate times the ABSOLUTE infected count of the origin. */
  function Probability(m: Model, j: nat, v: nat): (p: real)
    requires Wf(m) && j < |m.nodes| && v < m.maxSteps
    ensures m.history[j][v].i == 0 ==> p == 0.0
    ensures m.rates.transmission >= 0.0 ==> p >= 0.0
    ensures m.rates.transmission >= 0.0 && m.history[j][v].i >= 1 ==> p >= m.rates.transmission
  {
    m.rates.transmission * m.history[j][v].i as real
  }

  /** The per-city effect of transmission from `city` at column `v` (slot `j`). */
  ghost predicate StepEffect(m: Model, m': Model, g: Graph, u: Rng, pos: nat, city: City, j: nat, v: nat)
    requires Wf(m) && Wf(m') && |m'.nodes| == |m.nodes| && j < |m.nodes| && v < m.maxSteps == m'.maxSteps
    requires city in g
  {
    var p := Probability(m, j, v);
    && m'.infected == m.infected + Reached(p, u, pos, g[city])
    && (forall x, w :: 0 <= x < |m.nodes| && 0 <= w < m.maxSteps && w != v ==>
          m'.history[x][w] == m.history[x][w])
    && (forall x :: 0 <= x < |m.nodes| ==>
          TransmittedCell(m.history[x][v], m'.history[x][v],
            Hits(m.nodes, x, p, u, pos, g[city]), x == j, Successes(p, u, pos, |g[city]|)))
    && (forall x :: 0 <= x < |m.nodes| && m.nodes[x] !in g[city] ==>
          Hits(m.nodes, x, p, u, pos, g[city]) == 0)
  }

  /** `intercity_step_one_city(city, t)`: one trial per graph neighbour of
      `city`, drawing from `u` at positions `pos`, `pos + 1`, ...; the trial
      probability is fixed from the origin's infected count before the loop. */
  function IntercityStepOneCity(m: Model, g: Graph, u: Rng, pos: nat, city: City, t: int): (r: Result<Model>)
    requires Wf(m)
    ensures r.Ok? ==> city in m.nodes && city in g && StepIndex(t, m.maxSteps).Ok?
    ensures city in m.nodes && StepIndex(t, m.maxSteps).Ok? && Closed(m, g) ==> r.Ok?
    ensures city !in m.nodes ==> r == Err(UnknownCity(city))
    ensures r.Ok? ==> Wf(r.value) && r.value.(history := m.history, infected := m.infected) == m
    ensures r.Ok? && m.history[Locate(m, city, t).value.0][Locate(m, city, t).value.1].i == 0 ==>
      r.value == m
  {
    var (j, v) :- Locate(m, city, t);
    if city !in g then Err(NotInGraph(city))
    else Transmit(m, j, v, Probability(m, j, v), g[city], u, pos)
  }

  /** A successful transmission step of `city` has the per-city effect
      `StepEffect` at the slot and column it locates. */
  lemma IntercityStepEffect(m: Model, g: Graph, u: Rng, pos: nat, city: City, t: int)
    requires Wf(m) && IntercityStepOneCity(m, g, u, pos, city, t).Ok?
    ensures var (j, v) := Locate(m, city, t).value;
      StepEffect(m, IntercityStepOneCity(m, g, u, pos, city, t).value, g, u, pos, city, j, v)
  {
    var (j, v) := Locate(m, city, t).value;
    TransmitEffect(m, g, u, pos, city, j, v);
  }

  /** The neighbour loop of `city` has the per-city effect `StepEffect`. */
  lemma TransmitEffect(m: Model, g: Graph, u: Rng, pos: nat, city: City, j: nat, v: nat)
    requires Wf(m) && j < |m.nodes| && v < m.maxSteps && city in g
    requires Transmit(m, j, v, Probability(m, j, v), g[city], u, pos).Ok?
    ensures var r := Transmit(m, j, v, Probability(m, j, v), g[city], u, pos).value;
      StepEffect(m, r, g, u, pos, city, j, v)
  {
    var p := Probability(m, j, v);
    TransmitFrame(m, j, v, p, g[city], u, pos);
    TransmitCells(m, j, v, p, g[city], u, pos);
    forall x | 0 <= x < |m.nodes| && m.nodes[x] !in g[city]
      ensures Hits(m.nodes, x, p, u, pos, g[city]) == 0
    {
      HitsOutside(m.nodes, x, p, u, pos, g[city]);
    }
  }
}
