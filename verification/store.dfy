/** The epidemic state store: the dense history buffer of `CityInfectionModel`,
    indexed by city slot, time step and compartment, plus the two lookups every
    operation goes through (city name to slot, Python time index to column). */
module Store {
  import opened Results

  /** One `uint8` entry of the numpy buffer. */
  type Byte = x: int | 0 <= x < 256

  /** In-place `+=` on a `uint8` entry keeps the low eight bits. */
  function Wrap(x: nat): (b: Byte)
    ensures x < 256 ==> b == x
    ensures (x - b) % 256 == 0
  {
    x % 256
  }

  /** Wrapping after every addition is wrapping once at the end. */
  lemma WrapAdd(x: nat, y: nat)
    ensures Wrap(Wrap(x) + y) == Wrap(x + y)
  {
  }

  /** Wrapping a sum `a + k` and subtracting `a` gives back `k` modulo 256. */
  lemma WrapDiff(a: Byte, k: nat)
    ensures (Wrap(a + k) - a) % 256 == k % 256
  {
    var q := (a + k) / 256;
    assert a + k == q * 256 + Wrap(a + k);
    assert Wrap(a + k) - a == k - q * 256;
  }

  /** The four compartments of one city at one time step:
      susceptible, infected, cumulative dead, and the diagnostic count of
      transmission events that originated in this city at this step. */
  datatype Cell = Cell(s: Byte, i: Byte, d: Byte, itimes: Byte)

  /** Everybody a cell accounts for (Itimes is not a population count). */
  function Population(c: Cell): nat {
    c.s + c.i + c.d
  }

  /** Fixed population of every city at time 0. */
  const InitialPopulation: Byte := 100

  const Zero := Cell(0, 0, 0, 0)

  /** `(infection_rate, mortality_rate, transmission_rate)`. */
  datatype Rates = Rates(infection: real, mortality: real, transmission: real)

  const DefaultRates := Rates(0.2, 0.2, 0.1)

  /** The state of a `CityInfectionModel` object. `history[j][t]` is the cell
      of the city in slot `j` at step `t`; `infected` is `cur_infected`. */
  datatype Model = Model(
    nodes: seq<City>,
    maxSteps: nat,
    rates: Rates,
    history: seq<seq<Cell>>,
    infected: set<City>)

  /** The graph provider: each city's neighbours, in iteration order. */
  type Graph = map<City, seq<City>>

  /** The buffer has one row per city and one column per time step. */
  predicate Wf(m: Model) {
    && |m.history| == |m.nodes|
    && forall j :: 0 <= j < |m.history| ==> |m.history[j]| == m.maxSteps
  }

  /** The consistency the script's construction gives (every node is a graph
      node, every neighbour is a node) and the model keeps (every infected city
      is a node). Under it no lookup ever fails. */
  predicate Closed(m: Model, g: Graph) {
    && (forall c :: c in m.infected ==> c in m.nodes)
    && (forall j :: 0 <= j < |m.nodes| ==> m.nodes[j] in g)
    && (forall c, k :: c in g && 0 <= k < |g[c]| ==> g[c][k] in m.nodes)
  }

  /** `node_list.index(city)`: the first slot holding `city`, or ValueError. */
  function CityIndex(nodes: seq<City>, city: City): (r: Result<nat>)
    ensures r.Err? <==> city !in nodes
    ensures r.Err? ==> r.error == UnknownCity(city)
    ensures r.Ok? ==> r.value < |nodes| && nodes[r.value] == city
    ensures r.Ok? ==> forall k :: 0 <= k < r.value ==> nodes[k] != city
  {
    if |nodes| == 0 then Err(UnknownCity(city))
    else if nodes[0] == city then Ok(0)
    else
      match CityIndex(nodes[1..], city)
      case Err(e) => Err(e)
      case Ok(k) => Ok(k + 1)
  }

  /** Numpy indexing of the time axis: negative indices count from the end,
      anything else outside the axis raises IndexError. */
  function StepIndex(t: int, n: nat): (r: Result<nat>)
    ensures r.Ok? <==> -(n as int) <= t < n
    ensures r.Err? ==> r.error == StepOutOfRange(t)
    ensures r.Ok? ==> r.value < n && r.value as int == (if t < 0 then t + n else t)
  {
    if 0 <= t < n then Ok(t)
    else if -(n as int) <= t < 0 then Ok(t + n)
    else Err(StepOutOfRange(t))
  }

  /** Overwrite one cell of the buffer; every other cell keeps its value. */
  function SetCell(h: seq<seq<Cell>>, j: nat, t: nat, c: Cell): (h': seq<seq<Cell>>)
    requires j < |h| && t < |h[j]|
    ensures |h'| == |h|
    ensures forall k :: 0 <= k < |h| ==> |h'[k]| == |h[k]|
    ensures h'[j][t] == c
    ensures forall k, v :: 0 <= k < |h| && 0 <= v < |h[k]| && (k != j || v != t) ==> h'[k][v] == h[k][v]
    ensures c == h[j][t] ==> h' == h
  {
    assert h[j][t := h[j][t]] == h[j];
    h[j := h[j][t := c]]
  }

  /** `np.zeros((cities, 4, steps))` with `history[:, S, 0] = 100`. */
  function Allocate(cities: nat, steps: nat): (h: seq<seq<Cell>>)
    requires steps >= 1
    ensures |h| == cities
    ensures forall j :: 0 <= j < cities ==> |h[j]| == steps
    ensures forall j :: 0 <= j < cities ==> h[j][0] == Cell(InitialPopulation, 0, 0, 0)
    ensures forall j, v :: 0 <= j < cities && 1 <= v < steps ==> h[j][v] == Zero
  {
    seq(cities, _ => seq(steps, v => if v == 0 then Cell(InitialPopulation, 0, 0, 0) else Zero))
  }

  /** Every city holds exactly the initial population at column `v`. */
  predicate Conserved(m: Model, v: int)
    requires Wf(m)
  {
    && 0 <= v < m.maxSteps
    && forall j :: 0 <= j < |m.nodes| ==> Population(m.history[j][v]) == InitialPopulation as nat
  }

  /** Conservation at a column depends on that column only. */
  lemma ConservedFrame(m: Model, m': Model, v: int)
    requires Wf(m) && Wf(m') && m'.nodes == m.nodes && m'.maxSteps == m.maxSteps
    requires Conserved(m, v)
    requires forall j :: 0 <= j < |m.nodes| ==> m'.history[j][v] == m.history[j][v]
    ensures Conserved(m', v)
  {
  }
}
