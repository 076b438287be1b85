/** The module-level script of `make_graph.py`: build a 1500-step model over
    the graph's cities with Paris initially infected, run it, and save the
    buffer (saving is I/O and is not modelled; the result stands for what
    would be saved). */
module Script {
  import opened Results
  import opened Store
  import opened IntraCity
  import opened InterCity
  import opened Driver

  /** The horizon the script allocates. */
  const Horizon: nat := 1500

  /** The script's graph is closed over its node list: every node is a graph
      node and every neighbour is a node. */
  predicate ClosedGraph(nodes: seq<City>, g: Graph) {
    && (forall j :: 0 <= j < |nodes| ==> nodes[j] in g)
    && (forall c, k :: c in g && 0 <= k < |g[c]| ==> g[c][k] in nodes)
  }

  /** The script as written: `run_model(1500)` visits steps 1, ..., 1500 of a
      1500-step buffer, so step 1500 raises IndexError and nothing is saved,
      whatever the graph and whatever the draws. */
  method RunScriptAsWritten(nodes: seq<City>, g: Graph, u: Rng, pos: nat) returns (r: Result<Model>)
    ensures r.Err?
  {
    var plague := NewModel(nodes, Horizon, ["Paris"], None);
    if plague.Err? {
      return plague;
    }
    var run, _, _, _, _, _ := RunModel(plague.value, g, u, pos, Horizon, 1);
    r := run;
  }

  /** The script with the run fitted to the buffer: `run_model(1499)` fills
      steps 1, ..., 1499. On a closed graph listing Paris it succeeds, keeps
      the initial population in every city at every step, and Paris starts
      with ten infected and ninety susceptible, every other city with a hundred
      susceptible. */
  method RunScript(nodes: seq<City>, g: Graph, u: Rng, pos: nat) returns (r: Result<Model>)
    ensures ClosedGraph(nodes, g) && "Paris" in nodes ==> r.Ok?
    ensures r.Ok? ==> "Paris" in nodes && Wf(r.value) && r.value.nodes == nodes && r.value.maxSteps == Horizon
    ensures r.Ok? ==> forall w :: 0 <= w < Horizon ==> Conserved(r.value, w)
    ensures r.Ok? ==> "Paris" in r.value.infected
    ensures r.Ok? ==> forall j :: 0 <= j < |nodes| && CityIndex(nodes, nodes[j]) == Ok(j) ==>
      r.value.history[j][0] == if nodes[j] == "Paris" then Cell(90, 10, 0, 0) else Cell(100, 0, 0, 0)
  {
    var plague := NewModel(nodes, Horizon, ["Paris"], None);
    if plague.Err? {
      return plague;
    }
    if ClosedGraph(nodes, g) {
      NewModelClosed(nodes, Horizon, ["Paris"], None, g);
    }
    assert forall c :: Count(["Paris"], c) == if c == "Paris" then 1 else 0;
    var run, _, _, _, _, _ := RunModel(plague.value, g, u, pos, Horizon - 1, 1);
    r := run;
  }
}
