/** Small exact runs of the model, worked out by hand from the source. */
module Scenarios {
  import opened Results
  import opened Store
  import opened Compartments
  import opened IntraCity
  import opened InterCity
  import opened Driver

  /** One SIR update with rates 0.2/0.2 from S=100, I=10, D=0: two people
      are infected and two die, both counts taken from the pre-step I = 10. */
  lemma SirScenario()
    ensures SirCell(Cell(100, 10, 0, 0), Rates(0.2, 0.2, 0.1)) == Cell(98, 10, 2, 0)
  {
  }

  /** The same update through the model, on a one-city model whose step 1
      is the copy-forward of its initial state S=90, I=10, D=0: two people
      are infected and two die, and the population stays at 100. */
  lemma SirStepScenario()
    ensures var m := Model(["A"], 2, DefaultRates, [[Cell(90, 10, 0, 0), Cell(90, 10, 0, 0)]], {"A"});
      SirStepOneCity(m, "A", 1) == Ok(m.(history := [[Cell(90, 10, 0, 0), Cell(88, 10, 2, 0)]]))
  {
    var m := Model(["A"], 2, DefaultRates, [[Cell(90, 10, 0, 0), Cell(90, 10, 0, 0)]], {"A"});
    assert Locate(m, "A", 1) == Ok((0, 1));
    assert ToInfect(m.history[0][1], m.rates) == 2;
    assert Infect(m.history[0][1], 2) == Cell(88, 12, 0, 0);
    assert SirCell(m.history[0][1], m.rates) == Cell(88, 10, 2, 0);
    var h' := SetCell(m.history, 0, 1, Cell(88, 10, 2, 0));
    assert h'[0][0] == Cell(90, 10, 0, 0) && h'[0][1] == Cell(88, 10, 2, 0);
    assert h'[0] == [Cell(90, 10, 0, 0), Cell(88, 10, 2, 0)];
    assert h' == [[Cell(90, 10, 0, 0), Cell(88, 10, 2, 0)]];
  }

  /** Construction with `init_infected = ["Paris"]`: Paris starts with ten
      infected out of its hundred, every other city fully susceptible. */
  lemma NewModelScenario()
    ensures var r := NewModel(["Paris", "Rome"], 3, ["Paris"], None);
      && r.Ok?
      && r.value.infected == {"Paris"}
      && r.value.rates == DefaultRates
      && r.value.history[0][0] == Cell(90, 10, 0, 0)
      && r.value.history[1][0] == Cell(100, 0, 0, 0)
  {
  }

  /** One transmission event from A (slot 0) to B (slot 1): B loses one
      susceptible to I, A's Itimes becomes 1 and B joins the infected set. */
  lemma EventScenario()
    ensures
      var m := Model(["A", "B"], 1, Rates(0.2, 0.2, 1.0), [[Cell(95, 5, 0, 0)], [Cell(100, 0, 0, 0)]], {"A"});
      Event(m, 0, 0, 1, "B") == m.(history := [[Cell(95, 5, 0, 1)], [Cell(99, 1, 0, 0)]], infected := {"A", "B"})
  {
    var m := Model(["A", "B"], 1, Rates(0.2, 0.2, 1.0), [[Cell(95, 5, 0, 0)], [Cell(100, 0, 0, 0)]], {"A"});
    assert Infect(Cell(100, 0, 0, 0), 1) == Cell(99, 1, 0, 0);
    assert Bump(Cell(95, 5, 0, 0)) == Cell(95, 5, 0, 1);
    var h1 := SetCell(m.history, 1, 0, Cell(99, 1, 0, 0));
    assert h1[0] == [Cell(95, 5, 0, 0)] && h1[1] == [Cell(99, 1, 0, 0)];
    assert h1 == [[Cell(95, 5, 0, 0)], [Cell(99, 1, 0, 0)]];
    var h2 := SetCell(h1, 0, 0, Cell(95, 5, 0, 1));
    assert h2[0] == [Cell(95, 5, 0, 1)] && h2[1] == [Cell(99, 1, 0, 0)];
    assert h2 == [[Cell(95, 5, 0, 1)], [Cell(99, 1, 0, 0)]];
  }

  /** Two cities joined by one edge, origin with I = 5 and transmission rate
      1.0: p = 5, so the single trial succeeds whatever the draw; the
      neighbour gains exactly one infected and the origin's Itimes is 1. */
  lemma TransmissionScenario(u: Rng, pos: nat)
    ensures
      var m := Model(["A", "B"], 1, Rates(0.2, 0.2, 1.0), [[Cell(95, 5, 0, 0)], [Cell(100, 0, 0, 0)]], {"A"});
      var g := map["A" := ["B"], "B" := ["A"]];
      var r := IntercityStepOneCity(m, g, u, pos, "A", 0);
      && r.Ok?
      && r.value.history == [[Cell(95, 5, 0, 1)], [Cell(99, 1, 0, 0)]]
      && r.value.infected == {"A", "B"}
  {
    var m := Model(["A", "B"], 1, Rates(0.2, 0.2, 1.0), [[Cell(95, 5, 0, 0)], [Cell(100, 0, 0, 0)]], {"A"});
    assert Locate(m, "A", 0) == Ok((0, 0));
    assert Probability(m, 0, 0) == 5.0;
    assert Toss(5.0, u(pos));
    assert CityIndex(["A", "B"], "B") == Ok(1);
    EventScenario();
    var e := Event(m, 0, 0, 1, "B");
    assert Transmit(m, 0, 0, 5.0, ["B"], u, pos) == Transmit(e, 0, 0, 5.0, [], u, pos + 1);
  }

  /** An origin without infected people never transmits. */
  lemma IdleOriginScenario(u: Rng, pos: nat)
    ensures
      var m := Model(["A", "B"], 1, DefaultRates, [[Cell(100, 0, 0, 0)], [Cell(100, 0, 0, 0)]], {"A"});
      IntercityStepOneCity(m, map["A" := ["B"], "B" := ["A"]], u, pos, "A", 0) == Ok(m)
  {
  }
}
