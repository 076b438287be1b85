# Multi-city SID epidemic model

A Dafny model of `CityInfectionModel` and its coin-flip helper `toss`. The
simulator runs a discrete-time Susceptible/Infected/Dead model in every city
of a trade-and-pilgrimage network. Infection also jumps between neighbouring
cities by independent Bernoulli trials. The whole trace lives in one dense
`uint8` history buffer indexed by city, compartment and time step.

The model is functional. A `Model` value holds the state of one Python object:
the node list, the horizon, the rates, the history and the infected set
(`cur_infected`). Every operation returns a new `Model`.

- The global networkx graph `G` becomes a parameter `g: map<City, seq<City>>`,
  which lists each city's neighbours in iteration order.
- numpy's ambient generator becomes an oracle `u: nat -> Unit`. `u(k)` is the
  k-th value in [0, 1) that `np.random.ranf()` returns, and a position counter
  is threaded through the transmission phase. Each neighbour consumes one draw.
- Python exceptions become `Result.Err`: `UnknownCity` for `list.index`,
  `NotInGraph` for `G[city]` and `StepOutOfRange` for numpy's IndexError.
- The `uint8` entries are the subset type `Byte`. Every in-place addition wraps
  modulo 256 explicitly. Conservation therefore holds whenever a cell's total
  is below 256, and it always is once the total is the fixed population of 100.
- Rates are exact reals. Python's `int()` truncation of a non-negative product
  is `Floor`.
- Python iterates `frozenset(cur_infected)` in hash order, which nothing fixes.
  The two phase methods pick the next city with `:|`, so every contract holds
  for every iteration order. The transmission phase also returns, as a ghost,
  the order it used, and its result is exactly the fold over that order.

Modules follow the source's components:

- `Results` holds the error and result types.
- `Store` holds the buffer, the city and step lookups, and allocation.
- `Compartments` holds the clamped S→I and I→D moves.
- `IntraCity` holds `SIR_step_one_city`.
- `InterCity` holds `toss` and `intercity_step_one_city`.
- `Driver` holds construction, copy-forward, the phases, one step and a run.
- `Scenarios` holds exact small runs.

Two behaviours of the code shape the contracts:

- `copy_timestep` copies S, I and D and leaves the Itimes entry of the target
  step as it was. Itimes at a step is zero before the step runs only because
  the buffer is allocated with zeros. Running the same step twice adds the
  second run's transmission events to the first's.
- Step indices follow numpy. A negative index counts from the end, so every
  index in [-max_steps, max_steps) is accepted. `StepIndex` models that.

## Model

| member | source | states |
|---|---|---|
| `Store.Wrap` | code/make_graph.py:91 | a `uint8` entry keeps a sum below 256 unchanged and otherwise keeps it modulo 256 |
| `Store.WrapAdd` | code/make_graph.py:156 | wrapping after every `+= 1` is the same as wrapping the total once |
| `Store.CityIndex` | code/make_graph.py:100-102 | `cityI` fails exactly when the city is not in the node list; otherwise it returns a slot holding the city with no earlier slot holding it (the first occurrence) |
| `Store.StepIndex` | code/make_graph.py:91 | a time index is accepted exactly when it lies in [-max_steps, max_steps); negative indices address the column max_steps positions later |
| `Store.Allocate` | code/make_graph.py:89-93 | the fresh buffer has one row per city and one column per step; every city holds S=100 at step 0 and every later cell is all zeros |
| `Compartments.Infect` | code/make_graph.py:104-111 | S never grows; asking for at least S empties S; asking for fewer removes exactly that many; S+I is conserved; D and Itimes are untouched |
| `Compartments.Kill` | code/make_graph.py:113-119 | I never grows; asking for at least I empties I; asking for fewer removes exactly that many; I+D is conserved; S and Itimes are untouched |
| `Compartments.InfectConserves` | code/make_graph.py:104-111 | clamping: S falls by min(n, S), I rises by exactly that amount, and S+I+D is unchanged |
| `Compartments.KillConserves` | code/make_graph.py:113-119 | I falls by min(n, I), D rises by exactly that amount, and S+I+D is unchanged |
| `Compartments.Locate` | code/make_graph.py:106 | a cell lookup succeeds exactly for a known city and an in-range step; an unknown city is reported first |
| `Compartments.MakeInfected` | code/make_graph.py:104-111 | `city_make_infected` succeeds exactly for a known city and valid step; it applies the clamped S→I move to that one cell; every other cell, the node list and the infected set are unchanged |
| `Compartments.MakeDead` | code/make_graph.py:113-119 | `city_make_dead` succeeds exactly for a known city and valid step; it applies the clamped I→D move to that one cell and nothing else changes |
| `IntraCity.Truncate` | code/make_graph.py:128 | `int()` of a non-negative product is the largest natural not above it |
| `IntraCity.ToInfect` | code/make_graph.py:127-130 | `num_to_infect` is zero when nobody is susceptible, and otherwise the integer part of I × infection rate |
| `IntraCity.ToDie` | code/make_graph.py:132 | `num_to_die` is the integer part of I × mortality rate, whether or not anyone is susceptible |
| `IntraCity.SirCell` | code/make_graph.py:122-137 | one SIR update conserves S+I+D, never raises S, never lowers D and leaves Itimes alone; a cell with I = 0 is left exactly as it was |
| `IntraCity.SirCellCounts` | code/make_graph.py:125-137 | S falls by min(to_infect, S); D rises by min(to_die, post-infection I); both counts come from the same pre-step I |
| `IntraCity.SirCellExhausted` | code/make_graph.py:127-132 | with S = 0 nobody is infected and I only loses the clamped death count |
| `IntraCity.SirStepOneCity` | code/make_graph.py:122-137 | `SIR_step_one_city` succeeds exactly for a known city and valid step; it updates only that city's cell at that step; a city with I = 0 is left completely unchanged |
| `InterCity.Toss` | code/make_graph.py:66-67 | `toss(p)` never succeeds for p ≤ 0 and always succeeds for p ≥ 1; in between it succeeds exactly when the draw is below p |
| `InterCity.Successes` | code/make_graph.py:149-150 | the number of successful trials in a neighbour loop is at most the number of neighbours |
| `InterCity.Reached` | code/make_graph.py:149-157 | a city is reached exactly when it is the neighbour at some position k of the loop and the trial drawn at position k succeeds |
| `InterCity.Bump` | code/make_graph.py:156 | a transmission event changes only the origin's Itimes entry, which rises by one and wraps from 255 to 0 |
| `InterCity.Event` | code/make_graph.py:153-157 | one successful trial changes only column t: the target's cell loses one susceptible to infected (clamped), the origin's Itimes is bumped, and the target joins the infected set |
| `InterCity.ComposeTransmitted` | code/make_graph.py:149-157 | two transmissions in a row add their hits and their successes; D stays and S+I is kept |
| `InterCity.Transmit` | code/make_graph.py:148-157 | the neighbour loop fails exactly when a neighbour whose trial succeeds is not a known city; only the history and the infected set change; with p ≤ 0 it changes nothing |
| `InterCity.TransmitFrame` | code/make_graph.py:149-157 | the infected set grows by exactly the reached neighbours; other steps are untouched |
| `InterCity.TransmitCell` | code/make_graph.py:149-157 | for every city, D is untouched, S only falls, S+I is conserved, S falls by min(successful trials aimed at it, S), a city never aimed at keeps S and I, and the origin's Itimes grows by the number of successes modulo 256 while no other Itimes changes |
| `InterCity.TransmitCells` | code/make_graph.py:149-157 | the per-city effect of `TransmitCell`, for all cities at once |
| `InterCity.HitsOutside` | code/make_graph.py:149 | a city that is not among the origin's neighbours is never hit |
| `InterCity.TransmitEffect` | code/make_graph.py:148-157 | the neighbour loop with p = rate × I(origin) has the full per-city effect: reached set, frame, per-cell effect and no hits outside the neighbours |
| `InterCity.Probability` | code/make_graph.py:148 | `p_transmission` uses the absolute infected count of the origin: it is zero when the origin has nobody infected, never negative for a non-negative rate, and at least the rate itself once one person is infected |
| `InterCity.IntercityStepOneCity` | code/make_graph.py:144-157 | `intercity_step_one_city` succeeds only for a known city that is a graph node at a valid step, always succeeds under a consistent graph, reports an unknown city as such, changes only the history and the infected set, and changes nothing when the origin has I = 0 |
| `InterCity.IntercityStepEffect` | code/make_graph.py:144-157 | a successful `intercity_step_one_city` has the per-city effect of its neighbour loop at the located slot and column |
| `Driver.Seed` | code/make_graph.py:95-98 | seeding succeeds exactly when every listed city is known; only the history and the infected set change; the infected set gains exactly the listed cities |
| `Driver.SeedStepCell` | code/make_graph.py:96-97 | seeding one city inoculates the first slot of that city at step 0 with ten and keeps every other cell |
| `Driver.SeedUntouched` | code/make_graph.py:95-98 | seeding changes only step 0, and there only the first slot of each city |
| `Driver.SeedCells` | code/make_graph.py:95-98 | the first slot of a city listed q times is inoculated q times, in list order |
| `Driver.InfectTimesMoves` | code/make_graph.py:97 | q inoculations of ten move min(10q, S) people from S to I and leave D and Itimes alone |
| `Driver.Fresh` | code/make_graph.py:78-93 | before seeding, every city holds 100 susceptible at step 0, every later cell is zero and nobody is infected |
| `Driver.NewModel` | code/make_graph.py:77-98 | construction succeeds exactly for a horizon ≥ 1 and known initial cities; rates default to (0.2, 0.2, 0.1); the infected set is the initial list; step 0 is conserved at 100; a city listed once starts at S=90, I=10; an unlisted city at S=100; later steps are all zeros |
| `Driver.NewModelClosed` | code/make_graph.py:77-98 | a model built over the nodes of a graph whose neighbours are all nodes satisfies the consistency under which every step and run succeeds |
| `Driver.CopyColumn` | code/make_graph.py:167 | S, I and D of every city move from the source column to the target column; Itimes at the target and every other column stay |
| `Driver.CopyTimestepAsWritten` | code/make_graph.py:165-167 | `copy_timestep(t)` as written: it succeeds exactly when t − 1 and t are valid numpy indices, copies S, I, D from column t − 1 (wrapping negatives) into column t, and leaves every other column as it was |
| `Driver.CopyTimestepZeroWipesStart` | code/make_graph.py:165-167 | on a fresh model with two or more steps, `copy_timestep(0)` succeeds and replaces the conserved initial column with zeros |
| `Driver.CopyTimestep` | code/make_graph.py:165-167 | copy-forward for every nonzero t in (−max_steps, max_steps): S, I, D at the target column equal those of the column before it, Itimes there keeps its value, other steps are unchanged, and conservation carries forward |
| `Driver.CopyTimestepAgrees` | code/make_graph.py:165-167 | the corrected copy-forward and the code as written agree exactly when t ≠ 0 |
| `Driver.SirOneStep` | code/make_graph.py:139-142 | whatever the iteration order, exactly the slots of the infected cities get one SIR update at step t and nothing else changes; it succeeds whenever the infected cities are known and t is valid |
| `Driver.SirTurn` | code/make_graph.py:141-142 | one more city of the snapshot gets its SIR update and every earlier one keeps its update |
| `Driver.NeighboursOf` | code/make_graph.py:149 | a city is a neighbour of a set exactly when some city of the set lists it in the graph |
| `Driver.CellTransmittedStep` | code/make_graph.py:162-163 | one more origin keeps the per-cell bounds of transmission, with the origin's Itimes growing by at most its degree |
| `Driver.TransmittedStep` | code/make_graph.py:162-163 | transmission from one more city of the snapshot extends the cumulative effect of the cities done so far |
| `Driver.TransmitAll` | code/make_graph.py:159-163 | the phase as a fold of `intercity_step_one_city` over a list of origins (each origin consumes as many draws as it has neighbours); its contract: the draw position never moves backwards, and a success changes only the history and the infected set |
| `Driver.TransmitAllEffect` | code/make_graph.py:159-163 | a successful fold over distinct origins has the cumulative effect of transmission from exactly those origins at column t, changes nothing when t is not a valid index, and keeps a consistent model consistent |
| `Driver.TransmitAllClosed` | code/make_graph.py:159-163 | under a consistent graph and a valid step, the fold over distinct infected cities succeeds |
| `Driver.IntercityOneStep` | code/make_graph.py:159-163 | the result and the final draw position are exactly those of the fold over some order of the snapshot that lists each snapshot city once; so the phase transmits from the snapshot only: the set grows only by neighbours of the snapshot; other steps are untouched; D stays; S only falls; S+I is conserved; a city nobody lists keeps S and I; only snapshot cities change Itimes, by at most their degree; it succeeds under a consistent graph and a valid step |
| `Driver.CopyThenSir` | code/make_graph.py:169-172 | copy-forward followed by the SIR phase is one SIR update of the copied column at the infected slots |
| `Driver.CopyAndSir` | code/make_graph.py:169-172 | the first two phases of a step succeed exactly for a nonzero t in (−max_steps, max_steps) when the infected cities are known; column t then holds column t − 1 with one SIR update at the infected slots, and nothing else changes |
| `Driver.StepConserves` | code/make_graph.py:169-173 | a step carries a population below 256 from t − 1 to t, never raises S, never lowers D and keeps conservation |
| `Driver.StepStable` | code/make_graph.py:169-173 | a city outside the infected set that no infected city lists as a neighbour copies S, I and D unchanged from t − 1 |
| `Driver.ModelOneStep` | code/make_graph.py:169-173 | one step succeeds exactly for a nonzero t in (−max_steps, max_steps) under a consistent graph; it is copy-forward and SIR, then transmission that is exactly the fold over some order of the infected set after SIR, from the given draw position to the returned one; it carries S+I+D from t − 1 to t; S[t] ≤ S[t−1] and D[t] ≥ D[t−1] |
| `Driver.StepFrame` | code/make_graph.py:169-173 | a step writes only its column and the infected set only grows |
| `Driver.StepAdvances` | code/make_graph.py:169-173 | every step advances its column: frame, S falls, population kept, D rises |
| `Driver.RanCons` | code/make_graph.py:178-180 | a step followed by a run from the next column is a run one column longer |
| `Driver.TraceCons` | code/make_graph.py:178-180 | a step followed by a run from the next column is a run |
| `Driver.TraceRan` | code/make_graph.py:178-180 | a run writes only its columns, grows the infected set, keeps a conserved population, and S falls and D rises column by column |
| `Driver.RunModel` | code/make_graph.py:175-180 | `run_model(n, s)` succeeds exactly when n = 0 or steps s … s+n−1 are all valid nonzero indices under a consistent graph; every step is a complete step at consecutive columns; the transmission of each step is exactly its fold over an order of its snapshot, and each step draws from where the previous one stopped; only those columns change; from a conserved column before the first, every visited column is conserved and S falls and D rises step by step |
| `Script.RunScriptAsWritten` | code/make_graph.py:187-198 | the script's `run_model(1500)` on a 1500-step model fails for every graph and every draw sequence |
| `Script.RunScript` | code/make_graph.py:187-198 | with 1499 steps the script succeeds on a consistent graph listing Paris; every column keeps the population of 100; Paris stays infected; Paris's first slot starts at S=90, I=10 and every other city at S=100 |
| `Scenarios.SirScenario` | code/make_graph.py:122-137 | S=100, I=10, D=0 with rates 0.2/0.2 gives S=98, I=10, D=2 |
| `Scenarios.SirStepScenario` | code/make_graph.py:122-137 | the same update through `SIR_step_one_city` on a one-city model changes only that cell |
| `Scenarios.NewModelScenario` | code/make_graph.py:95-98 | with `init_infected = ["Paris"]`, Paris starts at S=90, I=10 and every other city at S=100 |
| `Scenarios.EventScenario` | code/make_graph.py:153-157 | one event from A (I=5) to B moves one person of B to infected, sets A's Itimes to 1 and adds B to the set |
| `Scenarios.TransmissionScenario` | code/make_graph.py:144-157 | cities A–B, A with I=5, transmission rate 1.0: for every draw, B gains exactly one infected, A's Itimes becomes 1, and B joins the infected set |
| `Scenarios.IdleOriginScenario` | code/make_graph.py:148-150 | an origin with I = 0 transmits nothing whatever the draws |

## Left out

- Dataset import and graph construction (code/make_graph.py:1-53) are file I/O and networkx glue; the graph is a parameter.
- `draw_graph` and every `print`, including the progress line of `run_model` (code/make_graph.py:55-59, 179), are UI only.
- `save_to_disk` (code/make_graph.py:182-183, 200) is file I/O; the script's result stands for what would be saved.
- The analytics and degree-distribution block (code/make_graph.py:210-271) is dead code inside a string literal.
- numpy's generator is replaced by the draw oracle. Its distribution and seeding are not modelled.
- Floating point: rates and products are exact reals. Rounding of float products near an integer boundary is not modelled.
- Partial state on failure: every operation returns the error and drops the partly updated state, where the Python object keeps the updates made before the exception.
- IntraCity.SirCell: requires non-negative infection and mortality rates. A negative rate hands a negative count to the clamped moves, and numpy's handling of that `uint8` update depends on its version. The transmission rate is unrestricted.
- Driver.NewModel: takes the horizon as a natural number. A negative `max_steps`, which numpy rejects with ValueError, is not modelled.
- Driver.RunModel: takes `n` as a natural number, since a negative `n` runs no steps in Python.
- Driver.ModelOneStep: uses the corrected copy-forward (see Findings), so it rejects t = 0, which the code accepts through negative indexing.

## Findings

| source | as written | input that shows it | evidently intended | confidence | as-written member | corrected member |
|---|---|---|---|---|---|---|
| code/make_graph.py:165-167 | `copy_timestep(t)` reads `history[:, :3, t - 1]`; for t = 0 numpy reads index −1, the last column | a fresh model with `max_steps` ≥ 2, then `copy_timestep(0)`, as `run_model(n, 0)` does: the step-0 population of every city becomes 0 | step 0 holds the initial conditions and is never a copy target; runs start at step 1 | medium, not executed | `Driver.CopyTimestepAsWritten` (`Driver.CopyTimestepZeroWipesStart`) | `Driver.CopyTimestep` |
| code/make_graph.py:187-198 | the script allocates 1500 steps and then calls `run_model(1500)`, which visits steps 1 … 1500 | any graph and any draws: step 1500 is one past the last column, numpy raises IndexError, and `save_to_disk` on line 200 never runs | run the 1499 steps after step 0 that the buffer holds | high, not executed | `Script.RunScriptAsWritten` | `Script.RunScript` |
