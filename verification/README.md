# Reservoir simulation core in Dafny

This project models the core of an agent-based simulation of steam-assisted bitumen
recovery. The simulation works on a rectangular grid of reservoir cells, one agent per cell.
Each cell holds a porosity, a permeability, oil, water and steam saturations, a
temperature and a pressure. One model step does three things:

- it adds the steam injected along the injection-well row to a running total;
- it activates every cell once, in a random order;
- it records the oil produced so far, the steam-to-oil ratio (SOR) and every cell's oil
  saturation and temperature.

A cell's own step runs five phases in a fixed order:

1. injection, when the cell lies on the injection well;
2. for each Moore neighbour, a one-way oil flow driven by the pressure difference, then
   heat conduction into that neighbour;
3. a new pressure computed from the saturations;
4. production, when the cell lies on the production well;
5. renormalisation of the three saturations when they sum to more than 1.

The model has four modules:

- `Params` holds most of the values the simulation imports from its constants module:
  the initial saturations, the reservoir and steam temperatures, the base viscosity and the
  injection rate. `VISCOSITY_TEMP_COEFF` has no field of its own. It appears only inside
  the exponential factor of the viscosity law, an uninterpreted positive function equal
  to 1 at 0. `POROSITY` and `PERMEABILITY` have no field either (see below).
- `Grid` holds positions, the non-wrapping Moore neighbourhood and the two well rows.
- `Agents` holds the `Cell` record and the per-cell update. Each phase is a function, and a
  cell's whole step is the function `AgentStep`, from a grid (a sequence of cells indexed by
  id) and a cell id to the new grid and the oil produced.
- `Model` holds the class `Reservoir`. It stores the cells in an array and the
  position-to-id map of the grid. Its counters and its time series are fields. Its methods
  update them in place and are proved against the functions of `Agents` and `Model`:
  - `StepAgent` against `AgentStep`;
  - `ExchangeWithNeighbours` against `ExchangeAll`;
  - `ActivateSchedule` against `ActivateAll`, the fold of `AgentStep` over an activation
    order;
  - `InjectSteam` against `RowSteam`.

The random activation order is a parameter of `Step`. It must be a permutation of the cell
ids. The constructor takes each cell's porosity and permeability as two sequences indexed
by id. Each entry stands for the base constant times that cell's random factor:
`POROSITY` × factor and `PERMEABILITY` × factor. The constructor requires these values to be
positive, and nothing more.

As written, a cell's step (src/agents.py:24-62) cannot complete, for two reasons. The
model follows the evident intent in both places.

- **Well membership.** The agent compares its position with `model.injection_well` and
  `model.production_well` (src/agents.py:26, src/agents.py:51). The model class never
  defines those attributes; it defines only `injection_well_row` and `production_well_row`
  (src/model.py:21-22). So the first time any agent steps, line 26 raises an
  AttributeError. The model tests the wells by row instead: `Grid.OnInjectionWell` and
  `Grid.OnProductionWell` hold when the cell lies in that row.
- **Neighbour lookup.** Line 33 calls mesa's `get_neighbors`. According to mesa's
  documented API, that call returns the neighbouring agents, not their positions; positions
  come from `get_neighborhood`. Line 35 then passes each agent to `get_cell_list_contents`,
  which expects coordinates. The model updates each neighbouring agent directly, the
  evident intent of lines 33-45. It visits the in-bounds neighbours in a fixed order:
  x offset first, then y offset.

Some guarantees hold only for some cells. The "saturations sum to at most 1" guarantee holds
only for the stepping cell, at the end of its own step. A neighbour that receives oil can
exceed 1 until its own turn comes. The stored pressure is the pressure of the saturations
after the neighbour loop, so it need not match the final saturations
(`Agents.Settle`, src/agents.py:48).

## Model

| member | source | states |
|---|---|---|
| Grid.MooreNeighbours | src/agents.py:33 | A position is listed exactly when it is in the grid, differs from p and lies at most one step away on each axis. No position is listed twice, and there are at most eight. |
| Grid.InjectionRow | src/model.py:21 | The injection well is the last row of the grid, and it lies inside the grid whenever the grid has a row. |
| Grid.ProductionRow | src/model.py:22 | The production well lies two rows above the injection well, so the two are different rows. Both lie inside the grid exactly when the height is at least 3. |
| Grid.OnInjectionWell | src/agents.py:26 | A cell is on the injection well when it lies in the injection row, read as the row of src/model.py:21. A cell inside the grid can only be there when the grid has a row. |
| Grid.OnProductionWell | src/agents.py:51 | A cell is on the production well when it lies in the production row, read as the row of src/model.py:22. A cell inside the grid can only be there when the grid has at least three rows, and no cell is on both wells. |
| Agents.NewCell | src/agents.py:9-18 | A new cell has the given id, position, porosity and permeability, the initial oil and water saturations, no steam, the reservoir temperature and a pressure of 1000. Its viscosity is therefore the base bitumen viscosity. |
| Agents.Viscosity | src/agents.py:20-22 | The viscosity is always positive. It equals the base bitumen viscosity at the reservoir temperature. |
| Agents.Inject | src/agents.py:26-30 | Only steam, temperature, water and oil change. Steam rises by exactly rate × porosity. The new temperature is the midpoint of the old one and the steam temperature. Water and oil each become max(0, old − rate): never negative, and either 0 or exactly old − rate. |
| Agents.FlowRate | src/agents.py:37-38 | With a positive permeability, the Darcy flow rate is positive exactly when the cell's pressure exceeds the neighbour's, so oil only flows down the pressure gradient. |
| Agents.Exchange | src/agents.py:36-45 | The cell changes only its oil. The neighbour changes only its oil, water and temperature. Their combined oil is unchanged. Nothing flows unless the rate is positive. Otherwise the amount moved is min(oil, rate × porosity), and the neighbour's water drops by that amount, floored at 0. With non-negative oil and porosity the cell keeps between 0 and its old oil. The neighbour's temperature moves 10% of the way to the cell's, so it stays between the two. |
| Agents.PressureFor | src/agents.py:48 | Pressure is 1000 plus 500 per unit of oil and of steam saturation, so it is at least 1000 for non-negative saturations. |
| Agents.Produce | src/agents.py:51-55 | Only oil and water change. The amount produced is min(oil, 0.05 × porosity), and oil falls by exactly that amount. For non-negative oil and porosity the amount and the remaining oil are non-negative. Water falls by the amount, floored at 0. |
| Agents.Renormalise | src/agents.py:57-62 | A cell whose saturations sum to at most 1 is unchanged. Otherwise only the three saturations change: each is divided by the same sum, and they then sum to exactly 1. Non-negative saturations stay non-negative and sum to at most 1. |
| Agents.Settle | src/agents.py:47-62 | After the neighbour loop, the cell keeps its id, position, porosity, permeability and temperature. Its pressure is computed from its oil and steam before production. Only a cell of the production well produces. From non-negative saturations and porosity, the saturations end non-negative with sum at most 1, and the production is non-negative. |
| Agents.ExchangeAll | src/agents.py:33-45 | The neighbour loop keeps every cell's id, position, porosity and permeability. It changes no cell's steam or pressure, and it leaves the stepping cell's temperature unchanged. |
| Agents.ExchangeAllConservesOil | src/agents.py:39-41 | The neighbour loop leaves the total oil over the grid unchanged. |
| Agents.ExchangeAllKeepsNonNegative | src/agents.py:39-42 | The neighbour loop keeps every saturation of every cell non-negative. |
| Agents.ExchangeAllFrame | src/agents.py:33-45 | The neighbour loop leaves unchanged every cell other than the stepping cell and the visited neighbours. |
| Agents.AgentStep | src/agents.py:24-62 | A cell's step keeps the grid's layout and the one-cell-per-position placement. A cell off the production well produces no oil. |
| Agents.AgentStepBounds | src/agents.py:24-62 | From non-negative saturations, a cell's step leaves every saturation non-negative. It leaves the stepping cell's own saturations summing to at most 1, and it produces a non-negative amount of oil. |
| Agents.AgentStepFrame | src/agents.py:33-45 | A cell's step changes no cell other than itself and its Moore neighbours. |
| Model.SorDenominator | src/model.py:71 | The denominator max(oil produced, 1e-6) is positive. It is at least 1e-6 and at least the oil produced, and it is one of the two. |
| Model.Sor | src/model.py:71 | The SOR times the oil produced is the steam injected once the oil produced reaches 1e-6. Below that, the SOR times 1e-6 is the steam injected. The SOR is non-negative when the steam is. |
| Model.Collect | src/model.py:68-74 | A record holds the oil produced, the SOR of the two totals, and every cell's oil saturation and temperature by id. |
| Model.RowPorosity | src/model.py:78-81 | The summed porosity of a row is non-negative, and positive once it covers a cell. |
| Model.RowSteam | src/model.py:78-81 | The steam injected along a row, rate × porosity cell by cell, is non-negative for a non-negative rate. It is positive for a positive rate once it covers a cell. |
| Model.RowSteamScales | src/model.py:78-81 | The steam injected along a row equals the rate times the row's total porosity. |
| Model.PermutationCoversAll | src/model.py:82 | An activation order of n distinct ids below n activates every cell. |
| Model.ActivateAll | src/model.py:82 | Stepping the cells in turn in any order keeps the layout and the one-cell-per-position placement. |
| Model.ActivateAllKeepsNonNegative | src/model.py:82 | From non-negative saturations, a whole schedule step keeps every saturation non-negative and produces a non-negative amount of oil. |
| Model.PlaceAgents | src/model.py:38-54 | Construction places one new cell at every position of the width × height grid and nowhere else. Ids are consecutive from 0, in column-major order (x × height + y), each id naming the cell at its position. |
| Model.PlaceColumn | src/model.py:40-54 | Filling column i places one new cell in each row with the next id. The used-position and occupied-cell guards never fire. |
| Model.Reservoir.constructor | src/model.py:17-54 | A new model satisfies the grid invariant and has width × height cells, each created with its own porosity and permeability. Cell ids run column by column, both totals are 0 and the time series is empty. |
| Model.Reservoir.UnfilledPositions | src/model.py:60-65 | The check after placement lists exactly the in-bounds positions without a cell, so on a valid model it reports nothing. |
| Model.Reservoir.StepAgent | src/agents.py:24-62 | Updating the grid in place gives exactly AgentStep's grid, and the oil counter grows by exactly the oil AgentStep produces. |
| Model.Reservoir.InjectAt | src/agents.py:26-30 | The in-place injection changes only the stepping cell, exactly as Inject does, and only on the injection well. |
| Model.Reservoir.ExchangeWithNeighbours | src/agents.py:33-45 | The in-place neighbour loop gives exactly ExchangeAll over the Moore neighbours. |
| Model.Reservoir.ExchangeWith | src/agents.py:36-45 | One loop iteration updates the cell and the neighbour in place exactly as Exchange does, and nothing else. |
| Model.Reservoir.SettleAt | src/agents.py:47-62 | Pressure, production and renormalisation in place change only the stepping cell and the oil counter, exactly as Settle does. |
| Model.Reservoir.Step | src/model.py:76-83 | A model step fails without changing anything exactly when the grid has positive width and no rows. Otherwise: the steam total grows by the injection row's steam; the grid and the oil counter become those of activating every cell in the given order; one record of the new state is appended to the series. The steam total never decreases. From non-negative saturations, they stay non-negative and the oil total never decreases. |
| Model.Reservoir.InjectSteam | src/model.py:77-81 | The loop over the injection row adds rate × porosity of each of its cells to the steam total. It fails on a grid of positive width and no rows. |
| Model.Reservoir.ActivateSchedule | src/model.py:82 | Stepping the cells in place in the given order gives exactly ActivateAll's grid and production. From non-negative saturations, the saturations stay non-negative and the oil total never decreases. |

## Left out

- The default arguments `width=20, height=20` of the constructor (src/model.py:17) are
  left out. `Reservoir`'s constructor always takes the width and height explicitly.
- Logging (src/model.py:12-14, 44-58, 65) is left out. So are the error reports of the
  placement guards and the post-placement check; the model proves that these never fire.
- The loop that clears the grid before placement (src/model.py:30-36) is left out. It finds
  nothing on a freshly built grid.
- src/visualization.py (plotting and image output) is not part of this model. Neither is
  src/main.py, a skeleton with an empty agent step and random placement.
- The mesa library is not part of this model. Each of its parts is modelled as follows:
  - the single-occupancy grid is the map from positions to ids;
  - the random scheduler is the activation order given to `Step`;
  - the data collector is the `series` field;
  - `get_neighbors` is `Grid.MooreNeighbours`, and the visiting order of the neighbours is
    taken to be the order of `Grid.MooreOffsets`.
- `POROSITY`, `PERMEABILITY` and the random factors on them (src/agents.py:12-13) are not
  modelled separately. The constructor takes each cell's porosity and permeability, which
  stand for the products `POROSITY` × factor and `PERMEABILITY` × factor. It requires only
  that they be positive. It does not require porosity to lie in `POROSITY`·[0.9, 1.1] or
  permeability in `PERMEABILITY`·[0.8, 1.2].
- The constants module src/constants is not part of this model, so its values are not
  known.
  - `Params.Constants` has a field for each of the initial oil and water saturations, the
    reservoir and steam temperatures, the base viscosity and the injection rate.
  - `VISCOSITY_TEMP_COEFF` is present only inside the uninterpreted `thermalFactor`.
  - `Params.Valid` assumes a positive base viscosity and a non-negative injection rate.
- Agents.Viscosity: does not state that viscosity falls as temperature rises, because the
  exponential is an uninterpreted function. For the same reason, the expected value at
  temperature 50 in tests/test_agents.py:16-18 is not stated.
- Floating-point arithmetic is modelled as exact real arithmetic. Rounding is not modelled.
- Model.Reservoir.Step: the failure on a grid with positive width and no rows is modelled as
  `ok == false` with nothing changed. The model does not reproduce the exception that the
  lookup of an empty cell list raises.
- Agents.AgentStepBounds: bounds the saturation sum of the stepping cell only. A neighbour
  that receives oil can exceed a sum of 1 until its own step.
