/** The reservoir model (src/model.py): construction of the grid, the model-level step
    (steam accounting, activation of every cell once, data collection) and the SOR
    reporter. */
module Model {
  import opened Params
  import opened Grid
  import opened Agents

  const SorEpsilon: real := 0.000001

  /** One row of the collected time series: the model reporters (oil produced, SOR) and
      the agent reporters (oil saturation and temperature of every cell, by id). */
  datatype Record = Record(oilProduced: real, sor: real, oilSaturation: seq<real>, temperature: seq<real>)

  /** Denominator of the SOR reporter: the oil produced, floored at epsilon. */
  function SorDenominator(oilProduced: real): (d: real)
    ensures d > 0.0 && d >= SorEpsilon && d >= oilProduced
    ensures d == oilProduced || d == SorEpsilon
  {
    if oilProduced > SorEpsilon then oilProduced else SorEpsilon
  }

  /** Steam-to-oil ratio as reported. */
  function Sor(steamInjected: real, oilProduced: real): (r: real)
    ensures oilProduced >= SorEpsilon ==> r * oilProduced == steamInjected
    ensures oilProduced < SorEpsilon ==> r * SorEpsilon == steamInjected
    ensures steamInjected >= 0.0 ==> r >= 0.0
  {
    steamInjected / SorDenominator(oilProduced)
  }

  /** The row the data collector appends: it only reads the model. */
  function Collect(g: seq<Cell>, oilProduced: real, steamInjected: real): (r: Record)
    ensures r.oilProduced == oilProduced && r.sor == Sor(steamInjected, oilProduced)
    ensures |r.oilSaturation| == |g| && |r.temperature| == |g|
    ensures forall c :: 0 <= c < |g| ==> r.oilSaturation[c] == g[c].oil && r.temperature[c] == g[c].temperature
  {
    Record(oilProduced, Sor(steamInjected, oilProduced),
           seq(|g|, c requires 0 <= c < |g| => g[c].oil),
           seq(|g|, c requires 0 <= c < |g| => g[c].temperature))
  }

  /** Sum of the porosities of the first n cells of a row. */
  function RowPorosity(g: seq<Cell>, occ: map<Pos, nat>, width: nat, height: nat, row: int, n: nat): (s: real)
    requires Placed(g, occ, width, height) && n <= width && (n == 0 || 0 <= row < height)
    ensures s >= 0.0
    ensures n > 0 ==> s > 0.0
  {
    if n == 0 then 0.0
    else RowPorosity(g, occ, width, height, row, n - 1) + g[occ[Pos(n - 1, row)]].porosity
  }

  /** Steam injected along the first n cells of a row: the rate times each cell's
      porosity, cell by cell. */
  function RowSteam(rate: real, g: seq<Cell>, occ: map<Pos, nat>, width: nat, height: nat, row: int, n: nat): (s: real)
    requires Placed(g, occ, width, height) && n <= width && (n == 0 || 0 <= row < height)
    ensures rate >= 0.0 ==> s >= 0.0
    ensures rate > 0.0 && n > 0 ==> s > 0.0
  {
    if n == 0 then 0.0
    else RowSteam(rate, g, occ, width, height, row, n - 1) + rate * g[occ[Pos(n - 1, row)]].porosity
  }

  /** The steam of a row is the rate times the row's total porosity. */
  lemma {:induction false} RowSteamScales(rate: real, g: seq<Cell>, occ: map<Pos, nat>, width: nat, height: nat, row: int, n: nat)
    requires Placed(g, occ, width, height) && n <= width && (n == 0 || 0 <= row < height)
    ensures RowSteam(rate, g, occ, width, height, row, n) == rate * RowPorosity(g, occ, width, height, row, n)
  {
    if n > 0 {
      RowSteamScales(rate, g, occ, width, height, row, n - 1);
    }
  }

  /** An activation order of n cells: every id below n, each once. */
  predicate IsPermutation(order: seq<nat>, n: nat)
  {
    |order| == n && Distinct(order) && forall s :: 0 <= s < |order| ==> order[s] < n
  }

  /** An activation order activates every cell. */
  lemma PermutationCoversAll(order: seq<nat>, n: nat, c: nat)
    requires IsPermutation(order, n) && c < n
    ensures c in order
  {
    // the ids of `order` are n distinct values below n, so they are all of them
    var ids := Elements(order);
    var range := Range(n);
    DistinctCard(order);
    RangeCard(n);
    assert ids <= range;
    assert range == ids + (range - ids);
    assert |range - ids| == 0;
    assert c in range;
    assert c in ids;
  }

  function Elements(order: seq<nat>): set<nat>
  {
    set s | 0 <= s < |order| :: order[s]
  }

  /** The ids below n. */
  function Range(n: nat): (r: set<nat>)
    ensures forall v: nat :: v in r <==> v < n
  {
    if n == 0 then {} else Range(n - 1) + {n - 1}
  }

  lemma {:induction false} DistinctCard(order: seq<nat>)
    requires Distinct(order)
    ensures |Elements(order)| == |order|
  {
    if order != [] {
      var n := |order| - 1;
      var front := order[..n];
      assert Distinct(front);
      DistinctCard(front);
      assert Elements(order) == Elements(front) + {order[n]};
      assert order[n] !in Elements(front);
    }
  }

  lemma {:induction false} RangeCard(n: nat)
    ensures |Range(n)| == n
  {
    if n > 0 {
      RangeCard(n - 1);
    }
  }

  /** The schedule's step: each cell of `order` steps in turn on the grid the previous
      ones left; the second component is the oil produced. */
  function ActivateAll(k: Constants, width: nat, height: nat, occ: map<Pos, nat>, g: seq<Cell>, order: seq<nat>): (r: (seq<Cell>, real))
    requires Valid(k) && Placed(g, occ, width, height)
    requires forall s :: 0 <= s < |order| ==> order[s] < |g|
    ensures SameLayout(g, r.0) && Placed(r.0, occ, width, height)
    decreases |order|
  {
    if order == [] then (g, 0.0)
    else
      var prev := ActivateAll(k, width, height, occ, g, order[..|order| - 1]);
      var last := AgentStep(k, width, height, occ, prev.0, order[|order| - 1]);
      (last.0, prev.1 + last.1)
  }

  /** One more activation extends the fold by one agent step. */
  lemma ActivateAllNext(k: Constants, width: nat, height: nat, occ: map<Pos, nat>, g: seq<Cell>, order: seq<nat>, s: nat)
    requires Valid(k) && Placed(g, occ, width, height)
    requires forall t :: 0 <= t < |order| ==> order[t] < |g|
    requires s < |order|
    ensures var prev := ActivateAll(k, width, height, occ, g, order[..s]);
      var step := AgentStep(k, width, height, occ, prev.0, order[s]);
      ActivateAll(k, width, height, occ, g, order[..s + 1]) == (step.0, prev.1 + step.1)
  {
    var o := order[..s + 1];
    assert o[..|o| - 1] == order[..s];
    assert o[|o| - 1] == order[s];
    var whole := ActivateAll(k, width, height, occ, g, o);
    var prev := ActivateAll(k, width, height, occ, g, o[..|o| - 1]);
    assert whole.0 == AgentStep(k, width, height, occ, prev.0, o[|o| - 1]).0;
    assert whole.1 == prev.1 + AgentStep(k, width, height, occ, prev.0, o[|o| - 1]).1;
    assert prev == ActivateAll(k, width, height, occ, g, order[..s]);
  }

  /** A whole schedule step keeps every saturation non-negative and produces a
      non-negative amount of oil. */
  lemma {:induction false} ActivateAllKeepsNonNegative(k: Constants, width: nat, height: nat, occ: map<Pos, nat>, g: seq<Cell>, order: seq<nat>)
    requires Valid(k) && Placed(g, occ, width, height)
    requires forall s :: 0 <= s < |order| ==> order[s] < |g|
    requires NonNegative(g)
    ensures var r := ActivateAll(k, width, height, occ, g, order);
      NonNegative(r.0) && r.1 >= 0.0
    decreases |order|
  {
    if order != [] {
      var prev := ActivateAll(k, width, height, occ, g, order[..|order| - 1]);
      ActivateAllKeepsNonNegative(k, width, height, occ, g, order[..|order| - 1]);
      AgentStepBounds(k, width, height, occ, prev.0, order[|order| - 1]);
    }
  }

  /** The reservoir: the grid of cells (by id), the map from positions to ids, the running
      totals and the collected time series. */
  class Reservoir {
    const width: nat
    const height: nat
    const k: Constants
    const cells: array<Cell>
    const occupant: map<Pos, nat>
    var totalOilProduced: real
    var totalSteamInjected: real
    var series: seq<Record>

    ghost predicate Valid()
      reads this, cells
    {
      Params.Valid(k) && Placed(cells[..], occupant, width, height)
    }

    /** Builds the model: a width × height grid filled column by column with new cells
        whose ids run from 0, zeroed totals and an empty time series. */
    constructor (width: nat, height: nat, k: Constants, porosity: seq<real>, permeability: seq<real>)
      requires Params.Valid(k)
      requires |porosity| == width * height && |permeability| == width * height
      requires forall c :: 0 <= c < |porosity| ==> porosity[c] > 0.0
      requires forall c :: 0 <= c < |permeability| ==> permeability[c] > 0.0
      ensures Valid() && fresh(cells)
      ensures this.width == width && this.height == height && this.k == k
      ensures cells.Length == width * height
      ensures forall x, y :: 0 <= x < width && 0 <= y < height ==> occupant[Pos(x, y)] == x * height + y
      ensures forall c :: 0 <= c < cells.Length ==>
        cells[c] == NewCell(k, c, cells[c].pos, porosity[c], permeability[c])
      ensures totalOilProduced == 0.0 && totalSteamInjected == 0.0 && series == []
    {
      var agents, grid := PlaceAgents(width, height, k, porosity, permeability);
      this.width, this.height, this.k := width, height, k;
      occupant := grid;
      cells := new Cell[|agents|](c requires 0 <= c < |agents| => agents[c]);
      totalOilProduced, totalSteamInjected := 0.0, 0.0;
      series := [];
      new;
      assert cells[..] == agents;
      var unfilled := UnfilledPositions();
      assert unfilled == [];
    }

    /** The construction-time check: the positions that do not hold exactly one cell. */
    method UnfilledPositions() returns (unfilled: seq<Pos>)
      ensures forall p :: p in unfilled <==> InBounds(width, height, p) && p !in occupant
      ensures Valid() ==> unfilled == []
    {
      unfilled := [];
      var i := 0;
      while i < width
        invariant 0 <= i <= width
        invariant forall p :: p in unfilled <==> InBounds(i, height, p) && p !in occupant
      {
        var j := 0;
        while j < height
          invariant 0 <= j <= height
          invariant forall p :: p in unfilled <==>
            (InBounds(i, height, p) || (p.x == i && 0 <= p.y < j)) && p !in occupant
        {
          if Pos(i, j) !in occupant {
            unfilled := unfilled + [Pos(i, j)];
          }
          j := j + 1;
        }
        i := i + 1;
      }
      assert unfilled != [] ==> unfilled[0] in unfilled;
    }

    /** Cell i's step (src/agents.py:24-62), on the grid and the oil counter. */
    method StepAgent(i: nat)
      requires Valid() && i < cells.Length
      modifies this`totalOilProduced, cells
      ensures Valid()
      ensures var r := AgentStep(k, width, height, occupant, old(cells[..]), i);
        cells[..] == r.0 && totalOilProduced == old(totalOilProduced) + r.1
    {
      ghost var g := cells[..];
      ghost var r := AgentStep(k, width, height, occupant, g, i);
      ghost var g1 := Injected(k, height, g, i);
      ghost var ps := MooreNeighbours(width, height, g[i].pos);
      assert LinksOf(occupant, g1, i, ps) by {
        forall q | q in ps ensures q in occupant && occupant[q] < |g1| && occupant[q] != i {
          assert g[occupant[q]].pos == q;
        }
      }
      ghost var g2 := ExchangeAll(k, occupant, g1, i, ps);
      assert g2 == Exchanged(k, width, height, occupant, g, i);
      assert r.0 == g2[i := Settle(height, g2[i]).0] && r.1 == Settle(height, g2[i]).1;
      InjectAt(i);
      assert cells[..] == g1 && cells[i].pos == g[i].pos;
      ExchangeWithNeighbours(i);
      assert cells[..] == g2;
      SettleAt(i);
      assert cells[..] == r.0;
    }

    /** Phase 1 of a cell's step: steam injection when the cell lies on the injection
        well. */
    method InjectAt(i: nat)
      requires Params.Valid(k) && i < cells.Length
      modifies cells
      ensures cells[..] == Injected(k, height, old(cells[..]), i)
    {
      if OnInjectionWell(height, cells[i].pos) {
        cells[i] := cells[i].(steam := cells[i].steam + k.steamInjectionRate * cells[i].porosity);
        cells[i] := cells[i].(temperature := cells[i].temperature + (k.steamTemp - cells[i].temperature) * InjectionHeating);
        cells[i] := cells[i].(water := Max(0.0, cells[i].water - k.steamInjectionRate));
        cells[i] := cells[i].(oil := Max(0.0, cells[i].oil - k.steamInjectionRate));
        assert cells[i] == Inject(k, old(cells[i]));
      }
    }

    /** Phase 2 of a cell's step: oil flow and heat conduction towards each Moore
        neighbour in turn. */
    method ExchangeWithNeighbours(i: nat)
      requires Params.Valid(k) && i < cells.Length
      requires LinksOf(occupant, cells[..], i, MooreNeighbours(width, height, cells[i].pos))
      modifies cells
      ensures cells[..] == ExchangeAll(k, occupant, old(cells[..]), i, MooreNeighbours(width, height, old(cells[i].pos)))
    {
      ghost var g := cells[..];
      var neighbours := MooreNeighbours(width, height, cells[i].pos);
      var n := 0;
      while n < |neighbours|
        invariant 0 <= n <= |neighbours|
        invariant cells[..] == ExchangeAll(k, occupant, g, i, neighbours[..n])
      {
        ExchangeAllNext(k, occupant, g, i, neighbours, n);
        ExchangeWith(i, occupant[neighbours[n]]);
        n := n + 1;
      }
      assert neighbours[..n] == neighbours;
    }

    /** The body of the neighbour loop: flow from cell i to cell j when the flow rate is
        positive, then conduction. */
    method ExchangeWith(i: nat, j: nat)
      requires Params.Valid(k) && i < cells.Length && j < cells.Length && i != j
      modifies cells
      ensures var e := Exchange(k, old(cells[i]), old(cells[j]));
        cells[..] == old(cells[..])[i := e.0][j := e.1]
    {
      ghost var e := Exchange(k, cells[i], cells[j]);
      var flow := cells[i].permeability * (cells[i].pressure - cells[j].pressure)
                  / Viscosity(k, cells[i].temperature) * FlowCoefficient;
      assert flow == FlowRate(k, cells[i], cells[j]);
      if flow > 0.0 {
        var moved := Min(cells[i].oil, flow * cells[i].porosity);
        cells[i] := cells[i].(oil := cells[i].oil - moved);
        cells[j] := cells[j].(oil := cells[j].oil + moved);
        cells[j] := cells[j].(water := Max(0.0, cells[j].water - moved));
      }
      cells[j] := cells[j].(temperature := cells[j].temperature + (cells[i].temperature - cells[j].temperature) * Conduction);
      assert cells[i] == e.0 && cells[j] == e.1;
    }

    /** Phases 3 to 5 of a cell's step: pressure, production at the production well,
        renormalisation. */
    method SettleAt(i: nat)
      requires i < cells.Length
      modifies this`totalOilProduced, cells
      ensures var s := Settle(height, old(cells[i]));
        cells[..] == old(cells[..])[i := s.0] && totalOilProduced == old(totalOilProduced) + s.1
    {
      cells[i] := cells[i].(pressure := BasePressure + PressurePerSaturation * (cells[i].oil + cells[i].steam));
      if OnProductionWell(height, cells[i].pos) {
        var produced := Min(cells[i].oil, ProductionCoefficient * cells[i].porosity);
        cells[i] := cells[i].(oil := cells[i].oil - produced);
        totalOilProduced := totalOilProduced + produced;
        cells[i] := cells[i].(water := Max(0.0, cells[i].water - produced));
      }
      var total := cells[i].oil + cells[i].water + cells[i].steam;
      if total > 1.0 {
        cells[i] := cells[i].(oil := cells[i].oil / total);
        cells[i] := cells[i].(water := cells[i].water / total);
        cells[i] := cells[i].(steam := cells[i].steam / total);
      }
    }

    /** One model step. It fails, changing nothing, exactly when a cell of the injection
        row cannot be looked up (a grid of positive width and no rows). */
    method Step(order: seq<nat>) returns (ok: bool)
      requires Valid() && IsPermutation(order, cells.Length)
      modifies this, cells
      ensures Valid()
      ensures ok <==> width == 0 || height > 0
      ensures !ok ==> unchanged(this) && cells[..] == old(cells[..])
      ensures ok ==>
        totalSteamInjected == old(totalSteamInjected)
          + RowSteam(k.steamInjectionRate, old(cells[..]), occupant, width, height, InjectionRow(height), width)
      ensures ok ==>
        var r := ActivateAll(k, width, height, occupant, old(cells[..]), order);
        cells[..] == r.0 && totalOilProduced == old(totalOilProduced) + r.1
      ensures ok ==> series == old(series) + [Collect(cells[..], totalOilProduced, totalSteamInjected)]
      ensures NonNegative(old(cells[..])) ==>
        NonNegative(cells[..]) && totalOilProduced >= old(totalOilProduced)
      ensures totalSteamInjected >= old(totalSteamInjected)
    {
      ok := InjectSteam();
      if !ok {
        return;
      }
      ActivateSchedule(order);
      series := series + [Collect(cells[..], totalOilProduced, totalSteamInjected)];
    }

    /** Steam accounting of a step: the injection rate times the porosity of every cell of
        the injection row is added to the steam total. The lookup of the first cell of the
        row fails when the grid has no rows. */
    method InjectSteam() returns (ok: bool)
      requires Valid()
      modifies this`totalSteamInjected
      ensures ok <==> width == 0 || height > 0
      ensures !ok ==> totalSteamInjected == old(totalSteamInjected)
      ensures ok ==>
        totalSteamInjected == old(totalSteamInjected)
          + RowSteam(k.steamInjectionRate, cells[..], occupant, width, height, InjectionRow(height), width)
      ensures totalSteamInjected >= old(totalSteamInjected)
    {
      var row := InjectionRow(height);
      var x := 0;
      while x < width
        invariant 0 <= x <= width
        invariant x > 0 ==> height > 0
        invariant x == 0 ==> totalSteamInjected == old(totalSteamInjected)
        invariant height > 0 ==>
          totalSteamInjected == old(totalSteamInjected)
            + RowSteam(k.steamInjectionRate, cells[..], occupant, width, height, row, x)
      {
        var pos := Pos(x, row);
        if pos !in occupant {
          return false;
        }
        totalSteamInjected := totalSteamInjected + k.steamInjectionRate * cells[occupant[pos]].porosity;
        x := x + 1;
      }
      ok := true;
    }

    /** The schedule's step: every cell steps once, in the order given. */
    method ActivateSchedule(order: seq<nat>)
      requires Valid() && IsPermutation(order, cells.Length)
      modifies this`totalOilProduced, cells
      ensures Valid()
      ensures var r := ActivateAll(k, width, height, occupant, old(cells[..]), order);
        cells[..] == r.0 && totalOilProduced == old(totalOilProduced) + r.1
      ensures NonNegative(old(cells[..])) ==>
        NonNegative(cells[..]) && totalOilProduced >= old(totalOilProduced)
    {
      ghost var g := cells[..];
      var s := 0;
      while s < |order|
        invariant 0 <= s <= |order|
        invariant Valid()
        invariant cells[..] == ActivateAll(k, width, height, occupant, g, order[..s]).0
        invariant totalOilProduced == old(totalOilProduced) + ActivateAll(k, width, height, occupant, g, order[..s]).1
      {
        ActivateAllNext(k, width, height, occupant, g, order, s);
        StepAgent(order[s]);
        s := s + 1;
      }
      assert order[..s] == order;
      if NonNegative(g) {
        ActivateAllKeepsNonNegative(k, width, height, occupant, g, order);
      }
    }
  }

  /** The state of construction once every column before i, and the rows before j of
      column i, hold their cell: `agents` lists the cells by id and `grid` maps each filled
      position to the id of its cell, ids following the order of filling. */
  ghost predicate Filled(k: Constants, porosity: seq<real>, permeability: seq<real>, height: nat,
                         i: nat, j: nat, agents: seq<Cell>, grid: map<Pos, nat>)
    requires Params.Valid(k)
  {
    && |agents| == i * height + j
    && |agents| <= |porosity| && |agents| <= |permeability|
    && (forall p :: p in grid <==> InBounds(i, height, p) || (p.x == i && 0 <= p.y < j))
    && (forall x, y :: (0 <= x < i && 0 <= y < height) || (x == i && 0 <= y < j) ==>
          Pos(x, y) in grid && grid[Pos(x, y)] == x * height + y)
    && (forall p :: p in grid ==> grid[p] < |agents| && agents[grid[p]].pos == p)
    && (forall c :: 0 <= c < |agents| ==>
          agents[c] == NewCell(k, c, agents[c].pos, porosity[c], permeability[c])
          && agents[c].pos in grid && grid[agents[c].pos] == c)
  }

  /** The placement loops of construction: one new cell at every position, each position
      checked against the set of used positions and the grid before placing. */
  method PlaceAgents(width: nat, height: nat, k: Constants, porosity: seq<real>, permeability: seq<real>)
    returns (agents: seq<Cell>, grid: map<Pos, nat>)
    requires Params.Valid(k)
    requires |porosity| == width * height && |permeability| == width * height
    requires forall c :: 0 <= c < |porosity| ==> porosity[c] > 0.0
    requires forall c :: 0 <= c < |permeability| ==> permeability[c] > 0.0
    ensures |agents| == width * height
    ensures Placed(agents, grid, width, height)
    ensures forall x, y :: 0 <= x < width && 0 <= y < height ==> grid[Pos(x, y)] == x * height + y
    ensures forall c :: 0 <= c < |agents| ==>
      agents[c] == NewCell(k, c, agents[c].pos, porosity[c], permeability[c])
  {
    var used: set<Pos> := {};
    grid := map[];
    agents := [];
    var i := 0;
    while i < width
      invariant 0 <= i <= width
      invariant used == grid.Keys
      invariant Filled(k, porosity, permeability, height, i, 0, agents, grid)
    {
      agents, grid, used := PlaceColumn(width, height, k, porosity, permeability, i, agents, grid, used);
      NextColumn(k, porosity, permeability, width, height, i, agents, grid);
      i := i + 1;
    }
    assert forall p :: p in grid <==> InBounds(width, height, p);
    forall c | 0 <= c < |agents| ensures agents[c].porosity > 0.0 && agents[c].permeability > 0.0 {
      assert agents[c] == NewCell(k, c, agents[c].pos, porosity[c], permeability[c]);
    }
  }

  /** The inner placement loop: fills column i, row by row, giving each new cell the next
      id. */
  method PlaceColumn(width: nat, height: nat, k: Constants, porosity: seq<real>, permeability: seq<real>,
                     i: nat, agents0: seq<Cell>, grid0: map<Pos, nat>, used0: set<Pos>)
    returns (agents: seq<Cell>, grid: map<Pos, nat>, used: set<Pos>)
    requires Params.Valid(k) && i < width
    requires |porosity| == width * height && |permeability| == width * height
    requires used0 == grid0.Keys
    requires Filled(k, porosity, permeability, height, i, 0, agents0, grid0)
    ensures used == grid.Keys
    ensures Filled(k, porosity, permeability, height, i, height, agents, grid)
  {
    agents, grid, used := agents0, grid0, used0;
    var agentId: nat := |agents|;
    var j := 0;
    while j < height
      invariant 0 <= j <= height
      invariant agentId == |agents| && used == grid.Keys
      invariant Filled(k, porosity, permeability, height, i, j, agents, grid)
    {
      var pos := Pos(i, j);
      if pos in used {
        assert false;  // the duplicate-position guard never fires
      } else if pos in grid {
        assert false;  // nor does the occupied-cell guard
      } else {
        IdBelowCount(i, j, width, height);
        var agent := NewCell(k, agentId, pos, porosity[agentId], permeability[agentId]);
        PlaceOne(k, porosity, permeability, width, height, i, j, agents, grid);
        grid := grid[pos := agentId];
        agents := agents + [agent];
        used := used + {pos};
        agentId := agentId + 1;
      }
      j := j + 1;
    }
  }

  lemma PlaceOne(k: Constants, porosity: seq<real>, permeability: seq<real>, width: nat, height: nat,
                 i: nat, j: nat, agents: seq<Cell>, grid: map<Pos, nat>)
    requires Params.Valid(k) && i < width && j < height
    requires |porosity| == width * height && |permeability| == width * height
    requires Filled(k, porosity, permeability, height, i, j, agents, grid)
    ensures |agents| < |porosity|
    ensures var id := |agents|;
      Filled(k, porosity, permeability, height, i, j + 1,
             agents + [NewCell(k, id, Pos(i, j), porosity[id], permeability[id])], grid[Pos(i, j) := id])
  {
    IdBelowCount(i, j, width, height);
    var id := |agents|;
    var agents' := agents + [NewCell(k, id, Pos(i, j), porosity[id], permeability[id])];
    var grid' := grid[Pos(i, j) := id];
    assert Pos(i, j) !in grid;
    forall c | 0 <= c < |agents'|
      ensures agents'[c] == NewCell(k, c, agents'[c].pos, porosity[c], permeability[c])
      ensures agents'[c].pos in grid' && grid'[agents'[c].pos] == c
    {
      if c < id {
        assert agents'[c] == agents[c];
      }
    }
  }

  lemma NextColumn(k: Constants, porosity: seq<real>, permeability: seq<real>, width: nat, height: nat,
                   i: nat, agents: seq<Cell>, grid: map<Pos, nat>)
    requires Params.Valid(k) && i < width && |porosity| == width * height && |permeability| == width * height
    requires Filled(k, porosity, permeability, height, i, height, agents, grid)
    ensures Filled(k, porosity, permeability, height, i + 1, 0, agents, grid)
  {
    assert i * height + height == (i + 1) * height;
    assert (i + 1) * height <= width * height;
  }

  lemma IdBelowCount(i: nat, j: nat, width: nat, height: nat)
    requires i < width && j < height
    ensures i * height + j < width * height
  {
    assert (i + 1) * height <= width * height;
  }
}
