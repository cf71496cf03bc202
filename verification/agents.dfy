/** The per-cell update rule of the reservoir simulation (src/agents.py): a reservoir cell,
    its viscosity, and, as functions on the grid of cells, the fixed sequence of phases one
    cell's step runs on itself and its Moore neighbours. These functions are the
    specification that `Model.Reservoir.StepAgent` is proved against. */
module Agents {
  import opened Params
  import opened Grid

  /** One reservoir cell. `id` and `pos` are fixed at placement and porosity and
      permeability at creation; saturations, temperature and pressure change as the
      simulation steps. */
  datatype Cell = Cell(
    id: nat,
    pos: Pos,
    porosity: real,
    permeability: real,
    oil: real,
    water: real,
    steam: real,
    temperature: real,
    pressure: real)

  const InitialPressure: real := 1000.0       // kPa
  const BasePressure: real := 1000.0
  const PressurePerSaturation: real := 500.0
  const FlowCoefficient: real := 0.01
  const InjectionHeating: real := 0.5
  const Conduction: real := 0.1
  const ProductionCoefficient: real := 0.05

  function Min(a: real, b: real): real { if b < a then b else a }
  function Max(a: real, b: real): real { if b > a then b else a }

  /** Total saturation of a cell. */
  function Saturation(c: Cell): real { c.oil + c.water + c.steam }

  /** A cell as created: initial saturations, no steam, reservoir temperature. */
  function NewCell(k: Constants, id: nat, pos: Pos, porosity: real, permeability: real): (c: Cell)
    requires Valid(k)
    ensures c.id == id && c.pos == pos && c.porosity == porosity && c.permeability == permeability
    ensures c.oil == k.initialOilSat && c.water == k.initialWaterSat && c.steam == 0.0
    ensures c.temperature == k.reservoirTemp && Viscosity(k, c.temperature) == k.bitumenViscosity
    ensures c.pressure == InitialPressure
  {
    Cell(id, pos, porosity, permeability, k.initialOilSat, k.initialWaterSat, 0.0,
         k.reservoirTemp, InitialPressure)
  }

  /** Bitumen viscosity at a temperature: the base viscosity times the exponential factor
      of the distance to the reservoir temperature. */
  function Viscosity(k: Constants, temperature: real): (v: real)
    requires Valid(k)
    ensures v > 0.0
    ensures temperature == k.reservoirTemp ==> v == k.bitumenViscosity
  {
    k.bitumenViscosity * k.thermalFactor(temperature - k.reservoirTemp)
  }

  // ---------------------------------------------------------------------------------
  // Phase 1: injection at the injection well

  function Inject(k: Constants, c: Cell): (r: Cell)
    requires Valid(k)
    ensures r == c.(steam := r.steam, temperature := r.temperature, water := r.water, oil := r.oil)
    ensures r.steam == c.steam + k.steamInjectionRate * c.porosity
    ensures r.temperature - c.temperature == k.steamTemp - r.temperature
    ensures r.water >= 0.0 && r.water >= c.water - k.steamInjectionRate
    ensures r.water == 0.0 || r.water == c.water - k.steamInjectionRate
    ensures r.oil >= 0.0 && r.oil >= c.oil - k.steamInjectionRate
    ensures r.oil == 0.0 || r.oil == c.oil - k.steamInjectionRate
    ensures c.oil >= 0.0 ==> r.oil <= c.oil
  {
    var c1 := c.(steam := c.steam + k.steamInjectionRate * c.porosity);
    var c2 := c1.(temperature := c1.temperature + (k.steamTemp - c1.temperature) * InjectionHeating);
    var c3 := c2.(water := Max(0.0, c2.water - k.steamInjectionRate));
    c3.(oil := Max(0.0, c3.oil - k.steamInjectionRate))
  }

  // ---------------------------------------------------------------------------------
  // Phase 2: oil flow and heat conduction towards one neighbour

  /** Simplified Darcy flow rate from `me` towards `nb`. With a positive permeability
      it is positive exactly when `me` holds the higher pressure. */
  function FlowRate(k: Constants, me: Cell, nb: Cell): (f: real)
    requires Valid(k)
    ensures me.permeability > 0.0 ==> (f > 0.0 <==> me.pressure > nb.pressure)
  {
    me.permeability * (me.pressure - nb.pressure) / Viscosity(k, me.temperature) * FlowCoefficient
  }

  /** One iteration of the neighbour loop: `me` pushes oil to `nb` when the flow rate is
      positive, the oil displacing `nb`'s water, and then `nb`'s temperature relaxes 10%
      towards `me`'s. The result is the new `me` and the new `nb`. */
  function Exchange(k: Constants, me: Cell, nb: Cell): (r: (Cell, Cell))
    requires Valid(k)
    // `me` only loses oil; `nb` only has its oil, water and temperature changed
    ensures r.0 == me.(oil := r.0.oil)
    ensures r.1 == nb.(oil := r.1.oil, water := r.1.water, temperature := r.1.temperature)
    // the oil `me` loses is the oil `nb` gains
    ensures r.0.oil + r.1.oil == me.oil + nb.oil
    // no flow unless the flow rate is positive
    ensures FlowRate(k, me, nb) <= 0.0 ==> r.0 == me && r.1.oil == nb.oil && r.1.water == nb.water
    ensures FlowRate(k, me, nb) > 0.0 ==>
      var moved := me.oil - r.0.oil;
      && moved <= me.oil && moved <= FlowRate(k, me, nb) * me.porosity
      && (moved == me.oil || moved == FlowRate(k, me, nb) * me.porosity)
      && r.1.water >= 0.0 && r.1.water >= nb.water - moved
      && (r.1.water == 0.0 || r.1.water == nb.water - moved)
    // the amount moved is never negative and never more than `me` holds
    ensures me.oil >= 0.0 && me.porosity >= 0.0 ==> 0.0 <= r.0.oil <= me.oil
    // conduction: `nb` moves a tenth of the way towards `me`'s temperature
    ensures r.1.temperature - nb.temperature == Conduction * (me.temperature - nb.temperature)
    ensures Min(nb.temperature, me.temperature) <= r.1.temperature <= Max(nb.temperature, me.temperature)
  {
    var flow := FlowRate(k, me, nb);
    var moved := if flow > 0.0 then Min(me.oil, flow * me.porosity) else 0.0;
    assert me.oil >= 0.0 && me.porosity >= 0.0 && flow > 0.0 ==> flow * me.porosity >= 0.0;
    var me' := me.(oil := me.oil - moved);
    var nb' := if flow > 0.0 then nb.(oil := nb.oil + moved, water := Max(0.0, nb.water - moved)) else nb;
    (me', nb'.(temperature := nb'.temperature + (me'.temperature - nb'.temperature) * Conduction))
  }

  // ---------------------------------------------------------------------------------
  // Phase 3: pressure

  /** Pressure of a cell as a function of its oil and steam saturations. */
  function PressureFor(oil: real, steam: real): (p: real)
    ensures oil >= 0.0 && steam >= 0.0 ==> p >= BasePressure
    ensures p == BasePressure + PressurePerSaturation * (oil + steam)
  {
    BasePressure + PressurePerSaturation * (oil + steam)
  }

  // ---------------------------------------------------------------------------------
  // Phase 4: production at the production well

  /** Production from a cell of the production well; the second component is the oil
      produced. */
  function Produce(c: Cell): (r: (Cell, real))
    ensures r.0 == c.(oil := r.0.oil, water := r.0.water)
    ensures r.0.oil == c.oil - r.1
    ensures r.1 <= c.oil && r.1 <= ProductionCoefficient * c.porosity
    ensures r.1 == c.oil || r.1 == ProductionCoefficient * c.porosity
    ensures c.oil >= 0.0 && c.porosity >= 0.0 ==> r.1 >= 0.0 && r.0.oil >= 0.0
    ensures r.0.water >= 0.0 && r.0.water >= c.water - r.1
    ensures r.0.water == 0.0 || r.0.water == c.water - r.1
  {
    var produced := Min(c.oil, ProductionCoefficient * c.porosity);
    var c1 := c.(oil := c.oil - produced);
    (c1.(water := Max(0.0, c1.water - produced)), produced)
  }

  // ---------------------------------------------------------------------------------
  // Phase 5: renormalisation

  /** When the three saturations sum to more than 1 they are divided by that sum. */
  function Renormalise(c: Cell): (r: Cell)
    ensures Saturation(c) <= 1.0 ==> r == c
    ensures Saturation(c) > 1.0 ==>
      && r == c.(oil := r.oil, water := r.water, steam := r.steam)
      && r.oil * Saturation(c) == c.oil
      && r.water * Saturation(c) == c.water
      && r.steam * Saturation(c) == c.steam
      && Saturation(r) == 1.0
    ensures c.oil >= 0.0 && c.water >= 0.0 && c.steam >= 0.0 ==>
      r.oil >= 0.0 && r.water >= 0.0 && r.steam >= 0.0 && Saturation(r) <= 1.0
  {
    var total := Saturation(c);
    if total > 1.0 then
      var r := c.(oil := c.oil / total, water := c.water / total, steam := c.steam / total);
      assert r.oil + r.water + r.steam == (c.oil + c.water + c.steam) / total;
      r
    else
      c
  }

  // ---------------------------------------------------------------------------------
  // The grid of cells

  /** Cells are stored by id; `occ` maps every in-bounds position to the id of the cell
      placed there, and back. Porosity and permeability are positive. */
  ghost predicate Placed(g: seq<Cell>, occ: map<Pos, nat>, width: nat, height: nat)
  {
    && (forall p :: p in occ <==> InBounds(width, height, p))
    && (forall p :: p in occ ==> occ[p] < |g| && g[occ[p]].pos == p)
    && (forall c :: 0 <= c < |g| ==> g[c].id == c && g[c].pos in occ && occ[g[c].pos] == c)
    && (forall c :: 0 <= c < |g| ==> g[c].porosity > 0.0 && g[c].permeability > 0.0)
  }

  /** h has the cells of g in the same places, with the same fixed properties. */
  predicate SameLayout(g: seq<Cell>, h: seq<Cell>)
  {
    && |h| == |g|
    && forall c :: 0 <= c < |g| ==>
         h[c].id == g[c].id && h[c].pos == g[c].pos
         && h[c].porosity == g[c].porosity && h[c].permeability == g[c].permeability
  }

  lemma LayoutKeepsPlaced(g: seq<Cell>, h: seq<Cell>, occ: map<Pos, nat>, width: nat, height: nat)
    requires Placed(g, occ, width, height) && SameLayout(g, h)
    ensures Placed(h, occ, width, height)
  {
    forall p | p in occ ensures occ[p] < |h| && h[occ[p]].pos == p {
      assert g[occ[p]].pos == p;
    }
  }

  /** Every saturation of every cell is non-negative. */
  ghost predicate NonNegative(g: seq<Cell>)
  {
    forall c :: 0 <= c < |g| ==> g[c].oil >= 0.0 && g[c].water >= 0.0 && g[c].steam >= 0.0
  }

  /** Total oil saturation over the grid. */
  function TotalOil(g: seq<Cell>): real
  {
    if g == [] then 0.0 else TotalOil(g[..|g| - 1]) + g[|g| - 1].oil
  }

  lemma {:induction false} TotalOilUpdate(g: seq<Cell>, c: nat, v: Cell)
    requires c < |g|
    ensures TotalOil(g[c := v]) == TotalOil(g) - g[c].oil + v.oil
  {
    var n := |g| - 1;
    assert g[c := v][..n] == if c < n then g[..n][c := v] else g[..n];
    if c < n {
      TotalOilUpdate(g[..n], c, v);
    }
  }

  /** The neighbour links `ps` of cell i: every position is placed, and not at i. */
  ghost predicate LinksOf(occ: map<Pos, nat>, g: seq<Cell>, i: nat, ps: seq<Pos>)
  {
    forall q :: q in ps ==> q in occ && occ[q] < |g| && occ[q] != i
  }

  /** The neighbour loop of cell i over the positions `ps`, in order. */
  function ExchangeAll(k: Constants, occ: map<Pos, nat>, g: seq<Cell>, i: nat, ps: seq<Pos>): (r: seq<Cell>)
    requires Valid(k) && i < |g| && LinksOf(occ, g, i, ps)
    ensures SameLayout(g, r)
    // the loop touches neither steam nor pressure, and leaves the cell's own temperature
    ensures forall c :: 0 <= c < |r| ==> r[c].steam == g[c].steam && r[c].pressure == g[c].pressure
    ensures r[i].temperature == g[i].temperature
    decreases |ps|
  {
    if ps == [] then g
    else
      var h := ExchangeAll(k, occ, g, i, ps[..|ps| - 1]);
      var j := occ[ps[|ps| - 1]];
      var e := Exchange(k, h[i], h[j]);
      h[i := e.0][j := e.1]
  }

  /** One more neighbour extends the loop by one exchange. */
  lemma ExchangeAllNext(k: Constants, occ: map<Pos, nat>, g: seq<Cell>, i: nat, ps: seq<Pos>, n: nat)
    requires Valid(k) && i < |g| && LinksOf(occ, g, i, ps) && n < |ps|
    ensures var h := ExchangeAll(k, occ, g, i, ps[..n]);
      var j := occ[ps[n]];
      var e := Exchange(k, h[i], h[j]);
      ExchangeAll(k, occ, g, i, ps[..n + 1]) == h[i := e.0][j := e.1]
  {
    var qs := ps[..n + 1];
    assert qs[..|qs| - 1] == ps[..n];
    assert qs[|qs| - 1] == ps[n];
  }

  /** The neighbour loop conserves the grid's total oil. */
  lemma {:induction false} ExchangeAllConservesOil(k: Constants, occ: map<Pos, nat>, g: seq<Cell>, i: nat, ps: seq<Pos>)
    requires Valid(k) && i < |g| && LinksOf(occ, g, i, ps)
    ensures TotalOil(ExchangeAll(k, occ, g, i, ps)) == TotalOil(g)
    decreases |ps|
  {
    if ps != [] {
      var h := ExchangeAll(k, occ, g, i, ps[..|ps| - 1]);
      ExchangeAllConservesOil(k, occ, g, i, ps[..|ps| - 1]);
      var j := occ[ps[|ps| - 1]];
      var e := Exchange(k, h[i], h[j]);
      TotalOilUpdate(h, i, e.0);
      TotalOilUpdate(h[i := e.0], j, e.1);
    }
  }

  /** The neighbour loop keeps every saturation of every cell non-negative. */
  lemma {:induction false} ExchangeAllKeepsNonNegative(k: Constants, occ: map<Pos, nat>, g: seq<Cell>, i: nat, ps: seq<Pos>)
    requires Valid(k) && i < |g| && LinksOf(occ, g, i, ps)
    requires g[i].porosity >= 0.0 && NonNegative(g)
    ensures NonNegative(ExchangeAll(k, occ, g, i, ps))
    decreases |ps|
  {
    if ps != [] {
      var h := ExchangeAll(k, occ, g, i, ps[..|ps| - 1]);
      ExchangeAllKeepsNonNegative(k, occ, g, i, ps[..|ps| - 1]);
      var j := occ[ps[|ps| - 1]];
      var e := Exchange(k, h[i], h[j]);
      assert e.1.oil >= 0.0;
    }
  }

  /** A cell that is neither i nor one of the positions in `ps` is left as it was. */
  lemma {:induction false} ExchangeAllFrame(k: Constants, occ: map<Pos, nat>, g: seq<Cell>, i: nat, ps: seq<Pos>, c: nat)
    requires Valid(k) && i < |g| && LinksOf(occ, g, i, ps)
    requires c < |g| && c != i && forall q :: q in ps ==> occ[q] != c
    ensures ExchangeAll(k, occ, g, i, ps)[c] == g[c]
    decreases |ps|
  {
    if ps != [] {
      ExchangeAllFrame(k, occ, g, i, ps[..|ps| - 1], c);
      assert occ[ps[|ps| - 1]] != c;
    }
  }

  // ---------------------------------------------------------------------------------
  // One cell's whole step

  /** The grid after phase 1 of cell i's step. */
  function Injected(k: Constants, height: nat, g: seq<Cell>, i: nat): (r: seq<Cell>)
    requires Valid(k) && i < |g|
    ensures |r| == |g|
  {
    if OnInjectionWell(height, g[i].pos) then g[i := Inject(k, g[i])] else g
  }

  /** The grid after phases 1 and 2 of cell i's step. */
  function Exchanged(k: Constants, width: nat, height: nat, occ: map<Pos, nat>, g: seq<Cell>, i: nat): (r: seq<Cell>)
    requires Valid(k) && Placed(g, occ, width, height) && i < |g|
    ensures SameLayout(g, r)
  {
    var g1 := Injected(k, height, g, i);
    var ps := MooreNeighbours(width, height, g[i].pos);
    assert LinksOf(occ, g1, i, ps) by {
      forall q | q in ps ensures q in occ && occ[q] < |g1| && occ[q] != i {
        assert g[occ[q]].pos == q;
      }
    }
    ExchangeAll(k, occ, g1, i, ps)
  }

  /** Phases 3 to 5 of a cell's step, on the cell after the neighbour loop: pressure from
      the saturations, production at the production well, renormalisation. The second
      component is the oil produced. */
  function Settle(height: nat, c: Cell): (r: (Cell, real))
    ensures r.0.id == c.id && r.0.pos == c.pos && r.0.porosity == c.porosity
    ensures r.0.permeability == c.permeability && r.0.temperature == c.temperature
    // the stored pressure is that of the saturations before production and renormalisation
    ensures r.0.pressure == PressureFor(c.oil, c.steam)
    ensures !OnProductionWell(height, c.pos) ==> r.1 == 0.0
    ensures c.oil >= 0.0 && c.water >= 0.0 && c.steam >= 0.0 && c.porosity >= 0.0 ==>
      && r.0.oil >= 0.0 && r.0.water >= 0.0 && r.0.steam >= 0.0
      && Saturation(r.0) <= 1.0 && r.1 >= 0.0
  {
    var c1 := c.(pressure := PressureFor(c.oil, c.steam));
    var p := if OnProductionWell(height, c1.pos) then Produce(c1) else (c1, 0.0);
    (Renormalise(p.0), p.1)
  }

  /** Cell i's step on the grid g: the new grid and the oil it produced. */
  function AgentStep(k: Constants, width: nat, height: nat, occ: map<Pos, nat>, g: seq<Cell>, i: nat): (r: (seq<Cell>, real))
    requires Valid(k) && Placed(g, occ, width, height) && i < |g|
    ensures SameLayout(g, r.0) && Placed(r.0, occ, width, height)
    ensures !OnProductionWell(height, g[i].pos) ==> r.1 == 0.0
  {
    var g2 := Exchanged(k, width, height, occ, g, i);
    var s := Settle(height, g2[i]);
    var r := g2[i := s.0];
    LayoutKeepsPlaced(g, r, occ, width, height);
    (r, s.1)
  }

  /** Saturations stay non-negative everywhere, the stepping cell's own saturations sum
      to at most 1, and the oil produced is never negative. */
  lemma AgentStepBounds(k: Constants, width: nat, height: nat, occ: map<Pos, nat>, g: seq<Cell>, i: nat)
    requires Valid(k) && Placed(g, occ, width, height) && i < |g|
    requires NonNegative(g)
    ensures var r := AgentStep(k, width, height, occ, g, i);
      NonNegative(r.0) && Saturation(r.0[i]) <= 1.0 && r.1 >= 0.0
  {
    var g1 := Injected(k, height, g, i);
    assert NonNegative(g1);
    var ps := MooreNeighbours(width, height, g[i].pos);
    assert LinksOf(occ, g1, i, ps) by {
      forall q | q in ps ensures q in occ && occ[q] < |g1| && occ[q] != i {
        assert g[occ[q]].pos == q;
      }
    }
    ExchangeAllKeepsNonNegative(k, occ, g1, i, ps);
  }

  /** The step changes only the cell itself and its Moore neighbours. */
  lemma AgentStepFrame(k: Constants, width: nat, height: nat, occ: map<Pos, nat>, g: seq<Cell>, i: nat, c: nat)
    requires Valid(k) && Placed(g, occ, width, height) && i < |g|
    requires c < |g| && c != i && !IsMooreNeighbour(width, height, g[i].pos, g[c].pos)
    ensures AgentStep(k, width, height, occ, g, i).0[c] == g[c]
  {
    var g1 := Injected(k, height, g, i);
    var ps := MooreNeighbours(width, height, g[i].pos);
    assert LinksOf(occ, g1, i, ps) by {
      forall q | q in ps ensures q in occ && occ[q] < |g1| && occ[q] != i {
        assert g[occ[q]].pos == q;
      }
    }
    forall q | q in ps ensures occ[q] != c {
      assert g[occ[q]].pos == q;
    }
    ExchangeAllFrame(k, occ, g1, i, ps, c);
  }
}
