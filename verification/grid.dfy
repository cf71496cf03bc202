/** Grid topology of the reservoir (src/model.py:19, src/agents.py:33): a width × height grid
    of positions without wrap-around, the Moore neighbourhood of a position, and the two
    horizontal well rows. */
module Grid {

  datatype Pos = Pos(x: int, y: int)

  predicate InBounds(width: nat, height: nat, p: Pos)
  {
    0 <= p.x < width && 0 <= p.y < height
  }

  /** q is one of the (at most eight) positions around p that lie inside the grid. */
  predicate IsMooreNeighbour(width: nat, height: nat, p: Pos, q: Pos)
  {
    InBounds(width, height, q) && q != p && -1 <= q.x - p.x <= 1 && -1 <= q.y - p.y <= 1
  }

  predicate Distinct<T(==)>(s: seq<T>)
  {
    forall a, b :: 0 <= a < b < |s| ==> s[a] != s[b]
  }

  /** The eight offsets of a radius-1 Moore neighbourhood, centre excluded. */
  const MooreOffsets: seq<(int, int)> :=
    [(-1, -1), (-1, 0), (-1, 1), (0, -1), (0, 1), (1, -1), (1, 0), (1, 1)]

  /** The positions p + o, for the offsets o in order, that fall inside the grid. */
  function Shifted(width: nat, height: nat, p: Pos, offsets: seq<(int, int)>): (r: seq<Pos>)
    ensures forall q :: q in r <==> InBounds(width, height, q) && (q.x - p.x, q.y - p.y) in offsets
    ensures Distinct(offsets) ==> Distinct(r)
  {
    if offsets == [] then []
    else
      var q := Pos(p.x + offsets[0].0, p.y + offsets[0].1);
      var rest := Shifted(width, height, p, offsets[1..]);
      assert Distinct(offsets) ==> offsets[0] !in offsets[1..] && Distinct(offsets[1..]) by {
        if Distinct(offsets) {
          forall a | 0 <= a < |offsets[1..]| ensures offsets[1..][a] != offsets[0] {
            assert offsets[1..][a] == offsets[a + 1];
          }
        }
      }
      assert forall q' :: q' in rest ==> (q'.x - p.x, q'.y - p.y) in offsets[1..];
      (if InBounds(width, height, q) then [q] else []) + rest
  }

  /** The neighbours a cell at p interacts with: every in-bounds position at Chebyshev
      distance 1, each listed once. */
  function MooreNeighbours(width: nat, height: nat, p: Pos): (r: seq<Pos>)
    ensures forall q :: q in r <==> IsMooreNeighbour(width, height, p, q)
    ensures Distinct(r)
    ensures |r| <= 8
  {
    assert Distinct(MooreOffsets);
    var r := Shifted(width, height, p, MooreOffsets);
    assert forall q: Pos :: (q.x - p.x, q.y - p.y) in MooreOffsets <==>
      q != p && -1 <= q.x - p.x <= 1 && -1 <= q.y - p.y <= 1;
    assert |r| <= 8 by { ShiftedLength(width, height, p, MooreOffsets); }
    r
  }

  lemma {:induction false} ShiftedLength(width: nat, height: nat, p: Pos, offsets: seq<(int, int)>)
    ensures |Shifted(width, height, p, offsets)| <= |offsets|
  {
    if offsets != [] {
      ShiftedLength(width, height, p, offsets[1..]);
    }
  }

  /** Row of the horizontal injection well: the bottom row of the grid. */
  function InjectionRow(height: int): (r: int)
    ensures height > 0 ==> 0 <= r < height
    ensures r == height - 1
  {
    height - 1
  }

  /** Row of the horizontal production well, two rows above the injection well. */
  function ProductionRow(height: int): (r: int)
    ensures r + 2 == InjectionRow(height)
    ensures (0 <= r < height && 0 <= InjectionRow(height) < height) <==> height >= 3
  {
    height - 3
  }

  /** A cell lies on the injection well when it lies in the injection row. A cell of the
      grid can only lie there when the grid has a row. */
  predicate OnInjectionWell(height: int, p: Pos)
    ensures OnInjectionWell(height, p) && 0 <= p.y ==> height > 0
  {
    p.y == InjectionRow(height)
  }

  /** A cell lies on the production well when it lies in the production row. A cell of
      the grid can only lie there when the grid has at least three rows, and no cell lies
      on both wells. */
  predicate OnProductionWell(height: int, p: Pos)
    ensures OnProductionWell(height, p) && 0 <= p.y ==> height >= 3
    ensures OnProductionWell(height, p) ==> !OnInjectionWell(height, p)
  {
    p.y == ProductionRow(height)
  }
}
