/** The board's coordinates: points, bounds, king-move adjacency and the
    engine's neighbour enumeration (`neighbors`, src/minesweeper.rs). */
module Geometry {
  import opened Seqs

  /** A tile coordinate `(x, y)`: column first, row second, as the source's
      `(usize, usize)`. */
  type Point = (nat, nat)

  predicate InBounds(p: Point, width: nat, height: nat) {
    p.0 < width && p.1 < height
  }

  function Dist(a: nat, b: nat): nat {
    if a <= b then b - a else a - b
  }

  /** Chebyshev (king-move) distance between two tiles. */
  function Chebyshev(p: Point, q: Point): nat {
    var dx := Dist(p.0, q.0);
    var dy := Dist(p.1, q.1);
    if dx <= dy then dy else dx
  }

  /** `q` is one of the up to eight tiles touching `p`. */
  predicate Adjacent(p: Point, q: Point) {
    Chebyshev(p, q) == 1
  }

  /** Every tile of a `width` x `height` board. */
  ghost function Cells(width: nat, height: nat): set<Point> {
    set x: nat, y: nat | x < width && y < height :: (x, y)
  }

  /** The candidate at offset `(dx, dy)`, kept when it is not the tile
      itself and lies on the board. */
  function Step(p: Point, dx: int, dy: int, width: nat, height: nat): seq<Point> {
    var nx := p.0 + dx;
    var ny := p.1 + dy;
    if !(dx == 0 && dy == 0) && nx >= 0 && ny >= 0 && nx < width && ny < height
    then [(nx as nat, ny as nat)]
    else []
  }

  /** The candidates of column offset `dx` for the first `n` row offsets
      -1, 0, 1, in that order. */
  function Column(p: Point, dx: int, n: nat, width: nat, height: nat): seq<Point>
    requires n <= 3
  {
    if n == 0 then [] else Column(p, dx, n - 1, width, height) + Step(p, dx, n - 2, width, height)
  }

  /** The candidates of the first `n` column offsets -1, 0, 1, in that order. */
  function Sweep(p: Point, n: nat, width: nat, height: nat): seq<Point>
    requires n <= 3
  {
    if n == 0 then [] else Sweep(p, n - 1, width, height) + Column(p, n - 2, 3, width, height)
  }

  /** The neighbour list in the order the engine builds it: `dx` outer,
      `dy` inner, each from -1 to 1. */
  function NeighborList(p: Point, width: nat, height: nat): seq<Point> {
    Sweep(p, 3, width, height)
  }

  /** The nested `dx`/`dy` loops of `neighbors`. */
  method Neighbors(p: Point, width: nat, height: nat) returns (ns: seq<Point>)
    ensures ns == NeighborList(p, width, height)
  {
    ns := [];
    for dx := -1 to 2
      invariant ns == Sweep(p, dx + 1, width, height)
    {
      for dy := -1 to 2
        invariant ns == Sweep(p, dx + 1, width, height) + Column(p, dx, dy + 1, width, height)
      {
        assert Column(p, dx, dy + 2, width, height)
            == Column(p, dx, dy + 1, width, height) + Step(p, dx, dy, width, height);
        if dx == 0 && dy == 0 {
          continue;
        }
        var nx := p.0 + dx;
        var ny := p.1 + dy;
        if nx >= 0 && ny >= 0 && nx < width && ny < height {
          ns := ns + [(nx as nat, ny as nat)];
        }
      }
      assert Sweep(p, dx + 2, width, height) == Sweep(p, dx + 1, width, height) + Column(p, dx, 3, width, height);
    }
  }

  lemma {:induction false} ColumnSpec(p: Point, dx: int, n: nat, width: nat, height: nat)
    requires n <= 3
    ensures forall q: Point :: q in Column(p, dx, n, width, height) <==>
      InBounds(q, width, height) && q.0 == p.0 + dx && p.1 - 1 <= q.1 <= p.1 + n - 2 && !(dx == 0 && q.1 == p.1)
    ensures Distinct(Column(p, dx, n, width, height))
    ensures |Column(p, dx, n, width, height)| <= (if dx == 0 && n >= 2 then n - 1 else n)
  {
    if n > 0 {
      var c := Column(p, dx, n - 1, width, height);
      var s := Step(p, dx, n - 2, width, height);
      ColumnSpec(p, dx, n - 1, width, height);
      assert Column(p, dx, n, width, height) == c + s;
      forall i, j | 0 <= i < j < |c + s| ensures (c + s)[i] != (c + s)[j] {
        if j >= |c| {
          assert (c + s)[i] in c;
        }
      }
    }
  }

  lemma {:induction false} SweepSpec(p: Point, n: nat, width: nat, height: nat)
    requires n <= 3
    ensures forall q: Point :: q in Sweep(p, n, width, height) <==>
      InBounds(q, width, height) && p.0 - 1 <= q.0 <= p.0 + n - 2
      && p.1 - 1 <= q.1 <= p.1 + 1 && q != p
    ensures Distinct(Sweep(p, n, width, height))
    ensures |Sweep(p, n, width, height)| <= 3 * n - (if n >= 2 then 1 else 0)
  {
    if n > 0 {
      var a := Sweep(p, n - 1, width, height);
      var b := Column(p, n - 2, 3, width, height);
      SweepSpec(p, n - 1, width, height);
      ColumnSpec(p, n - 2, 3, width, height);
      assert Sweep(p, n, width, height) == a + b;
      forall i, j | 0 <= i < j < |a + b| ensures (a + b)[i] != (a + b)[j] {
        if i < |a| && j >= |a| {
          assert (a + b)[i] in a;
          assert (a + b)[j] in b;
        }
      }
    }
  }

  /** `neighbors(p)` lists exactly the on-board tiles at Chebyshev distance 1
      from `p`: never `p` itself, no tile twice, at most eight. */
  lemma NeighborListSpec(p: Point, width: nat, height: nat)
    ensures forall q :: q in NeighborList(p, width, height) <==> InBounds(q, width, height) && Adjacent(p, q)
    ensures p !in NeighborList(p, width, height)
    ensures Distinct(NeighborList(p, width, height))
    ensures |NeighborList(p, width, height)| <= 8
  {
    SweepSpec(p, 3, width, height);
  }

  /** Adjacency on the board is symmetric: `q` lists `p` exactly when `p`
      lists `q`. */
  lemma NeighborSymmetric(p: Point, q: Point, width: nat, height: nat)
    requires InBounds(p, width, height) && InBounds(q, width, height)
    ensures q in NeighborList(p, width, height) <==> p in NeighborList(q, width, height)
  {
    NeighborListSpec(p, width, height);
    NeighborListSpec(q, width, height);
  }

  ghost function Row(width: nat, y: nat): set<Point> {
    set x: nat | x < width :: (x, y)
  }

  lemma CellsMembers(width: nat, height: nat)
    ensures forall p: Point :: p in Cells(width, height) <==> InBounds(p, width, height)
  {
    forall p: Point | InBounds(p, width, height) ensures p in Cells(width, height) {
      assert p == (p.0, p.1);
    }
  }

  lemma RowMembers(width: nat, y: nat)
    ensures forall p: Point :: p in Row(width, y) <==> p.0 < width && p.1 == y
  {
    forall p: Point | p.0 < width && p.1 == y ensures p in Row(width, y) {
      assert p == (p.0, y);
    }
  }

  lemma {:induction false} RowCard(width: nat, y: nat)
    ensures |Row(width, y)| == width
  {
    if width > 0 {
      RowCard(width - 1, y);
      RowMembers(width, y);
      RowMembers(width - 1, y);
      assert Row(width, y) == Row(width - 1, y) + {(width - 1, y)};
    }
  }

  lemma CellsSplit(width: nat, height: nat)
    requires height > 0
    ensures Cells(width, height) == Cells(width, height - 1) + Row(width, height - 1)
    ensures Cells(width, height - 1) * Row(width, height - 1) == {}
  {
    CellsMembers(width, height);
    CellsMembers(width, height - 1);
    RowMembers(width, height - 1);
  }

  /** A `width` x `height` board has `width * height` tiles. */
  lemma {:induction false} CellsCard(width: nat, height: nat)
    ensures |Cells(width, height)| == width * height
  {
    if height > 0 {
      CellsCard(width, height - 1);
      RowCard(width, height - 1);
      CellsSplit(width, height);
      assert width * height == width * (height - 1) + width;
    }
  }
}
