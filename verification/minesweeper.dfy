/** The rule engine of src/minesweeper.rs: board generation, the reveal
    cascade with its chord and flood-fill paths, flag toggling, win and
    lose detection, and the bounds-safe queries. */
module Game {
  import opened Seqs
  import opened Geometry

  datatype GameState = Playing | Win | Lose

  /** The rejection-sampling loop of `new` (lines 22-31). The random draws
      of `gen_range` are the input `samples`; a draw already chosen is
      skipped, and drawing stops once `numMines` distinct points are held.
      The caller's part of the bargain is that the draws contain that many
      distinct points; otherwise the source loops for ever. */
  method SamplePositions(samples: seq<Point>, numMines: nat) returns (positions: seq<Point>)
    requires |Elems(samples)| >= numMines
    ensures |positions| == numMines
    ensures Distinct(positions)
    ensures forall p :: p in positions ==> p in samples
    ensures exists k :: 0 <= k <= |samples| && positions == Dedup(samples[..k])
                     && (k == 0 || |Dedup(samples[..k - 1])| < numMines)
  {
    positions := [];
    var i := 0;
    while |positions| < numMines
      invariant 0 <= i <= |samples|
      invariant positions == Dedup(samples[..i])
      invariant i == 0 || |Dedup(samples[..i - 1])| < numMines
      invariant |positions| <= numMines
      decreases |samples| - i
    {
      DedupSpec(samples[..i]);
      DistinctCard(positions);
      assert |Elems(samples[..i])| < |Elems(samples)|;
      assert samples[..i] != samples;
      var p := samples[i];
      assert samples[..i + 1][..i] == samples[..i];
      if p !in positions {
        positions := positions + [p];
      }
      i := i + 1;
    }
    DedupSpec(samples[..i]);
    PrefixElems(samples[..i], samples);
    forall p | p in positions ensures p in samples {
      assert p in Elems(positions);
    }
  }

  /** Counting argument behind the win check at line 75: a duplicate-free
      list of on-board tiles that are not mines has at most
      `width * height - |mines|` entries, and reaches that length exactly
      when it holds every tile that is not a mine. */
  lemma SafeCellsRevealed(width: nat, height: nat, mineSet: set<Point>, rev: seq<Point>)
    requires forall m :: m in mineSet ==> InBounds(m, width, height)
    requires Distinct(rev)
    requires forall p :: p in rev ==> InBounds(p, width, height) && p !in mineSet
    ensures |mineSet| <= width * height
    ensures |rev| <= width * height - |mineSet|
    ensures |rev| == width * height - |mineSet| <==>
              forall c: Point :: InBounds(c, width, height) && c !in mineSet ==> c in rev
  {
    CellsCard(width, height);
    CellsMembers(width, height);
    DistinctCard(rev);
    var cells := Cells(width, height);
    var safe := cells - mineSet;
    var seen := Elems(rev);
    DiffCard(cells, mineSet);
    DiffCard(safe, seen);
    if |rev| == width * height - |mineSet| {
      assert |safe - seen| == 0;
      forall c: Point | InBounds(c, width, height) && c !in mineSet ensures c in rev {
        assert c in safe;
      }
    }
    if forall c: Point :: InBounds(c, width, height) && c !in mineSet ==> c in rev {
      assert safe - seen == {};
    }
  }

  /** The flag list after `toggle_flag(c)` (lines 103-113): unchanged on a
      revealed tile; otherwise `c` is pushed when absent and every copy of
      it is removed when present. No bounds check is made. */
  function Toggled(flags: seq<Point>, revealed: seq<Point>, c: Point): seq<Point> {
    if c in revealed then flags
    else if c !in flags then flags + [c]
    else Without(flags, c)
  }

  /** What the toggle does to each tile's flag, and that it keeps the
      flag list free of duplicates. */
  lemma ToggledSpec(flags: seq<Point>, revealed: seq<Point>, c: Point)
    ensures forall q :: q in Toggled(flags, revealed, c) <==>
              if q == c && c !in revealed then q !in flags else q in flags
    ensures Distinct(flags) ==> Distinct(Toggled(flags, revealed, c))
    ensures c !in revealed && c !in flags ==> |Toggled(flags, revealed, c)| == |flags| + 1
  {
    WithoutSpec(flags, c);
  }

  /** Toggling twice restores the set of flags, and restores the list
      itself when the tile was not flagged before. */
  lemma ToggleTwice(flags: seq<Point>, revealed: seq<Point>, c: Point)
    requires Distinct(flags)
    ensures Elems(Toggled(Toggled(flags, revealed, c), revealed, c)) == Elems(flags)
    ensures c !in flags ==> Toggled(Toggled(flags, revealed, c), revealed, c) == flags
  {
    if c !in revealed {
      if c !in flags {
        WithoutAppend(flags, [c], c);
        WithoutSpec(flags, c);
        assert Without([c], c) == [];
      } else {
        WithoutSpec(flags, c);
        var w := Without(flags, c);
        assert Toggled(Toggled(flags, revealed, c), revealed, c) == w + [c];
        assert forall q :: q in w + [c] <==> q in flags;
      }
    }
  }

  /** The number a tile shows once the mines `placed` are on a `width` x
      `height` board: -1 on a mine, otherwise how many of its neighbours
      are mines. */
  ghost function Label(p: Point, width: nat, height: nat, placed: set<Point>): int {
    if p in placed then -1 else CountIn(NeighborList(p, width, height), placed)
  }

  /** Every tile of `grid` (indexed `[y, x]`) shows its label for the
      mines `placed`. */
  ghost predicate Labelled(grid: array2<int>, placed: set<Point>)
    reads grid
  {
    forall y: nat, x: nat :: y < grid.Length0 && x < grid.Length1 ==>
      grid[y, x] == Label((x, y), grid.Length1, grid.Length0, placed)
  }

  /** The placement loop of `new` (lines 43-51) on a grid of zeros:
      afterwards every tile shows its label for the placed mines. */
  method PlaceMines(grid: array2<int>, positions: seq<Point>)
    requires Distinct(positions)
    requires forall p :: p in positions ==> InBounds(p, grid.Length1, grid.Length0)
    requires forall y: nat, x: nat :: y < grid.Length0 && x < grid.Length1 ==> grid[y, x] == 0
    modifies grid
    ensures Labelled(grid, Elems(positions))
  {
    ghost var placed: set<Point> := {};
    LabelledEmpty(grid);
    for k := 0 to |positions|
      invariant placed == Elems(positions[..k])
      invariant Labelled(grid, placed)
    {
      var (x, y) := positions[k];
      DistinctPrefix(positions, k);
      assert positions[k] in positions;
      PlaceMine(grid, (x, y), placed);
      placed := placed + {(x, y)};
    }
    assert positions[..|positions|] == positions;
  }

  /** A grid of zeros is the labelling of a board without mines. */
  lemma LabelledEmpty(grid: array2<int>)
    requires forall y: nat, x: nat :: y < grid.Length0 && x < grid.Length1 ==> grid[y, x] == 0
    ensures Labelled(grid, {})
  {
    forall y: nat, x: nat | y < grid.Length0 && x < grid.Length1
      ensures Label((x, y), grid.Length1, grid.Length0, {}) == 0
    {
      CountInZero(NeighborList((x, y), grid.Length1, grid.Length0), {});
    }
  }

  /** The body of the placement loop of `new` (lines 44-50): mark `p` as a
      mine, then add one to every neighbour that is not a mine. */
  method PlaceMine(grid: array2<int>, p: Point, ghost placed: set<Point>)
    requires InBounds(p, grid.Length1, grid.Length0) && p !in placed
    requires Labelled(grid, placed)
    modifies grid
    ensures Labelled(grid, placed + {p})
  {
    var width, height := grid.Length1, grid.Length0;
    grid[p.1, p.0] := -1;
    var ns := Neighbors(p, width, height);
    NeighborListSpec(p, width, height);
    BumpNeighbors(grid, ns);
    LabelGrow(p, width, height, placed);
  }

  /** The inner loop of `new` (lines 46-50): add one to each listed tile
      that does not hold -1. The tiles are distinct, so each is looked at
      once and the test sees its value from before the loop. */
  method BumpNeighbors(grid: array2<int>, ns: seq<Point>)
    requires Distinct(ns)
    requires forall q :: q in ns ==> InBounds(q, grid.Length1, grid.Length0)
    modifies grid
    ensures forall y: nat, x: nat :: y < grid.Length0 && x < grid.Length1 ==>
              grid[y, x] == old(grid[y, x]) + (if (x, y) in ns && old(grid[y, x]) != -1 then 1 else 0)
  {
    for j := 0 to |ns|
      invariant forall y: nat, x: nat :: y < grid.Length0 && x < grid.Length1 ==>
                  grid[y, x] == old(grid[y, x]) + (if (x, y) in ns[..j] && old(grid[y, x]) != -1 then 1 else 0)
    {
      var (nx, ny) := ns[j];
      assert ns[j] in ns;
      assert ns[..j + 1] == ns[..j] + [(nx, ny)];
      assert (nx, ny) !in ns[..j] by {
        assert forall i :: 0 <= i < j ==> ns[..j][i] == ns[i] != ns[j];
      }
      if grid[ny, nx] != -1 {
        grid[ny, nx] := grid[ny, nx] + 1;
      }
    }
    assert ns[..|ns|] == ns;
  }

  /** Placing one more mine `p` raises the label of each other safe tile
      by one exactly when that tile is a neighbour of `p`. */
  lemma LabelGrow(p: Point, width: nat, height: nat, placed: set<Point>)
    requires InBounds(p, width, height) && p !in placed
    ensures forall y: nat, x: nat :: y < height && x < width && (x, y) !in placed + {p} ==>
              Label((x, y), width, height, placed + {p})
              == Label((x, y), width, height, placed) + (if (x, y) in NeighborList(p, width, height) then 1 else 0)
  {
    forall y: nat, x: nat | y < height && x < width && (x, y) !in placed + {p}
      ensures Label((x, y), width, height, placed + {p})
              == Label((x, y), width, height, placed) + (if (x, y) in NeighborList(p, width, height) then 1 else 0)
    {
      NeighborListSpec((x, y), width, height);
      NeighborSymmetric(p, (x, y), width, height);
      CountInGrow(NeighborList((x, y), width, height), placed, p);
    }
  }

  /** The `Minesweeper` struct. The grid `mines` is indexed `[y, x]`;
      `-1` marks a mine and any other value counts the mines around the
      tile. `mineSet` is the set of sampled mine positions, kept for the
      proofs. */
  class Minesweeper {
    var gameState: GameState
    const mines: array2<int>
    var flags: seq<Point>
    var revealed: seq<Point>
    const numMines: nat
    ghost const mineSet: set<Point>

    function Width(): nat { mines.Length1 }
    function Height(): nat { mines.Length0 }

    /** The number of tiles without a mine: revealing that many wins. */
    ghost function Target(): int { Width() * Height() - numMines }

    ghost function NeighborsOf(p: Point): seq<Point> {
      NeighborList(p, Width(), Height())
    }

    /** The grid as `new` leaves it: exactly the `numMines` tiles of
        `mineSet` hold -1, every other tile the number of its mine
        neighbours. */
    ghost predicate BoardValid()
      reads mines
    {
      Width() >= 1 && Height() >= 1 && numMines <= Width() * Height()
      && |mineSet| == numMines
      && (forall m :: m in mineSet ==> InBounds(m, Width(), Height()))
      && Labelled(mines, mineSet)
    }

    /** What play keeps true: no tile revealed or flagged twice, revealed
        tiles are on the board, safe and unflagged, and the state is `Win`
        only with every safe tile revealed. */
    ghost predicate PlayValid()
      reads this
    {
      Distinct(revealed) && Distinct(flags)
      && (forall p :: p in revealed ==> InBounds(p, Width(), Height()) && p !in mineSet && p !in flags)
      && |revealed| <= Target()
      && (gameState == Win ==> |revealed| == Target())
    }

    ghost predicate Valid()
      reads this, mines
    {
      BoardValid() && PlayValid()
    }

    ghost predicate AllSafeRevealed()
      reads this`revealed
    {
      forall c: Point :: InBounds(c, Width(), Height()) && c !in mineSet ==> c in revealed
    }

    /** A tile with no mine around it: the cascade floods from it. */
    ghost predicate Zero(p: Point) {
      InBounds(p, Width(), Height()) && p !in mineSet && CountIn(NeighborsOf(p), mineSet) == 0
    }

    /** Every neighbour of `p` is revealed in `rev` or flagged. */
    ghost predicate Closed(p: Point, rev: seq<Point>, fl: seq<Point>) {
      forall n :: n in NeighborsOf(p) ==> n in rev || n in fl
    }

    /** Every zero tile of `rev` from index `start` on has all its
        neighbours revealed or flagged. */
    ghost predicate FloodClosed(rev: seq<Point>, start: nat, fl: seq<Point>) {
      forall i :: start <= i < |rev| && Zero(rev[i]) ==> Closed(rev[i], rev, fl)
    }

    /** Every tile of `rev` from index `start` on is one of `roots` or
        touches a zero tile revealed earlier in the same stretch: the
        cascade reaches nothing beyond the border of the flooded region. */
    ghost predicate Grown(rev: seq<Point>, start: nat, roots: set<Point>) {
      forall i :: start <= i < |rev| ==> rev[i] in roots || FedBy(rev, start, i)
    }

    /** Entry `i` of `rev` touches a zero tile at an index from `start` to
        `i - 1`. */
    ghost predicate FedBy(rev: seq<Point>, start: nat, i: nat) {
      i < |rev| && exists j :: start <= j < i && Zero(rev[j]) && Adjacent(rev[j], rev[i])
    }

    /** The chord condition (lines 80-81) on a revealed tile: as many
        flagged neighbours as the number it shows. */
    ghost predicate ChordReady(c: Point)
      reads this`revealed, this`flags
    {
      c in revealed && CountIn(NeighborsOf(c), Elems(flags)) == CountIn(NeighborsOf(c), mineSet)
    }

    /** Some neighbour of `c` is an unflagged mine. */
    ghost predicate MineAround(c: Point)
      reads this`flags
    {
      exists n :: n in NeighborsOf(c) && n !in flags && n in mineSet
    }

    /** Revealing `c` loses: `c` is an unflagged mine on the board, or a
        chord on `c` reaches an unflagged mine. */
    ghost predicate LoseCause(c: Point)
      reads this`revealed, this`flags
    {
      InBounds(c, Width(), Height()) && c !in flags && (c in mineSet || (ChordReady(c) && MineAround(c)))
    }

    /** One of the first `i` entries of `ns` is an unflagged mine. */
    ghost predicate HitAmong(ns: seq<Point>, i: nat, fl: seq<Point>) {
      exists k :: 0 <= k < i && k < |ns| && ns[k] !in fl && ns[k] in mineSet
    }

    lemma HitAmongStep(ns: seq<Point>, i: nat)
      requires i < |ns|
      ensures HitAmong(ns, i + 1, flags) <==> HitAmong(ns, i, flags) || (ns[i] !in flags && ns[i] in mineSet)
    {
    }

    lemma HitAmongAll(ns: seq<Point>)
      ensures HitAmong(ns, |ns|, flags) <==> exists n :: n in ns && n !in flags && n in mineSet
    {
      if exists n :: n in ns && n !in flags && n in mineSet {
        var n :| n in ns && n !in flags && n in mineSet;
        var k :| 0 <= k < |ns| && ns[k] == n;
      }
    }

    /** Some safe tile on the board carries a flag in `fl`. */
    ghost predicate WrongFlag(fl: seq<Point>) {
      exists s :: InBounds(s, Width(), Height()) && s in fl && s !in mineSet
    }

    /** While a safe tile carries a flag it stays hidden, so not every safe
        tile is revealed and the game cannot be won. */
    lemma WrongFlagBlocksWin()
      requires Valid() && WrongFlag(flags)
      ensures |revealed| < Target() && !AllSafeRevealed()
    {
      var s :| InBounds(s, Width(), Height()) && s in flags && s !in mineSet;
      SafeCellsRevealed(Width(), Height(), mineSet, revealed);
    }

    /** Around a tile with no more mines than flags, an unflagged mine
        means some flag sits on a safe tile. */
    lemma ChordHitWrongFlag(c: Point)
      requires Valid() && InBounds(c, Width(), Height())
      requires CountIn(NeighborsOf(c), mineSet) <= CountIn(NeighborsOf(c), Elems(flags))
      ensures MineAround(c) ==> WrongFlag(flags)
    {
      if MineAround(c) {
        NeighborListSpec(c, Width(), Height());
        CountInMonotone(NeighborsOf(c), Elems(flags), mineSet);
      }
    }

    lemma NeighborsOnBoard(c: Point)
      ensures forall n :: n in NeighborsOf(c) ==> InBounds(n, Width(), Height())
    {
      NeighborListSpec(c, Width(), Height());
    }

    /** How many safe tiles are still hidden: the cascade reveals at
        least one more before it recurses into a tile it has not yet seen. */
    ghost function Hidden(): int
      reads this`revealed
    {
      Target() - |revealed|
    }

    /** `new` (lines 21-54), with the random draws given as `samples`. */
    constructor (width: nat, height: nat, numMines: nat, samples: seq<Point>)
      requires width >= 1 && height >= 1
      requires numMines <= width * height
      requires forall p :: p in samples ==> InBounds(p, width, height)
      requires |Elems(samples)| >= numMines
      ensures Valid()
      ensures Width() == width && Height() == height && this.numMines == numMines
      ensures flags == [] && revealed == [] && gameState == Playing
      ensures exists k :: 0 <= k <= |samples| && mineSet == Elems(samples[..k])
                       && |Dedup(samples[..k])| == numMines
                       && (k == 0 || |Dedup(samples[..k - 1])| < numMines)
    {
      var positions := SamplePositions(samples, numMines);
      var grid := new int[height, width]((_, _) => 0);
      PlaceMines(grid, positions);
      DistinctCard(positions);
      mines := grid;
      this.numMines := numMines;
      mineSet := Elems(positions);
      flags := [];
      revealed := [];
      gameState := Playing;
      ghost var k :| 0 <= k <= |samples| && positions == Dedup(samples[..k])
                     && (k == 0 || |Dedup(samples[..k - 1])| < numMines);
      DedupSpec(samples[..k]);
    }

    /** `out_of_bounds` (lines 162-164). */
    function OutOfBounds(c: Point): (r: bool)
      ensures r <==> !InBounds(c, Width(), Height())
    {
      c.0 >= Width() || c.1 >= Height()
    }

    /** `mine_count` (lines 115-121): 0 off the board, -1 on a mine, and
        otherwise the number of mines among the tile's neighbours, 0 to 8. */
    function MineCount(c: Point): (r: int)
      requires Valid()
      reads this, mines
      ensures !InBounds(c, Width(), Height()) ==> r == 0
      ensures InBounds(c, Width(), Height()) && c in mineSet ==> r == -1
      ensures InBounds(c, Width(), Height()) && c !in mineSet ==>
                r == CountIn(NeighborsOf(c), mineSet) && 0 <= r <= 8
    {
      NeighborListSpec(c, Width(), Height());
      if c.0 < Width() && c.1 < Height() then mines[c.1, c.0] else 0
    }

    /** `is_mine` (lines 135-140): the bounds check is redundant, since
        every mine is on the board. */
    function IsMine(c: Point): (r: bool)
      requires Valid()
      reads this, mines
      ensures r <==> c in mineSet
    {
      if OutOfBounds(c) then false else mines[c.1, c.0] == -1
    }

    /** `is_flagged` (lines 142-148): false off the board even for a point
        the flag list holds; a flagged tile is never revealed. */
    function IsFlagged(c: Point): (r: bool)
      requires Valid()
      reads this, mines
      ensures r <==> InBounds(c, Width(), Height()) && c in flags
      ensures r ==> c !in revealed
    {
      if OutOfBounds(c) then false else c in flags
    }

    /** `is_revealed` (lines 150-156): the bounds check is redundant, since
        only safe, unflagged tiles on the board are ever revealed. */
    function IsRevealed(c: Point): (r: bool)
      requires Valid()
      reads this, mines
      ensures r <==> c in revealed
      ensures r ==> InBounds(c, Width(), Height()) && c !in mineSet && c !in flags
    {
      if OutOfBounds(c) then false else c in revealed
    }

    /** `total_flags` (lines 123-125): the number of distinct flagged
        points, on the board or not. */
    function TotalFlags(): (r: nat)
      requires Valid()
      reads this, mines
      ensures r == |Elems(flags)|
    {
      DistinctCard(flags);
      |flags|
    }

    /** `total_mines` (lines 127-129): the number of mine tiles. */
    function TotalMines(): (r: nat)
      requires Valid()
      reads this, mines
      ensures r == |mineSet|
    {
      numMines
    }

    /** `total_revealed` (lines 131-133): never more than the safe tiles,
        and equal to their number exactly when all are revealed. */
    function TotalRevealed(): (r: nat)
      requires Valid()
      reads this, mines
      ensures r == |Elems(revealed)|
      ensures r <= Width() * Height() - numMines
      ensures r == Width() * Height() - numMines <==> AllSafeRevealed()
    {
      DistinctCard(revealed);
      SafeCellsRevealed(Width(), Height(), mineSet, revealed);
      |revealed|
    }

    /** `current_state` (lines 158-160): `Win` only with every safe tile
        revealed. */
    function CurrentState(): (r: GameState)
      requires Valid()
      reads this, mines
      ensures r == gameState
      ensures r == Win ==> AllSafeRevealed()
    {
      SafeCellsRevealed(Width(), Height(), mineSet, revealed);
      gameState
    }

    /** `toggle_flag` (lines 103-113). */
    method ToggleFlag(c: Point)
      requires Valid()
      modifies this
      ensures Valid()
      ensures revealed == old(revealed) && gameState == old(gameState)
      ensures flags == Toggled(old(flags), revealed, c)
      ensures c in revealed ==> flags == old(flags)
      ensures !InBounds(c, Width(), Height()) && c !in old(flags) ==>
                c in flags && TotalFlags() == old(TotalFlags()) + 1 && !IsFlagged(c)
    {
      ToggledSpec(flags, revealed, c);
      DistinctCard(flags);
      if c in revealed {
        return;
      }
      if c !in flags {
        flags := flags + [c];
      } else {
        flags := Without(flags, c);
      }
      DistinctCard(flags);
    }

    lemma GrownCompose(r1: seq<Point>, r2: seq<Point>, start: nat, roots: set<Point>, more: set<Point>)
      requires start <= |r1| && r1 <= r2 && more <= roots
      requires Grown(r1, start, roots) && Grown(r2, |r1|, more)
      ensures Grown(r2, start, roots)
    {
      forall i | start <= i < |r2|
        ensures r2[i] in roots || FedBy(r2, start, i)
      {
        if i < |r1| {
          assert r2[i] == r1[i];
          if r1[i] !in roots {
            assert FedBy(r1, start, i);
            var j :| start <= j < i && Zero(r1[j]) && Adjacent(r1[j], r1[i]);
            assert r2[j] == r1[j];
          }
        } else if r2[i] !in more {
          assert FedBy(r2, |r1|, i);
          var j :| |r1| <= j < i && Zero(r2[j]) && Adjacent(r2[j], r2[i]);
        }
      }
    }

    lemma GrownFromZero(rev: seq<Point>, start: nat, c: Point)
      requires start < |rev| && rev[start] == c && Zero(c)
      requires Grown(rev, start + 1, Elems(NeighborsOf(c)))
      ensures Grown(rev, start, {c})
    {
      NeighborListSpec(c, Width(), Height());
      forall i | start < i < |rev|
        ensures FedBy(rev, start, i)
      {
        if rev[i] in Elems(NeighborsOf(c)) {
          assert Zero(rev[start]) && Adjacent(rev[start], rev[i]);
        } else {
          assert FedBy(rev, start + 1, i);
          var j :| start + 1 <= j < i && Zero(rev[j]) && Adjacent(rev[j], rev[i]);
        }
      }
    }

    lemma FloodClosedCompose(r1: seq<Point>, r2: seq<Point>, start: nat)
      requires start <= |r1| && r1 <= r2
      requires FloodClosed(r1, start, flags) && FloodClosed(r2, |r1|, flags)
      ensures FloodClosed(r2, start, flags)
    {
      PrefixElems(r1, r2);
      forall i | start <= i < |r1| && Zero(r2[i]) ensures Closed(r2[i], r2, flags) {
        assert r2[i] == r1[i];
        assert Closed(r1[i], r1, flags);
      }
    }

    lemma FloodClosedExtend(rev: seq<Point>, start: nat)
      requires start < |rev| && FloodClosed(rev, start + 1, flags)
      requires Zero(rev[start]) ==> Closed(rev[start], rev, flags)
      ensures FloodClosed(rev, start, flags)
    {
    }

    /** What the neighbour loop has done after `i` turns, started from
        the revealed list `r0` and the state `g0` and now at `rev` and
        `gs`: each of the first `i` neighbours is revealed, flagged or a
        mine; the state records a loss as soon as one of them was an
        unflagged mine, and otherwise a win when the loop revealed the
        last safe tile; and the cascade stayed inside the flooded region. */
    ghost predicate Swept(ns: seq<Point>, i: nat, fl: seq<Point>, r0: seq<Point>, g0: GameState,
                          rev: seq<Point>, gs: GameState)
    {
      i <= |ns| && r0 <= rev
      && (forall k :: 0 <= k < i ==> ns[k] in rev || ns[k] in fl || ns[k] in mineSet)
      && gs == (if HitAmong(ns, i, fl) then Lose else if |r0| < Target() == |rev| then Win else g0)
      && Grown(rev, |r0|, Elems(ns)) && FloodClosed(rev, |r0|, fl)
    }

    /** One turn of the neighbour loop: the visit of `ns[i]`, which took
        the revealed list from `r1` to `revealed` and the state from `g1`
        to `gameState`, extends the loop's progress by one neighbour. */
    lemma SweepStep(ns: seq<Point>, i: nat, r0: seq<Point>, g0: GameState, r1: seq<Point>, g1: GameState)
      requires Valid() && i < |ns|
      requires Swept(ns, i, flags, r0, g0, r1, g1) && r1 <= revealed
      requires (exists n :: n in ns && n !in flags && n in mineSet) ==> WrongFlag(flags)
      requires ns[i] in revealed || ns[i] in flags || ns[i] in mineSet
      requires gameState == (if ns[i] !in r1 && ns[i] !in flags && ns[i] in mineSet then Lose
                             else if |r1| < Target() == |revealed| then Win
                             else g1)
      requires Grown(revealed, |r1|, {ns[i]}) && FloodClosed(revealed, |r1|, flags)
      ensures Swept(ns, i + 1, flags, r0, g0, revealed, gameState)
    {
      HitAmongStep(ns, i);
      PrefixElems(r1, revealed);
      forall k | 0 <= k <= i ensures ns[k] in revealed || ns[k] in flags || ns[k] in mineSet {
        if k < i && ns[k] in r1 {
          assert ns[k] in revealed;
        }
      }
      if HitAmong(ns, i, flags) {
        WrongFlagBlocksWin();
      }
      if ns[i] in r1 {
        assert ns[i] in revealed;
      }
      GrownCompose(r1, revealed, |r0|, Elems(ns), {ns[i]});
      FloodClosedCompose(r1, revealed, |r0|);
    }

    /** After the last turn, every neighbour is accounted for and the
        state records a loss exactly when some neighbour was an unflagged
        mine. */
    lemma SweptAll(ns: seq<Point>, r0: seq<Point>, g0: GameState)
      requires Swept(ns, |ns|, flags, r0, g0, revealed, gameState)
      ensures forall n :: n in ns ==> n in revealed || n in flags || n in mineSet
      ensures gameState == (if exists n :: n in ns && n !in flags && n in mineSet then Lose
                            else if |r0| < Target() == |revealed| then Win
                            else g0)
    {
      HitAmongAll(ns);
    }

    /** `reveal_tile` (lines 56-101): nothing happens off the board or on a
        flagged tile; a mine loses; otherwise the tile is uncovered (or
        chorded, when already revealed) and then flooded when it is a zero
        tile. */
    method RevealTile(c: Point)
      requires Valid()
      modifies this
      ensures PlayValid()
      ensures flags == old(flags)
      ensures old(revealed) <= revealed
      ensures InBounds(c, Width(), Height()) && c !in flags && c !in mineSet ==> c in revealed
      ensures !InBounds(c, Width(), Height()) || c in flags || c in mineSet ==> revealed == old(revealed)
      ensures gameState == (if old(LoseCause(c)) then Lose
                            else if |old(revealed)| < Target() == |revealed| then Win
                            else old(gameState))
      ensures Grown(revealed, |old(revealed)|, if c in old(revealed) then Elems(NeighborsOf(c)) else {c})
      ensures FloodClosed(revealed, |old(revealed)|, flags)
      ensures Zero(c) && c !in flags ==> Closed(c, revealed, flags)
      ensures old(ChordReady(c)) ==> forall n :: n in NeighborsOf(c) ==> n in revealed || n in flags || n in mineSet
      ensures c in old(revealed) && !old(ChordReady(c)) && !Zero(c) ==>
                revealed == old(revealed) && gameState == old(gameState)
      decreases Hidden(), if c in revealed then 6 else 1
    {
      if OutOfBounds(c) {
        return;
      }
      if c in flags {
        return;
      }
      if IsMine(c) {
        gameState := Lose;
        return;
      }
      ghost var r0 := revealed;
      ghost var g0 := gameState;
      ghost var chord := ChordReady(c);
      ghost var lose := chord && MineAround(c);
      Uncover(c);
      ghost var r1 := revealed;
      ghost var g1 := gameState;
      PrefixElems(r0, r1);
      Flood(c);
      RevealCompose(c, r0, g0, chord, lose, r1, g1);
    }

    /** Uncovering and then flooding `c` (which took the revealed list from
        `r0` through `r1` to `revealed` and the state from `g0` through `g1`
        to `gameState`) has the effect `reveal_tile` promises. */
    lemma RevealCompose(c: Point, r0: seq<Point>, g0: GameState, chord: bool, lose: bool,
                        r1: seq<Point>, g1: GameState)
      requires Valid() && InBounds(c, Width(), Height()) && c !in flags && c !in mineSet
      requires r0 <= r1 <= revealed && c in r1
      requires c !in r0 ==> r1 == r0 + [c]
      requires g1 == (if lose then Lose else if |r0| < Target() == |r1| then Win else g0)
      requires lose ==> WrongFlag(flags)
      requires chord ==> forall n :: n in NeighborsOf(c) ==> n in r1 || n in flags || n in mineSet
      requires c in r0 ==> Grown(r1, |r0|, Elems(NeighborsOf(c))) && FloodClosed(r1, |r0|, flags)
      requires !Zero(c) ==> revealed == r1
      requires Zero(c) ==> Closed(c, revealed, flags)
      requires gameState == (if |r1| < Target() == |revealed| then Win else g1)
      requires Grown(revealed, |r1|, Elems(NeighborsOf(c))) && FloodClosed(revealed, |r1|, flags)
      ensures c in revealed
      ensures gameState == (if lose then Lose else if |r0| < Target() == |revealed| then Win else g0)
      ensures Grown(revealed, |r0|, if c in r0 then Elems(NeighborsOf(c)) else {c})
      ensures FloodClosed(revealed, |r0|, flags)
      ensures chord ==> forall n :: n in NeighborsOf(c) ==> n in revealed || n in flags || n in mineSet
    {
      PrefixElems(r1, revealed);
      if lose {
        WrongFlagBlocksWin();
      }
      if c in r0 {
        GrownCompose(r1, revealed, |r0|, Elems(NeighborsOf(c)), Elems(NeighborsOf(c)));
        FloodClosedCompose(r1, revealed, |r0|);
      } else if Zero(c) {
        GrownFromZero(revealed, |r0|, c);
        FloodClosedExtend(revealed, |r0|);
      } else {
        FloodClosedExtend(revealed, |r0|);
      }
    }

    /** Lines 71-90 of `reveal_tile`, on a tile that is on the board, not
        flagged and not a mine. A hidden tile is revealed and the win
        checked. A revealed tile is chorded when as many of its neighbours
        carry a flag as it has mines around it; the count goes through
        `is_flagged`, which for on-board neighbours is membership in the
        flag list. */
    method Uncover(c: Point)
      requires Valid()
      requires InBounds(c, Width(), Height()) && c !in flags && c !in mineSet
      modifies this
      ensures PlayValid()
      ensures flags == old(flags)
      ensures old(revealed) <= revealed && c in revealed
      ensures c !in old(revealed) ==> revealed == old(revealed) + [c]
      ensures gameState == (if old(ChordReady(c)) && old(MineAround(c)) then Lose
                            else if |old(revealed)| < Target() == |revealed| then Win
                            else old(gameState))
      ensures old(ChordReady(c)) && old(MineAround(c)) ==> WrongFlag(flags)
      ensures old(ChordReady(c)) ==> forall n :: n in NeighborsOf(c) ==> n in revealed || n in flags || n in mineSet
      ensures c in old(revealed) ==> Grown(revealed, |old(revealed)|, Elems(NeighborsOf(c)))
      ensures c in old(revealed) ==> FloodClosed(revealed, |old(revealed)|, flags)
      ensures c in old(revealed) && !old(ChordReady(c)) ==>
                revealed == old(revealed) && gameState == old(gameState)
      decreases Hidden(), if c in revealed then 5 else 0
    {
      if c !in revealed {
        SafeCellsRevealed(Width(), Height(), mineSet, revealed);
        revealed := revealed + [c];
        if |revealed| == Width() * Height() - numMines {
          gameState := Win;
        }
      } else {
        var ns := Neighbors(c, Width(), Height());
        var flagCount := CountIn(ns, Elems(flags));
        if flagCount == MineCount(c) {
          RevealNeighbors(c, ns);
        }
      }
    }

    /** Lines 92-100 of `reveal_tile`, on a revealed tile: when it shows
        0, every neighbour that is neither revealed nor flagged is revealed
        in turn. No neighbour of a zero tile is a mine, so this never
        loses. */
    method Flood(c: Point)
      requires Valid() && c in revealed
      modifies this
      ensures PlayValid()
      ensures flags == old(flags)
      ensures old(revealed) <= revealed
      ensures !Zero(c) ==> revealed == old(revealed) && gameState == old(gameState)
      ensures Zero(c) ==> Closed(c, revealed, flags)
      ensures gameState == (if |old(revealed)| < Target() == |revealed| then Win else old(gameState))
      ensures Grown(revealed, |old(revealed)|, Elems(NeighborsOf(c)))
      ensures FloodClosed(revealed, |old(revealed)|, flags)
      decreases Hidden(), 5
    {
      if MineCount(c) == 0 {
        var ns := Neighbors(c, Width(), Height());
        CountInZero(ns, mineSet);
        RevealNeighbors(c, ns);
      }
    }

    /** The two neighbour loops of `reveal_tile` (lines 83-88 and 94-99).
        Both call sites have no more mines than flags around `c`; then an
        unflagged mine around `c` means a flag on a safe tile, so a loop
        that loses can no longer win. */
    method RevealNeighbors(c: Point, ns: seq<Point>)
      requires Valid()
      requires InBounds(c, Width(), Height()) && ns == NeighborsOf(c)
      requires CountIn(ns, mineSet) <= CountIn(ns, Elems(flags))
      modifies this
      ensures PlayValid()
      ensures flags == old(flags)
      ensures old(revealed) <= revealed
      ensures forall n :: n in ns ==> n in revealed || n in flags || n in mineSet
      ensures gameState == (if exists n :: n in ns && n !in flags && n in mineSet then Lose
                            else if |old(revealed)| < Target() == |revealed| then Win
                            else old(gameState))
      ensures (exists n :: n in ns && n !in flags && n in mineSet) ==> WrongFlag(flags)
      ensures Grown(revealed, |old(revealed)|, Elems(ns))
      ensures FloodClosed(revealed, |old(revealed)|, flags)
      decreases Hidden(), 4
    {
      ghost var r0 := revealed;
      ghost var g0 := gameState;
      ghost var hit := exists n :: n in ns && n !in flags && n in mineSet;
      ChordHitWrongFlag(c);
      NeighborsOnBoard(c);
      for i := 0 to |ns|
        invariant PlayValid()
        invariant flags == old(flags)
        invariant hit ==> WrongFlag(flags)
        invariant Swept(ns, i, flags, r0, g0, revealed, gameState)
      {
        VisitNext(ns, i, r0, g0);
      }
      SweptAll(ns, r0, g0);
    }

    /** One turn of those loops: visit `ns[i]` and extend the loop's
        progress from the first `i` neighbours to the first `i + 1`. */
    method VisitNext(ns: seq<Point>, i: nat, ghost r0: seq<Point>, ghost g0: GameState)
      requires Valid() && i < |ns| && InBounds(ns[i], Width(), Height())
      requires (exists n :: n in ns && n !in flags && n in mineSet) ==> WrongFlag(flags)
      requires Swept(ns, i, flags, r0, g0, revealed, gameState)
      modifies this
      ensures PlayValid()
      ensures flags == old(flags)
      ensures Swept(ns, i + 1, flags, r0, g0, revealed, gameState)
      decreases Hidden(), 3
    {
      ghost var r1 := revealed;
      ghost var g1 := gameState;
      Visit(ns[i]);
      SweepStep(ns, i, r0, g0, r1, g1);
    }

    /** One step of those loops (lines 84-87 and 95-98): reveal `n` unless
        it is already revealed or flagged. */
    method Visit(n: Point)
      requires Valid() && InBounds(n, Width(), Height())
      modifies this
      ensures PlayValid()
      ensures flags == old(flags)
      ensures old(revealed) <= revealed
      ensures n in revealed || n in flags || n in mineSet
      ensures gameState == (if n !in old(revealed) && n !in flags && n in mineSet then Lose
                            else if |old(revealed)| < Target() == |revealed| then Win
                            else old(gameState))
      ensures Grown(revealed, |old(revealed)|, {n})
      ensures FloodClosed(revealed, |old(revealed)|, flags)
      decreases Hidden(), 2
    {
      if n !in revealed && n !in flags {
        RevealTile(n);
      }
    }
  }
}
