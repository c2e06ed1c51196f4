/** The occupancy grid a robot keeps of the world: a width-by-height array of flag bytes, with
    the counters and the owned-cell list beside it. Every mutator's effect is stated as the
    matching function of the Bookkeeping module applied to the grid's abstract state. */
module OccupancyGrids {
  import opened CellFlags
  import opened Bookkeeping
  import opened Merge

  class OccupancyGrid {
    const width: int
    const height: int
    const grid: array2<Byte>

    /** How many cells are free. */
    var free: int
    /** How many free cells are known at the base station. */
    var knownAtBase: int
    /** How many free cells, not known at base, another robot is relaying. */
    var relayed: int
    /** The free cells neither known at base nor relayed: the ones this robot must deliver. */
    var owned: seq<Cell>

    /** The array has the grid's dimensions. */
    ghost predicate Wf()
    {
      grid.Length0 == width && grid.Length1 == height
    }

    /** The flag byte of every in-bounds cell. */
    ghost function Cells(): (m: map<Cell, Byte>)
      reads grid
      ensures forall c :: c in m <==> 0 <= c.0 < grid.Length0 && 0 <= c.1 < grid.Length1
    {
      map c | c in Positions(grid.Length0, grid.Length1) :: grid[c.0, c.1]
    }

    /** The grid as a value: its cells, counters and owned list. */
    ghost function State(): GridState
      reads this, grid
    {
      GridState(Cells(), free, knownAtBase, relayed, owned)
    }

    /** The counters and the owned list are in step with the flags. */
    ghost predicate Valid()
      reads this, grid
    {
      Wf() && Inv(State())
    }

    /** A map that differs from another at one key only is the other updated at that key. */
    static lemma UpdateOne(before: map<Cell, Byte>, after: map<Cell, Byte>, c: Cell, v: Byte)
      requires before.Keys == after.Keys && c in after && after[c] == v
      requires forall d :: d in after && d != c ==> after[d] == before[d]
      ensures after == before[c := v]
    {
    }

    /** A blank grid: every byte 0, no free cells, nothing owned. */
    constructor (newWidth: nat, newHeight: nat)
      ensures width == newWidth && height == newHeight && fresh(grid)
      ensures Wf() && State() == Blank(newWidth, newHeight)
      ensures Valid()
    {
      width := newWidth;
      height := newHeight;
      grid := new Byte[newWidth, newHeight]((i, j) => 0);
      free := 0;
      knownAtBase := 0;
      relayed := 0;
      owned := [];
      new;
      assert Cells() == Blank(newWidth, newHeight).cells;
      BlankIsConsistent(newWidth, newHeight);
    }

    /** A deep copy: a new grid with the same bytes, counters and owned list. */
    method Copy() returns (copyGrid: OccupancyGrid)
      requires Wf()
      ensures fresh(copyGrid) && fresh(copyGrid.grid)
      ensures copyGrid.width == width && copyGrid.height == height && copyGrid.Wf()
      ensures copyGrid.State() == State()
      ensures Valid() ==> copyGrid.Valid()
    {
      copyGrid := new OccupancyGrid(width, height);
      CopyBytes(copyGrid);
      copyGrid.knownAtBase := knownAtBase;
      copyGrid.relayed := relayed;
      copyGrid.free := free;
      copyGrid.owned := owned;
      assert copyGrid.Cells() == Cells();
    }

    /** The loops of Copy: writes every byte of this grid into the blank grid `target`. */
    method CopyBytes(target: OccupancyGrid)
      requires Wf() && target.Wf() && target.grid != grid
      requires target.width == width && target.height == height
      requires target.Cells() == Blank(width, height).cells
      modifies target.grid
      ensures target.Cells() == Cells()
    {
      ghost var m := Cells();
      CopiedUpToStart(m, width, height);
      var i := 0;
      while i < width
        invariant 0 <= i <= width
        invariant target.Cells() == CopiedUpTo(m, (i, 0))
      {
        CopyColumn(target, i, m);
        i := i + 1;
      }
      CopiedUpToEnd(m, width);
    }

    /** The inner loop of Copy: writes the bytes of column `i` into `target`, whose earlier
        columns already hold this grid's bytes. */
    method CopyColumn(target: OccupancyGrid, i: int, ghost m: map<Cell, Byte>)
      requires Wf() && target.Wf() && target.grid != grid
      requires target.width == width && target.height == height
      requires 0 <= i < width && Cells() == m
      requires target.Cells() == CopiedUpTo(m, (i, 0))
      modifies target.grid
      ensures target.Cells() == CopiedUpTo(m, (i + 1, 0))
    {
      var j := 0;
      while j < height
        invariant 0 <= j <= height
        invariant target.Cells() == CopiedUpTo(m, (i, j))
      {
        CopiedUpToStep(m, i, j);
        target.SetByte(i, j, GetByte(i, j));
        j := j + 1;
      }
      CopiedUpToNextColumn(m, i, height);
    }

    // ----- bit storage -----

    /** Whether (x, y) lies inside the grid. */
    function LocationExists(x: int, y: int): (r: bool)
      reads grid
      requires Wf()
      ensures r <==> (x, y) in Cells()
    {
      x < width && x >= 0 && y < height && y >= 0
    }

    /** One bit of a cell's byte; 0 for a cell outside the grid. */
    function GetBitAt(x: int, y: int, bit: nat): (r: int)
      reads grid
      requires Wf() && bit < 8
      ensures (x, y) !in Cells() ==> r == 0
      ensures (x, y) in Cells() ==> r == GetBit(Cells()[(x, y)], bit)
    {
      if 0 <= x < width && 0 <= y < height then GetBit(grid[x, y], bit) else 0
    }

    /** A cell's byte. */
    function GetByte(x: int, y: int): (r: Byte)
      reads grid
      requires Wf() && (x, y) in Cells()
      ensures r == Cells()[(x, y)]
    {
      grid[x, y]
    }

    /** A cell's byte with the GotRelayed bit masked out. */
    function GetByteNoRelay(x: int, y: int): (r: Byte)
      reads grid
      requires Wf() && (x, y) in Cells()
      ensures !Has(r, GotRelayed)
      ensures forall k: nat :: k < 8 && k != Ordinal(GotRelayed) ==> GetBit(r, k) == GetBit(Cells()[(x, y)], k)
    {
      NoRelay(grid[x, y])
    }

    /** Writes one bit of a cell in place, with the arithmetic of CellFlags.SetBit: the mask is
        added to a clear bit or subtracted from a set one, and the byte is left alone when the bit
        already has the value. */
    method SetBitAt(x: int, y: int, bit: nat, value: int)
      requires Wf() && (x, y) in Cells() && bit < 8
      modifies grid
      ensures Cells() == old(Cells())[(x, y) := CellFlags.SetBit(old(grid[x, y]), bit, value)]
    {
      ghost var before := Cells();
      grid[x, y] := CellFlags.SetBit(grid[x, y], bit, value);
      forall d | d in Cells() && d != (x, y)
        ensures Cells()[d] == before[d]
      {
        assert grid[d.0, d.1] == old(grid[d.0, d.1]);
      }
      UpdateOne(before, Cells(), (x, y), grid[x, y]);
    }

    /** Writes the bit of one flag; the counters and the owned list are left alone. */
    method SetFlagBit(x: int, y: int, f: Flag, value: int)
      requires Wf() && (x, y) in Cells()
      modifies grid
      ensures State() == SetFlag(old(State()), (x, y), f, value)
    {
      SetBitAt(x, y, Ordinal(f), value);
    }

    /** Overwrites a cell's byte; the counters and the owned list are left alone. */
    method SetByte(x: int, y: int, value: Byte)
      requires Wf() && (x, y) in Cells()
      modifies grid
      ensures Cells() == old(Cells())[(x, y) := value]
    {
      grid[x, y] := value;
    }
  
    // ----- flag queries -----

    /** Whether a cell is free; false outside the grid. */
    function FreeSpaceAt(x: int, y: int): (r: bool)
      reads grid
      requires Wf()
      ensures r <==> (x, y) in Cells() && Has(Cells()[(x, y)], FreeSpace)
    {
      GetBitAt(x, y, Ordinal(FreeSpace)) == 1
    }

    /** Whether a cell is safe; false outside the grid. */
    function SafeSpaceAt(x: int, y: int): (r: bool)
      reads grid
      requires Wf()
      ensures r <==> (x, y) in Cells() && Has(Cells()[(x, y)], SafeSpace)
    {
      GetBitAt(x, y, Ordinal(SafeSpace)) == 1
    }

    /** Whether a cell holds an obstacle; false outside the grid. */
    function ObstacleAt(x: int, y: int): (r: bool)
      reads grid
      requires Wf()
      ensures r <==> (x, y) in Cells() && Has(Cells()[(x, y)], Obstacle)
    {
      GetBitAt(x, y, Ordinal(Obstacle)) == 1
    }

    /** Whether a cell is known at the base station; false outside the grid. */
    function IsKnownAtBase(x: int, y: int): (r: bool)
      reads grid
      requires Wf()
      ensures r <==> (x, y) in Cells() && Has(Cells()[(x, y)], KnownAtBase)
    {
      GetBitAt(x, y, Ordinal(KnownAtBase)) == 1
    }

    /** Whether another robot relays a cell; false outside the grid. */
    function IsGotRelayed(x: int, y: int): (r: bool)
      reads grid
      requires Wf()
      ensures r <==> (x, y) in Cells() && Has(Cells()[(x, y)], GotRelayed)
    {
      GetBitAt(x, y, Ordinal(GotRelayed)) == 1
    }

    /** Whether a cell is frozen in the final topological map; false outside the grid. */
    function IsFinalTopologicalMapCell(x: int, y: int): (r: bool)
      reads grid
      requires Wf()
      ensures r <==> (x, y) in Cells() && Has(Cells()[(x, y)], FinalTopologicalMap)
    {
      GetBitAt(x, y, Ordinal(FinalTopologicalMap)) == 1
    }

    // ----- mutators that keep the aggregates -----

    /** Marks a cell free, counting it in the bucket its other flags select. */
    method SetFreeSpaceAt(x: int, y: int)
      requires Wf() && (x, y) in Cells()
      modifies this, grid
      ensures State() == Bookkeeping.SetFreeSpaceAt(old(State()), (x, y))
      ensures old(Valid()) ==> Valid()
    {
      if !FreeSpaceAt(x, y) {
        free := free + 1;
        if IsKnownAtBase(x, y) {
          knownAtBase := knownAtBase + 1;
        } else {
          if IsGotRelayed(x, y) {
            relayed := relayed + 1;
          } else {
            owned := owned + [(x, y)];
          }
        }
      }
      assert State() == FreeCounts(old(State()), (x, y));
      SetFlagBit(x, y, FreeSpace, 1);
      if old(Valid()) {
        SetFreeSpaceAtKeepsInv(old(State()), (x, y));
      }
    }

    /** Marks a cell not free, taking it out of the bucket it was counted in. */
    method SetNoFreeSpaceAt(x: int, y: int)
      requires Wf() && (x, y) in Cells()
      modifies this, grid
      ensures State() == Bookkeeping.SetNoFreeSpaceAt(old(State()), (x, y))
      ensures old(Valid()) ==> Valid()
    {
      if FreeSpaceAt(x, y) {
        free := free - 1;
        if IsKnownAtBase(x, y) {
          knownAtBase := knownAtBase - 1;
        } else {
          if IsGotRelayed(x, y) {
            relayed := relayed - 1;
          } else {
            owned := RemoveFirst(owned, (x, y));
          }
        }
      }
      assert State() == NoFreeCounts(old(State()), (x, y));
      SetFlagBit(x, y, FreeSpace, 0);
      if old(Valid()) {
        SetNoFreeSpaceAtKeepsInv(old(State()), (x, y));
      }
    }

    /** Marks a cell known at base; a free cell moves into the known-at-base count. */
    method SetKnownAtBase(x: int, y: int)
      requires Wf() && (x, y) in Cells()
      modifies this, grid
      ensures State() == Bookkeeping.SetKnownAtBase(old(State()), (x, y))
      ensures old(Valid()) ==> Valid()
    {
      if !IsKnownAtBase(x, y) && FreeSpaceAt(x, y) {
        knownAtBase := knownAtBase + 1;
        if IsGotRelayed(x, y) {
          relayed := relayed - 1;
        } else {
          if FreeSpaceAt(x, y) {
            owned := RemoveFirst(owned, (x, y));
          }
        }
      }
      assert State() == KnownCounts(old(State()), (x, y));
      SetFlagBit(x, y, KnownAtBase, 1);
      if old(Valid()) {
        SetKnownAtBaseKeepsInv(old(State()), (x, y));
      }
    }

    /** Marks a cell relayed by another robot and takes it off the owned list. */
    method SetGotRelayed(x: int, y: int)
      requires Wf() && (x, y) in Cells()
      modifies this, grid
      ensures State() == Bookkeeping.SetGotRelayed(old(State()), (x, y), true)
      ensures old(Valid()) ==> Valid()
    {
      SetGotRelayedUpdating(x, y, true);
    }

    /** Marks a cell relayed by another robot; the owned list is updated only when
        `updateOwnedCellsList` holds, and only then is the invariant kept. */
    method SetGotRelayedUpdating(x: int, y: int, updateOwnedCellsList: bool)
      requires Wf() && (x, y) in Cells()
      modifies this, grid
      ensures State() == Bookkeeping.SetGotRelayed(old(State()), (x, y), updateOwnedCellsList)
      ensures updateOwnedCellsList && old(Valid()) ==> Valid()
    {
      if !IsGotRelayed(x, y) && FreeSpaceAt(x, y) && !IsKnownAtBase(x, y) {
        relayed := relayed + 1;
        if updateOwnedCellsList && FreeSpaceAt(x, y) && !IsKnownAtBase(x, y) {
          owned := RemoveFirst(owned, (x, y));
        }
      }
      assert State() == RelayCounts(old(State()), (x, y), updateOwnedCellsList);
      SetFlagBit(x, y, GotRelayed, 1);
      if updateOwnedCellsList && old(Valid()) {
        SetGotRelayedKeepsInv(old(State()), (x, y));
      }
    }

    /** Marks a cell no longer relayed; a relayed free cell returns to the owned list. */
    method SetGotUnrelayed(x: int, y: int)
      requires Wf() && (x, y) in Cells()
      modifies this, grid
      ensures State() == Bookkeeping.SetGotUnrelayed(old(State()), (x, y))
      ensures old(Valid()) ==> Valid() && relayed >= 0
    {
      if IsGotRelayed(x, y) && FreeSpaceAt(x, y) && !IsKnownAtBase(x, y) {
        relayed := relayed - 1;
        owned := owned + [(x, y)];
      }
      assert State() == UnrelayCounts(old(State()), (x, y));
      SetFlagBit(x, y, GotRelayed, 0);
      if old(Valid()) {
        SetGotUnrelayedKeepsInv(old(State()), (x, y));
        SetGotUnrelayedKeepsRelayedNonNegative(old(State()), (x, y));
      }
    }

    /** Marks a cell safe, which marks it free as well. */
    method SetSafeSpaceAt(x: int, y: int)
      requires Wf() && (x, y) in Cells()
      modifies this, grid
      ensures State() == Bookkeeping.SetSafeSpaceAt(old(State()), (x, y))
      ensures old(Valid()) ==> Valid()
    {
      SetFlagBit(x, y, SafeSpace, 1);
      SetFreeSpaceAt(x, y);
      if old(Valid()) {
        SetSafeSpaceAtKeepsInv(old(State()), (x, y));
      }
    }

    /** Marks a cell as an obstacle, which marks it not free. A cell outside the grid is ignored. */
    method SetObstacleAt(x: int, y: int)
      requires Wf()
      modifies this, grid
      ensures State() == Bookkeeping.SetObstacleAt(old(State()), (x, y))
      ensures old(Valid()) ==> Valid()
    {
      if LocationExists(x, y) {
        SetFlagBit(x, y, Obstacle, 1);
        SetNoFreeSpaceAt(x, y);
      }
      if old(Valid()) {
        SetObstacleAtKeepsInv(old(State()), (x, y));
      }
    }

    /** Clears a cell's obstacle flag, which marks it free. A cell outside the grid is ignored. */
    method SetNoObstacleAt(x: int, y: int)
      requires Wf()
      modifies this, grid
      ensures State() == Bookkeeping.SetNoObstacleAt(old(State()), (x, y))
      ensures old(Valid()) ==> Valid()
    {
      if LocationExists(x, y) {
        SetFlagBit(x, y, Obstacle, 0);
        SetFreeSpaceAt(x, y);
      }
      if old(Valid()) {
        SetNoObstacleAtKeepsInv(old(State()), (x, y));
      }
    }

    /** Freezes a cell in the final topological map; nothing is counted. */
    method SetFinalTopologicalMapCell(x: int, y: int)
      requires Wf() && (x, y) in Cells()
      modifies grid
      ensures State() == SetFlag(old(State()), (x, y), FinalTopologicalMap, 1)
      ensures old(Valid()) ==> Valid()
    {
      SetFlagBit(x, y, FinalTopologicalMap, 1);
      if old(Valid()) {
        NeutralFlagKeepsInv(old(State()), (x, y), FinalTopologicalMap, 1);
      }
    }

    /** Releases a cell from the final topological map; nothing is counted. */
    method UnsetFinalTopologicalMapCell(x: int, y: int)
      requires Wf() && (x, y) in Cells()
      modifies grid
      ensures State() == SetFlag(old(State()), (x, y), FinalTopologicalMap, 0)
      ensures old(Valid()) ==> Valid()
    {
      SetFlagBit(x, y, FinalTopologicalMap, 0);
      if old(Valid()) {
        NeutralFlagKeepsInv(old(State()), (x, y), FinalTopologicalMap, 0);
      }
    }

    // ----- the owned cells and the counters -----

    /** The cells this robot must deliver to base. */
    function GetOwnedCells(): (r: seq<Cell>)
      reads this, grid
      ensures Valid() ==> Elements(r) == CellsIn(Cells(), FreeOwned) && NoDuplicates(r)
    {
      owned
    }

    /** How many free cells another robot relays. */
    function GetNumFreeRelayedCells(): (n: int)
      reads this, grid
      ensures Valid() ==> n == |CellsIn(Cells(), FreeRelayed)|
    {
      relayed
    }

    /** How many free cells are known at base. */
    function GetNumFreeCellsKnownAtBase(): (n: int)
      reads this, grid
      ensures Valid() ==> n == |CellsIn(Cells(), FreeKnownAtBase)|
    {
      knownAtBase
    }

    /** How many cells are free. */
    function GetNumFreeCells(): (n: int)
      reads this, grid
      ensures Valid() ==> n == |CellsIn(Cells(), AllFree)|
    {
      free
    }

    /** Empties the owned list; nothing else changes. */
    method ResetOwnedCells()
      modifies this
      ensures State() == old(State()).(owned := [])
    {
      owned := [];
    }

    /** Marks each listed cell relayed, in order, leaving the owned list alone. */
    method RelayCells(cells: seq<Cell>)
      requires Wf() && forall p :: p in cells ==> p in Cells()
      modifies this, grid
      ensures State() == RelayAll(old(State()), cells)
    {
      ghost var s0 := State();
      var i := 0;
      while i < |cells|
        invariant 0 <= i <= |cells|
        invariant State() == RelayAll(s0, cells[..i])
      {
        var p := cells[i];
        RelayAllAppend(s0, cells[..i], p);
        assert cells[..i + 1] == cells[..i] + [p];
        SetGotRelayedUpdating(p.0, p.1, false);
        i := i + 1;
      }
      assert cells[..i] == cells;
    }

    /** Marks every owned cell relayed, without touching the list while walking it, then empties
        the list; returns how many cells were handed over. */
    method SetOwnedCellsRelayed() returns (counter: int)
      requires Wf() && forall p :: p in owned ==> p in Cells()
      modifies this, grid
      ensures State() == Bookkeeping.SetOwnedCellsRelayed(old(State()))
      ensures counter == |old(owned)|
      ensures old(Valid()) ==> Valid() && relayed == old(relayed) + counter
    {
      ghost var s0 := State();
      var cells := GetOwnedCells();
      RelayCells(cells);
      counter := |GetOwnedCells()|;
      ResetOwnedCells();
      if old(Valid()) {
        SetOwnedCellsRelayedKeepsInv(s0);
      }
    }

    // ----- merging a partner's grid -----

    /** Copies one differing cell of the partner's grid with the setters, in the order of
        MergeAt: FreeSpace, SafeSpace, Obstacle, KnownAtBase; then GotRelayed if the cell is still
        blank; then KnownAtBase when the base station is in range. The partner is not written to,
        so its relay flag is read before the setters run. */
    method MergeCell(partner: OccupancyGrid, x: int, y: int, withBaseStation: bool)
      requires Wf() && partner.Wf() && partner.grid != grid
      requires (x, y) in Cells() && (x, y) in partner.Cells()
      modifies this, grid
      ensures State() == MergeAt(old(State()), old(partner.Cells())[(x, y)], (x, y), withBaseStation)
    {
      var theirRelay := partner.IsGotRelayed(x, y);
      CopyFlags(partner, x, y);
      if GetByte(x, y) == 0 {
        if theirRelay {
          SetGotRelayed(x, y);
        }
      }
      if withBaseStation {
        SetKnownAtBase(x, y);
      }
    }

    /** The first half of merging one cell: the partner's FreeSpace, SafeSpace, Obstacle and
        KnownAtBase flags are copied with the grid's own setters, in that order. The partner is
        not written to, so its flags are read once, before the first setter runs. */
    method CopyFlags(partner: OccupancyGrid, x: int, y: int)
      requires Wf() && partner.Wf() && partner.grid != grid
      requires (x, y) in Cells() && (x, y) in partner.Cells()
      modifies this, grid
      ensures State() == MergeCopies(old(State()), old(partner.Cells())[(x, y)], (x, y))
    {
      ghost var theirs := partner.GetByte(x, y);
      var theirFree := partner.FreeSpaceAt(x, y);
      var theirSafe := partner.SafeSpaceAt(x, y);
      var theirObstacle := partner.ObstacleAt(x, y);
      var theirKnown := partner.IsKnownAtBase(x, y);
      ghost var s := State();
      if theirFree {
        SetFreeSpaceAt(x, y);
      }
      assert State() == MergeFree(s, theirs, (x, y));
      ghost var s1 := State();
      if theirSafe {
        SetSafeSpaceAt(x, y);
      }
      assert State() == MergeSafe(s1, theirs, (x, y));
      ghost var s2 := State();
      if theirObstacle {
        SetObstacleAt(x, y);
      }
      assert State() == MergeObstacle(s2, theirs, (x, y));
      if theirKnown {
        SetKnownAtBase(x, y);
      }
    }

    /** Merges a partner's knowledge into this grid, cell by cell in row-major order, and returns
        the cells whose relay-masked bytes differed. The partner must cover this grid. */
    method MergeGrid(partner: OccupancyGrid, withBaseStation: bool) returns (cellsUpdated: seq<Cell>)
      requires Wf() && partner.Wf()
      requires width > 0 && height > 0 ==> width <= partner.width && height <= partner.height
      modifies this, grid
      ensures State() == MergeAll(old(State()), old(partner.Cells()), AllCells(width, height), withBaseStation)
      ensures cellsUpdated == Reported(old(Cells()), old(partner.Cells()), AllCells(width, height))
      ensures partner.Cells() == old(partner.Cells())
      ensures old(Valid()) ==> Valid()
    {
      ghost var s0 := State();
      ghost var theirs := partner.Cells();
      cellsUpdated := [];
      var i := 0;
      while i < width
        invariant 0 <= i <= width
        invariant partner.Cells() == theirs
        invariant forall c :: c in Visited(height, i, 0) ==> c in s0.cells && c in theirs
        invariant State() == MergeAll(s0, theirs, Visited(height, i, 0), withBaseStation)
        invariant cellsUpdated == Reported(s0.cells, theirs, Visited(height, i, 0))
      {
        cellsUpdated := MergeColumn(partner, i, withBaseStation, s0, theirs, cellsUpdated);
        i := i + 1;
      }
      if old(Valid()) {
        MergeAllKeepsInv(s0, theirs, AllCells(width, height), withBaseStation);
      }
    }

    /** The inner loop of MergeGrid: merges column `i`, row by row, and appends the cells whose
        masked bytes differed to `cellsBefore`. */
    method MergeColumn(partner: OccupancyGrid, i: int, withBaseStation: bool, ghost s0: GridState,
                       ghost theirs: map<Cell, Byte>, cellsBefore: seq<Cell>) returns (cellsUpdated: seq<Cell>)
      requires Wf() && partner.Wf() && 0 <= i < width
      requires height > 0 ==> i < partner.width && height <= partner.height
      requires partner.Cells() == theirs
      requires forall c :: c in Visited(height, i, 0) ==> c in s0.cells && c in theirs
      requires State() == MergeAll(s0, theirs, Visited(height, i, 0), withBaseStation)
      requires cellsBefore == Reported(s0.cells, theirs, Visited(height, i, 0))
      modifies this, grid
      ensures partner.Cells() == theirs
      ensures forall c :: c in Visited(height, i + 1, 0) ==> c in s0.cells && c in theirs
      ensures State() == MergeAll(s0, theirs, Visited(height, i + 1, 0), withBaseStation)
      ensures cellsUpdated == Reported(s0.cells, theirs, Visited(height, i + 1, 0))
    {
      cellsUpdated := cellsBefore;
      var j := 0;
      while j < height
        invariant 0 <= j <= height
        invariant partner.Cells() == theirs
        invariant forall c :: c in Visited(height, i, j) ==> c in s0.cells && c in theirs
        invariant State() == MergeAll(s0, theirs, Visited(height, i, j), withBaseStation)
        invariant cellsUpdated == Reported(s0.cells, theirs, Visited(height, i, j))
      {
        ghost var before := State();
        var differs := MergeIfDiffers(partner, i, j, withBaseStation);
        VisitOne(s0, theirs, height, i, j, withBaseStation, before, State(), differs, cellsUpdated);
        if differs {
          cellsUpdated := cellsUpdated + [(i, j)];
        }
        j := j + 1;
      }
      assert Visited(height, i + 1, 0) == Visited(height, i, height);
    }

    /** The body of MergeGrid's loops for one cell: the cell is merged when its masked byte
        differs from the partner's, and `differs` says whether it was. */
    method MergeIfDiffers(partner: OccupancyGrid, x: int, y: int, withBaseStation: bool) returns (differs: bool)
      requires Wf() && partner.Wf()
      requires (x, y) in Cells() && (x, y) in partner.Cells()
      modifies this, grid
      ensures differs == Differs(old(Cells())[(x, y)], old(partner.Cells())[(x, y)])
      ensures partner.Cells() == old(partner.Cells())
      ensures State() == MergeStep(old(State()), old(partner.Cells())[(x, y)], (x, y), withBaseStation)
    {
      differs := GetByteNoRelay(x, y) != partner.GetByteNoRelay(x, y);
      if differs {
        assert partner.grid != grid;
        MergeCell(partner, x, y, withBaseStation);
      }
    }

    // ----- neighbourhood queries -----

    /** Whether (x, y) is unexplored: neither free, safe nor an obstacle. The bounds test lets
        x = width and y = height through, and those positions read as unexplored. */
    function EmptyAt(x: int, y: int): (r: bool)
      reads grid
      requires Wf()
      ensures r <==> 0 <= x <= width && 0 <= y <= height && ((x, y) in Cells() ==> Unexplored(Cells()[(x, y)]))
    {
      if x < 0 then false
      else if y < 0 then false
      else if x > width then false
      else if y > height then false
      else !FreeSpaceAt(x, y) && !SafeSpaceAt(x, y) && !ObstacleAt(x, y)
    }

    /** Some position of the 3-by-3 block around (x, y) is unexplored. */
    ghost predicate HasEmptyNeighbour(x: int, y: int)
      reads grid
      requires Wf()
    {
      exists i, j :: x - 1 <= i <= x + 1 && y - 1 <= j <= y + 1 && EmptyAt(i, j)
    }

    /** Every position of the 3-by-3 block around (x, y) is a free cell. */
    ghost predicate AllNeighboursFree(x: int, y: int)
      reads grid
      requires Wf()
    {
      forall i, j :: x - 1 <= i <= x + 1 && y - 1 <= j <= y + 1 ==> FreeSpaceAt(i, j)
    }

    /** A frontier cell: free, no obstacle, and either not yet safe or next to unexplored space. */
    ghost predicate IsFrontier(x: int, y: int)
      reads grid
      requires Wf()
    {
      (x, y) in Cells() && Has(Cells()[(x, y)], FreeSpace) && !Has(Cells()[(x, y)], Obstacle) &&
      (!Has(Cells()[(x, y)], SafeSpace) || HasEmptyNeighbour(x, y))
    }

    /** Scans the 3-by-3 block around (x, y), column by column, for an unexplored position. */
    method FrontierBorderCellAt(x: int, y: int) returns (r: bool)
      requires Wf()
      ensures r <==> HasEmptyNeighbour(x, y)
    {
      var i := x - 1;
      while i <= x + 1
        invariant x - 1 <= i <= x + 2
        invariant forall a, b :: x - 1 <= a < i && y - 1 <= b <= y + 1 ==> !EmptyAt(a, b)
      {
        var j := y - 1;
        while j <= y + 1
          invariant y - 1 <= j <= y + 2
          invariant forall a, b :: (x - 1 <= a < i && y - 1 <= b <= y + 1) || (a == i && y - 1 <= b < j) ==> !EmptyAt(a, b)
        {
          if EmptyAt(i, j) {
            return true;
          }
          j := j + 1;
        }
        i := i + 1;
      }
      return false;
    }

    /** Scans the 3-by-3 block around (x, y) for a position that is not free. */
    method IsInOpenSpace(x: int, y: int) returns (r: bool)
      requires Wf()
      ensures r <==> AllNeighboursFree(x, y)
    {
      var i := x - 1;
      while i <= x + 1
        invariant x - 1 <= i <= x + 2
        invariant forall a, b :: x - 1 <= a < i && y - 1 <= b <= y + 1 ==> FreeSpaceAt(a, b)
      {
        var j := y - 1;
        while j <= y + 1
          invariant y - 1 <= j <= y + 2
          invariant forall a, b :: (x - 1 <= a < i && y - 1 <= b <= y + 1) || (a == i && y - 1 <= b < j) ==> FreeSpaceAt(a, b)
        {
          if !FreeSpaceAt(i, j) {
            return false;
          }
          j := j + 1;
        }
        i := i + 1;
      }
      return true;
    }

    /** Whether (x, y) is a frontier cell; the block around it is scanned only for a free, safe
        cell without an obstacle. */
    method FrontierCellAt(x: int, y: int) returns (r: bool)
      requires Wf()
      ensures r <==> IsFrontier(x, y)
    {
      if FreeSpaceAt(x, y) && !SafeSpaceAt(x, y) && !ObstacleAt(x, y) {
        r := true;
      } else if FreeSpaceAt(x, y) && !ObstacleAt(x, y) {
        r := FrontierBorderCellAt(x, y);
      } else {
        r := false;
      }
    }

    /** The position just past the last column reads as unexplored, the one just before the first
        column does not. */
    lemma EmptyPastLastColumn(y: int)
      requires Wf() && 0 <= y <= height
      ensures (width, y) !in Cells() && EmptyAt(width, y)
      ensures (-1, y) !in Cells() && !EmptyAt(-1, y)
    {
    }

    /** Hence every free cell without an obstacle in the last column is a frontier cell, while the
        same cell in the first column need not be. */
    lemma LastColumnIsFrontier(y: int)
      requires Wf() && width > 0 && 0 <= y < height
      requires Has(Cells()[(width - 1, y)], FreeSpace) && !Has(Cells()[(width - 1, y)], Obstacle)
      ensures IsFrontier(width - 1, y)
    {
      assert EmptyAt(width, y);
    }

    /** A cell in open space lies at least one cell away from every edge and borders no unexplored
        position, so a safe cell in open space is not a frontier cell. */
    lemma OpenSpaceIsInterior(x: int, y: int)
      requires Wf() && AllNeighboursFree(x, y)
      ensures 1 <= x < width - 1 && 1 <= y < height - 1
      ensures !HasEmptyNeighbour(x, y)
      ensures Has(Cells()[(x, y)], SafeSpace) ==> !IsFrontier(x, y)
    {
      assert FreeSpaceAt(x - 1, y - 1) && FreeSpaceAt(x + 1, y + 1);
      assert FreeSpaceAt(x, y);
    }

    /** The in-grid cells of the square of half-side `d` around (x, y), other than (x, y), that
        are unexplored. */
    ghost function EmptyCellsWithin(x: int, y: int, d: int): set<Cell>
      reads grid
    {
      set c | c in Cells() && InSquare(c, x, y, d) && Unexplored(Cells()[c])
    }

    /** The in-grid cells of the same square that are safe. */
    ghost function SafeCellsWithin(x: int, y: int, d: int): set<Cell>
      reads grid
    {
      set c | c in Cells() && InSquare(c, x, y, d) && Has(Cells()[c], SafeSpace)
    }

    /** One step of the scan counts a position exactly when it is an unexplored cell of the square. */
    lemma EmptyCellsWithinHas(x: int, y: int, d: int, i: int, j: int, cells: set<Cell>, counted: bool)
      requires Wf() && x - d <= i <= x + d && y - d <= j <= y + d
      requires cells == EmptyCellsWithin(x, y, d)
      requires counted == (LocationExists(i, j) && EmptyAt(i, j) && (i != x || j != y))
      ensures |Prefix(cells, (i, j + 1))| == |Prefix(cells, (i, j))| + if counted then 1 else 0
    {
      PrefixStep(cells, i, j);
    }

    /** One step of the scan counts a position exactly when it is a safe cell of the square. */
    lemma SafeCellsWithinHas(x: int, y: int, d: int, i: int, j: int, cells: set<Cell>, counted: bool)
      requires Wf() && x - d <= i <= x + d && y - d <= j <= y + d
      requires cells == SafeCellsWithin(x, y, d)
      requires counted == (LocationExists(i, j) && SafeSpaceAt(i, j) && (i != x || j != y))
      ensures |Prefix(cells, (i, j + 1))| == |Prefix(cells, (i, j))| + if counted then 1 else 0
    {
      PrefixStep(cells, i, j);
    }

    /** The end of one column of the square's scan is the start of the next. */
    lemma EmptyCellsWithinRow(x: int, y: int, d: int, i: int)
      ensures Prefix(EmptyCellsWithin(x, y, d), (i, y + d + 1)) == Prefix(EmptyCellsWithin(x, y, d), (i + 1, y - d))
    {
      PrefixRow(EmptyCellsWithin(x, y, d), i, y - d, y + d);
    }

    /** Counts the unexplored in-grid cells around (x, y), (x, y) itself excluded. */
    method GetEmptySpacesWithinSquare(x: int, y: int, minDistance: int) returns (count: int)
      requires Wf()
      ensures count == |EmptyCellsWithin(x, y, minDistance)|
    {
      count := 0;
      var i := x - minDistance;
      PrefixStart(EmptyCellsWithin(x, y, minDistance), (i, y - minDistance));
      while i <= x + minDistance
        invariant x - minDistance <= i <= x + minDistance + 1 || (minDistance < 0 && i == x - minDistance)
        invariant count == |Prefix(EmptyCellsWithin(x, y, minDistance), (i, y - minDistance))|
      {
        count := CountEmptyInColumn(x, y, minDistance, i, count);
        i := i + 1;
      }
      PrefixEnd(EmptyCellsWithin(x, y, minDistance), (i, y - minDistance));
    }

    /** The inner loop of GetEmptySpacesWithinSquare: adds the unexplored cells of column `i` of the
        square to the count of the columns before it. */
    method CountEmptyInColumn(x: int, y: int, minDistance: int, i: int, before: int) returns (count: int)
      requires Wf() && x - minDistance <= i <= x + minDistance
      requires before == |Prefix(EmptyCellsWithin(x, y, minDistance), (i, y - minDistance))|
      ensures count == |Prefix(EmptyCellsWithin(x, y, minDistance), (i + 1, y - minDistance))|
    {
      ghost var cells := EmptyCellsWithin(x, y, minDistance);
      count := before;
      var j := y - minDistance;
      while j <= y + minDistance
        invariant y - minDistance <= j <= y + minDistance + 1
        invariant count == |Prefix(cells, (i, j))|
      {
        var counted := LocationExists(i, j) && EmptyAt(i, j) && (i != x || j != y);
        EmptyCellsWithinHas(x, y, minDistance, i, j, cells, counted);
        count := count + if counted then 1 else 0;
        j := j + 1;
      }
      EmptyCellsWithinRow(x, y, minDistance, i);
    }

    /** The end of one column of the square's scan is the start of the next. */
    lemma SafeCellsWithinRow(x: int, y: int, d: int, i: int)
      ensures Prefix(SafeCellsWithin(x, y, d), (i, y + d + 1)) == Prefix(SafeCellsWithin(x, y, d), (i + 1, y - d))
    {
      PrefixRow(SafeCellsWithin(x, y, d), i, y - d, y + d);
    }

    /** Counts the safe in-grid cells around (x, y), (x, y) itself excluded. */
    method GetSafeSpacesWithinSquare(x: int, y: int, minDistance: int) returns (count: int)
      requires Wf()
      ensures count == |SafeCellsWithin(x, y, minDistance)|
    {
      count := 0;
      var i := x - minDistance;
      PrefixStart(SafeCellsWithin(x, y, minDistance), (i, y - minDistance));
      while i <= x + minDistance
        invariant x - minDistance <= i <= x + minDistance + 1 || (minDistance < 0 && i == x - minDistance)
        invariant count == |Prefix(SafeCellsWithin(x, y, minDistance), (i, y - minDistance))|
      {
        count := CountSafeInColumn(x, y, minDistance, i, count);
        i := i + 1;
      }
      PrefixEnd(SafeCellsWithin(x, y, minDistance), (i, y - minDistance));
    }

    /** The inner loop of GetSafeSpacesWithinSquare: adds the safe cells of column `i` of the
        square to the count of the columns before it. */
    method CountSafeInColumn(x: int, y: int, minDistance: int, i: int, before: int) returns (count: int)
      requires Wf() && x - minDistance <= i <= x + minDistance
      requires before == |Prefix(SafeCellsWithin(x, y, minDistance), (i, y - minDistance))|
      ensures count == |Prefix(SafeCellsWithin(x, y, minDistance), (i + 1, y - minDistance))|
    {
      ghost var cells := SafeCellsWithin(x, y, minDistance);
      count := before;
      var j := y - minDistance;
      while j <= y + minDistance
        invariant y - minDistance <= j <= y + minDistance + 1
        invariant count == |Prefix(cells, (i, j))|
      {
        var counted := LocationExists(i, j) && SafeSpaceAt(i, j) && (i != x || j != y);
        SafeCellsWithinHas(x, y, minDistance, i, j, cells, counted);
        count := count + if counted then 1 else 0;
        j := j + 1;
      }
      SafeCellsWithinRow(x, y, minDistance, i);
    }

    /** Cell c is an in-grid obstacle within Euclidean distance `d` of (x, y). */
    ghost predicate ObstacleWithin(c: Cell, x: int, y: int, d: int)
      reads grid
    {
      c in Cells() && Has(Cells()[c], Obstacle) && SquaredDistance(c, (x, y)) <= d * d
    }

    /** Some obstacle cell lies within Euclidean distance `d` of (x, y). */
    ghost predicate ObstacleNear(x: int, y: int, d: int)
      reads grid
    {
      0 <= d && exists c :: ObstacleWithin(c, x, y, d)
    }

    /** Scans the square of half-side `minDistance` around (x, y) for an in-grid obstacle within
        that distance, comparing squared distances. */
    method ObstacleWithinDistance(x: int, y: int, minDistance: int) returns (r: bool)
      requires Wf()
      ensures r <==> ObstacleNear(x, y, minDistance)
    {
      var i := x - minDistance;
      while i <= x + minDistance
        invariant x - minDistance <= i <= x + minDistance + 1 || (minDistance < 0 && i == x - minDistance)
        invariant forall a, b :: x - minDistance <= a < i && y - minDistance <= b <= y + minDistance ==>
          !ObstacleWithin((a, b), x, y, minDistance)
      {
        var j := y - minDistance;
        while j <= y + minDistance
          invariant y - minDistance <= j <= y + minDistance + 1
          invariant forall a, b ::
            ((x - minDistance <= a < i && y - minDistance <= b <= y + minDistance) ||
             (a == i && y - minDistance <= b < j)) ==>
            !ObstacleWithin((a, b), x, y, minDistance)
        {
          if LocationExists(i, j) && SquaredDistance((i, j), (x, y)) <= minDistance * minDistance && ObstacleAt(i, j) {
            assert ObstacleWithin((i, j), x, y, minDistance);
            return true;
          }
          j := j + 1;
        }
        i := i + 1;
      }
      // An obstacle within the distance would lie in the square the loops have scanned.
      if 0 <= minDistance {
        forall c | ObstacleWithin(c, x, y, minDistance)
          ensures false
        {
          WithinRadius(c.0 - x, c.1 - y, minDistance);
        }
      }
      return false;
    }
  }

  /** The bytes of `m` at the positions before `upto` in row-major order, and 0 at the others:
      what a copy holds while its loops stand at `upto`. */
  ghost function CopiedUpTo(m: map<Cell, Byte>, upto: Cell): (r: map<Cell, Byte>)
  {
    map c | c in m :: if Before(c, upto) then m[c] else 0
  }

  /** Before the copy loops start, the copy is a blank grid. */
  lemma CopiedUpToStart(m: map<Cell, Byte>, width: nat, height: nat)
    requires m.Keys == Positions(width, height)
    ensures CopiedUpTo(m, (0, 0)) == Blank(width, height).cells
  {
  }

  /** Copying the byte at (i, j) advances the copied prefix by one position. */
  lemma CopiedUpToStep(m: map<Cell, Byte>, i: int, j: int)
    requires (i, j) in m
    ensures CopiedUpTo(m, (i, j))[(i, j) := m[(i, j)]] == CopiedUpTo(m, (i, j + 1))
  {
  }

  /** The end of one column is the start of the next. */
  lemma CopiedUpToNextColumn(m: map<Cell, Byte>, i: int, height: int)
    requires forall c :: c in m ==> 0 <= c.1 < height
    ensures CopiedUpTo(m, (i, height)) == CopiedUpTo(m, (i + 1, 0))
  {
  }

  /** Past the last column everything has been copied. */
  lemma CopiedUpToEnd(m: map<Cell, Byte>, width: int)
    requires forall c :: c in m ==> c.0 < width
    ensures CopiedUpTo(m, (width, 0)) == m
  {
  }

  /** Whether c lies in the square of half-side `d` around (x, y) and is not (x, y) itself. */
  predicate InSquare(c: Cell, x: int, y: int, d: int)
  {
    x - d <= c.0 <= x + d && y - d <= c.1 <= y + d && c != (x, y)
  }

  /** The square of the Euclidean distance between two cells. */
  function SquaredDistance(p: Cell, q: Cell): (r: int)
    ensures r >= 0
  {
    (p.0 - q.0) * (p.0 - q.0) + (p.1 - q.1) * (p.1 - q.1)
  }

  /** A point within distance `d` of the centre lies in the square of half-side `d`. */
  lemma WithinRadius(dx: int, dy: int, d: int)
    requires 0 <= d && dx * dx + dy * dy <= d * d
    ensures -d <= dx <= d && -d <= dy <= d
  {
    assert dy * dy >= 0 && dx * dx >= 0;
    SquareBound(dx, d);
    SquareBound(dy, d);
  }

  /** An offset whose square is at most `d` squared is at most `d` either way. */
  lemma SquareBound(t: int, d: int)
    requires 0 <= d && t * t <= d * d
    ensures -d <= t <= d
  {
    assert t * t - d * d == (t - d) * (t + d);
    if t > d || t < -d {
      assert false;
    }
  }

  /** The members of `s` that come before `upto` in row-major order: those a row-major scan
      standing at `upto` has already passed. */
  ghost function Prefix(s: set<Cell>, upto: Cell): set<Cell>
  {
    set c | c in s && Before(c, upto)
  }

  /** A scan that starts at the corner of the square has passed nothing. */
  lemma PrefixStart(s: set<Cell>, upto: Cell)
    requires forall c :: c in s ==> upto.0 <= c.0 && upto.1 <= c.1
    ensures Prefix(s, upto) == {}
  {
  }

  /** One step along a column passes exactly the cell stepped over. */
  lemma PrefixStep(s: set<Cell>, i: int, j: int)
    ensures |Prefix(s, (i, j + 1))| == |Prefix(s, (i, j))| + if (i, j) in s then 1 else 0
  {
    assert Prefix(s, (i, j + 1)) == Prefix(s, (i, j)) + if (i, j) in s then {(i, j)} else {};
  }

  /** The end of one column of the square is the start of the next. */
  lemma PrefixRow(s: set<Cell>, i: int, lo: int, hi: int)
    requires forall c :: c in s ==> lo <= c.1 <= hi
    ensures Prefix(s, (i, hi + 1)) == Prefix(s, (i + 1, lo))
  {
  }

  /** Past the last column the scan has passed every member. */
  lemma PrefixEnd(s: set<Cell>, upto: Cell)
    requires forall c :: c in s ==> c.0 < upto.0
    ensures Prefix(s, upto) == s
  {
  }
}
