/** Merging a partner robot's occupancy grid into this robot's: which cells are visited and in
    what order, what happens to one differing cell, and which cells are reported as updated. */
module Merge {
  import opened CellFlags
  import opened Bookkeeping

  // ----- one cell -----

  /** Whether a cell takes part in the merge: its two bytes differ once the GotRelayed bit is
      masked out of both. */
  predicate Differs(mine: Byte, theirs: Byte)
  {
    NoRelay(mine) != NoRelay(theirs)
  }

  /** Whether flag `g` is set once the partner's flags have been copied into this robot's cell. */
  predicate CopiedFlag(mine: Byte, theirs: Byte, g: Flag)
  {
    match g
    case FreeSpace =>
      (Has(mine, FreeSpace) || Has(theirs, FreeSpace) || Has(theirs, SafeSpace)) && !Has(theirs, Obstacle)
    case SafeSpace => Has(mine, SafeSpace) || Has(theirs, SafeSpace)
    case Obstacle => Has(mine, Obstacle) || Has(theirs, Obstacle)
    case KnownAtBase => Has(mine, KnownAtBase) || Has(theirs, KnownAtBase)
    case GotRelayed => Has(mine, GotRelayed)
    case FinalTopologicalMap => Has(mine, FinalTopologicalMap)
  }

  /** A differing cell's byte after the partner's FreeSpace, SafeSpace, Obstacle and KnownAtBase
      flags have been copied in turn through the grid's own setters: SafeSpace, Obstacle and
      KnownAtBase become the union of both robots'; FreeSpace is the union of FreeSpace and the
      partner's SafeSpace, unless the partner sees an obstacle; the rest is this robot's own. */
  function Copied(mine: Byte, theirs: Byte): (r: Byte)
  {
    var b1 := CopyFree(mine, theirs);
    var b2 := CopySafe(b1, theirs);
    var b3 := CopyObstacle(b2, theirs);
    CopyKnown(b3, theirs)
  }

  /** The first copy: the partner's FreeSpace. */
  function CopyFree(b: Byte, theirs: Byte): (r: Byte)
    ensures forall g :: Has(r, g) <==> Has(b, g) || (g == FreeSpace && Has(theirs, FreeSpace))
    ensures GetBit(r, 6) == GetBit(b, 6) && GetBit(r, 7) == GetBit(b, 7)
  {
    if Has(theirs, FreeSpace) then With(b, FreeSpace) else b
  }

  /** The second copy: the partner's SafeSpace, which marks the cell free as well. */
  function CopySafe(b: Byte, theirs: Byte): (r: Byte)
    ensures forall g :: Has(r, g) <==> Has(b, g) || ((g == SafeSpace || g == FreeSpace) && Has(theirs, SafeSpace))
    ensures GetBit(r, 6) == GetBit(b, 6) && GetBit(r, 7) == GetBit(b, 7)
  {
    if Has(theirs, SafeSpace) then With(With(b, SafeSpace), FreeSpace) else b
  }

  /** The third copy: the partner's Obstacle, which marks the cell not free. */
  function CopyObstacle(b: Byte, theirs: Byte): (r: Byte)
    ensures forall g :: Has(r, g) <==>
      if Has(theirs, Obstacle) then g == Obstacle || (g != FreeSpace && Has(b, g)) else Has(b, g)
    ensures GetBit(r, 6) == GetBit(b, 6) && GetBit(r, 7) == GetBit(b, 7)
  {
    if Has(theirs, Obstacle) then Without(With(b, Obstacle), FreeSpace) else b
  }

  /** The fourth copy: the partner's KnownAtBase. */
  function CopyKnown(b: Byte, theirs: Byte): (r: Byte)
    ensures forall g :: Has(r, g) <==> Has(b, g) || (g == KnownAtBase && Has(theirs, KnownAtBase))
    ensures GetBit(r, 6) == GetBit(b, 6) && GetBit(r, 7) == GetBit(b, 7)
  {
    if Has(theirs, KnownAtBase) then With(b, KnownAtBase) else b
  }

  /** Flag by flag, the copies give what CopiedFlag says. */
  lemma CopiedHas(mine: Byte, theirs: Byte, g: Flag)
    ensures Has(Copied(mine, theirs), g) <==> CopiedFlag(mine, theirs, g)
  {
  }

  /** The copies leave the two spare bits alone. */
  lemma CopiedSpare(mine: Byte, theirs: Byte)
    ensures GetBit(Copied(mine, theirs), 6) == GetBit(mine, 6) && GetBit(Copied(mine, theirs), 7) == GetBit(mine, 7)
  {
  }

  /** The copies leave the byte 0 exactly when the cell was blank and the partner has none of
      FreeSpace, SafeSpace, Obstacle and KnownAtBase. */
  predicate TakesRelay(mine: Byte, theirs: Byte)
  {
    mine == 0 && Has(theirs, GotRelayed)
    && !Has(theirs, FreeSpace) && !Has(theirs, SafeSpace) && !Has(theirs, Obstacle) && !Has(theirs, KnownAtBase)
  }

  lemma CopiedIsZero(mine: Byte, theirs: Byte)
    ensures Copied(mine, theirs) == 0 <==>
      (mine == 0 && !Has(theirs, FreeSpace) && !Has(theirs, SafeSpace) && !Has(theirs, Obstacle) && !Has(theirs, KnownAtBase))
  {
    ZeroByte(Copied(mine, theirs));
    ZeroByte(mine);
  }

  /** The byte a differing cell ends with: after the copies, GotRelayed is taken from the partner
      only when the byte is still 0, and with the base station in range the cell is then marked
      known at base. */
  function MergedByte(mine: Byte, theirs: Byte, withBaseStation: bool): Byte
  {
    var b4 := Copied(mine, theirs);
    var b5 := if b4 == 0 && Has(theirs, GotRelayed) then With(b4, GotRelayed) else b4;
    if withBaseStation then With(b5, KnownAtBase) else b5
  }

  /** Whether flag `g` is set in a merged cell: the copied flags, with KnownAtBase also when the
      base station is in range, and GotRelayed kept, or taken from the partner into a blank cell
      that gains nothing else. */
  predicate MergedFlag(mine: Byte, theirs: Byte, withBaseStation: bool, g: Flag)
  {
    match g
    case KnownAtBase => CopiedFlag(mine, theirs, g) || withBaseStation
    case GotRelayed => Has(mine, GotRelayed) || TakesRelay(mine, theirs)
    case _ => CopiedFlag(mine, theirs, g)
  }

  /** Flag by flag, the merged byte holds what either robot knew: SafeSpace, Obstacle and
      KnownAtBase are the union of both (KnownAtBase also when the base station is in range);
      FreeSpace is the union of FreeSpace, and the partner's SafeSpace, unless the partner sees an
      obstacle; GotRelayed is kept, and taken from the partner only into a blank cell that gains
      nothing else; FinalTopologicalMap is this robot's own. */
  lemma MergedByteHas(mine: Byte, theirs: Byte, withBaseStation: bool, g: Flag)
    ensures Has(MergedByte(mine, theirs, withBaseStation), g) <==> MergedFlag(mine, theirs, withBaseStation, g)
  {
    CopiedIsZero(mine, theirs);
    CopiedHas(mine, theirs, g);
  }

  /** Merging leaves the two spare bits alone. */
  lemma MergedByteSpare(mine: Byte, theirs: Byte, withBaseStation: bool)
    ensures GetBit(MergedByte(mine, theirs, withBaseStation), 6) == GetBit(mine, 6)
    ensures GetBit(MergedByte(mine, theirs, withBaseStation), 7) == GetBit(mine, 7)
  {
    CopiedSpare(mine, theirs);
  }

  /** The partner's FreeSpace, copied with the grid's setter. */
  function MergeFree(s: GridState, theirs: Byte, c: Cell): (r: GridState)
    requires c in s.cells
    ensures r.cells == s.cells[c := CopyFree(s.cells[c], theirs)]
  {
    if Has(theirs, FreeSpace) then SetFreeSpaceAt(s, c)
    else assert s.cells[c := s.cells[c]] == s.cells; s
  }

  /** The partner's SafeSpace, copied with the grid's setter. */
  function MergeSafe(s: GridState, theirs: Byte, c: Cell): (r: GridState)
    requires c in s.cells
    ensures r.cells == s.cells[c := CopySafe(s.cells[c], theirs)]
  {
    if Has(theirs, SafeSpace) then SetSafeSpaceAt(s, c)
    else assert s.cells[c := s.cells[c]] == s.cells; s
  }

  /** The partner's Obstacle, copied with the grid's setter. */
  function MergeObstacle(s: GridState, theirs: Byte, c: Cell): (r: GridState)
    requires c in s.cells
    ensures r.cells == s.cells[c := CopyObstacle(s.cells[c], theirs)]
  {
    if Has(theirs, Obstacle) then SetObstacleAt(s, c)
    else assert s.cells[c := s.cells[c]] == s.cells; s
  }

  /** The partner's KnownAtBase, copied with the grid's setter. */
  function MergeKnown(s: GridState, theirs: Byte, c: Cell): (r: GridState)
    requires c in s.cells
    ensures r.cells == s.cells[c := CopyKnown(s.cells[c], theirs)]
  {
    if Has(theirs, KnownAtBase) then SetKnownAtBase(s, c)
    else assert s.cells[c := s.cells[c]] == s.cells; s
  }

  /** The four copies in the grid's order. */
  function MergeCopies(s: GridState, theirs: Byte, c: Cell): (r: GridState)
    requires c in s.cells
    ensures r.cells == s.cells[c := Copied(s.cells[c], theirs)]
  {
    var s1 := MergeFree(s, theirs, c);
    var s2 := MergeSafe(s1, theirs, c);
    var s3 := MergeObstacle(s2, theirs, c);
    var s4 := MergeKnown(s3, theirs, c);
    UpdateTwice(s.cells, c, s1.cells[c], s2.cells[c]);
    UpdateTwice(s.cells, c, s2.cells[c], s3.cells[c]);
    UpdateTwice(s.cells, c, s3.cells[c], s4.cells[c]);
    s4
  }

  lemma UpdateTwice(m: map<Cell, Byte>, c: Cell, x: Byte, y: Byte)
    ensures m[c := x][c := y] == m[c := y]
  {
  }

  /** Merging one differing cell through the grid's setters, in the order the grid applies them. */
  function MergeAt(s: GridState, theirs: Byte, c: Cell, withBaseStation: bool): (r: GridState)
    requires c in s.cells
    ensures r.cells == s.cells[c := MergedByte(s.cells[c], theirs, withBaseStation)]
  {
    var s4 := MergeCopies(s, theirs, c);
    var s5 := if s4.cells[c] == 0 && Has(theirs, GotRelayed) then SetGotRelayed(s4, c, true) else s4;
    var r := if withBaseStation then SetKnownAtBase(s5, c) else s5;
    UpdateTwice(s.cells, c, s4.cells[c], s5.cells[c]);
    UpdateTwice(s.cells, c, s5.cells[c], r.cells[c]);
    r
  }

  /** Merging one cell keeps the counters and the owned list in step with the flags. */
  lemma MergeAtKeepsInv(s: GridState, theirs: Byte, c: Cell, withBaseStation: bool)
    requires Inv(s) && c in s.cells
    ensures Inv(MergeAt(s, theirs, c, withBaseStation))
  {
    var s1 := MergeFree(s, theirs, c);
    if Has(theirs, FreeSpace) { SetFreeSpaceAtKeepsInv(s, c); }
    var s2 := MergeSafe(s1, theirs, c);
    if Has(theirs, SafeSpace) { SetSafeSpaceAtKeepsInv(s1, c); }
    var s3 := MergeObstacle(s2, theirs, c);
    if Has(theirs, Obstacle) { SetObstacleAtKeepsInv(s2, c); }
    var s4 := MergeKnown(s3, theirs, c);
    if Has(theirs, KnownAtBase) { SetKnownAtBaseKeepsInv(s3, c); }
    var s5 := if s4.cells[c] == 0 && Has(theirs, GotRelayed) then SetGotRelayed(s4, c, true) else s4;
    if s4.cells[c] == 0 && Has(theirs, GotRelayed) { SetGotRelayedKeepsInv(s4, c); }
    if withBaseStation { SetKnownAtBaseKeepsInv(s5, c); }
  }

  /** One visit of the merge loop: a differing cell is merged, any other is left alone. */
  function MergeStep(s: GridState, theirs: Byte, c: Cell, withBaseStation: bool): (r: GridState)
    requires c in s.cells
    ensures r.cells.Keys == s.cells.Keys
    ensures Differs(s.cells[c], theirs) ==>
      r.cells == s.cells[c := MergedByte(s.cells[c], theirs, withBaseStation)]
    ensures !Differs(s.cells[c], theirs) ==> r == s
  {
    if Differs(s.cells[c], theirs) then MergeAt(s, theirs, c, withBaseStation) else s
  }

  // ----- the visiting order -----

  /** Row-major order: by column index `x` first, then by row index `y`. */
  predicate Before(p: Cell, q: Cell)
  {
    p.0 < q.0 || (p.0 == q.0 && p.1 < q.1)
  }

  /** Every cell is visited after all cells listed before it. */
  predicate Ascending(cs: seq<Cell>)
  {
    forall p, q :: 0 <= p < q < |cs| ==> Before(cs[p], cs[q])
  }

  /** The cells a grid of height `height` has visited when its loops stand at column `i`, row `j`. */
  function Visited(height: nat, i: nat, j: nat): seq<Cell>
    requires j <= height
    decreases i, j
  {
    if j > 0 then Visited(height, i, j - 1) + [(i, j - 1)]
    else if i > 0 then Visited(height, i - 1, height)
    else []
  }

  /** The visited cells are the full columns before `i` and the first `j` rows of column `i`. */
  lemma {:induction false} VisitedMembers(height: nat, i: nat, j: nat)
    requires j <= height
    ensures forall c :: c in Visited(height, i, j) <==>
      (0 <= c.0 < i && 0 <= c.1 < height) || (c.0 == i && 0 <= c.1 < j)
    decreases i, j
  {
    if j > 0 {
      VisitedMembers(height, i, j - 1);
    } else if i > 0 {
      VisitedMembers(height, i - 1, height);
    }
  }

  /** The loops visit cells in strictly ascending row-major order, so each at most once. */
  lemma {:induction false} VisitedAscending(height: nat, i: nat, j: nat)
    requires j <= height
    ensures Ascending(Visited(height, i, j))
    decreases i, j
  {
    if j > 0 {
      VisitedAscending(height, i, j - 1);
      VisitedMembers(height, i, j - 1);
      var v := Visited(height, i, j - 1);
      assert forall p :: 0 <= p < |v| ==> v[p] in v;
    } else if i > 0 {
      VisitedAscending(height, i - 1, height);
    }
  }

  /** The whole width-by-height grid, in the merge loop's order. */
  function AllCells(width: nat, height: nat): (cs: seq<Cell>)
    ensures forall c :: c in cs <==> 0 <= c.0 < width && 0 <= c.1 < height
    ensures Ascending(cs)
  {
    VisitedMembers(height, width, 0);
    VisitedAscending(height, width, 0);
    Visited(height, width, 0)
  }

  // ----- the whole merge -----

  /** Visiting the cells `cs` in order, each compared with the partner's byte in `theirs`. */
  function MergeAll(s: GridState, theirs: map<Cell, Byte>, cs: seq<Cell>, withBaseStation: bool): (r: GridState)
    requires forall c :: c in cs ==> c in s.cells && c in theirs
    ensures r.cells.Keys == s.cells.Keys
    decreases |cs|
  {
    if cs == [] then s
    else
      var last := cs[|cs| - 1];
      MergeStep(MergeAll(s, theirs, cs[..|cs| - 1], withBaseStation), theirs[last], last, withBaseStation)
  }

  /** The cells the merge reports as updated: those of `cs` whose masked bytes differ, in order. */
  function Reported(mine: map<Cell, Byte>, theirs: map<Cell, Byte>, cs: seq<Cell>): (r: seq<Cell>)
    requires forall c :: c in cs ==> c in mine && c in theirs
    ensures |r| <= |cs|
    ensures forall c :: c in r ==> c in cs
    decreases |cs|
  {
    if cs == [] then []
    else
      var last := cs[|cs| - 1];
      Reported(mine, theirs, cs[..|cs| - 1]) + if Differs(mine[last], theirs[last]) then [last] else []
  }

  /** A cell is reported exactly when it is visited and its masked bytes differ. */
  lemma {:induction false} ReportedMembers(mine: map<Cell, Byte>, theirs: map<Cell, Byte>, cs: seq<Cell>)
    requires forall c :: c in cs ==> c in mine && c in theirs
    ensures forall c :: c in Reported(mine, theirs, cs) <==> c in cs && Differs(mine[c], theirs[c])
    decreases |cs|
  {
    if cs != [] {
      var front := cs[..|cs| - 1];
      ReportedMembers(mine, theirs, front);
      assert cs == front + [cs[|cs| - 1]];
    }
  }

  /** The report keeps the visiting order, so a cell visited once is reported at most once. */
  lemma {:induction false} ReportedAscending(mine: map<Cell, Byte>, theirs: map<Cell, Byte>, cs: seq<Cell>)
    requires forall c :: c in cs ==> c in mine && c in theirs
    requires Ascending(cs)
    ensures Ascending(Reported(mine, theirs, cs))
    decreases |cs|
  {
    if cs != [] {
      var front := cs[..|cs| - 1];
      var last := cs[|cs| - 1];
      ReportedAscending(mine, theirs, front);
      ReportedMembers(mine, theirs, front);
      var r := Reported(mine, theirs, front);
      forall p | 0 <= p < |r|
        ensures Before(r[p], last)
      {
        assert r[p] in front;
      }
    }
  }

  /** After the merge, each reported cell holds the merged byte and every other cell is as it was. */
  lemma {:induction false} MergeAllCells(s: GridState, theirs: map<Cell, Byte>, cs: seq<Cell>, withBaseStation: bool)
    requires forall c :: c in cs ==> c in s.cells && c in theirs
    requires Ascending(cs)
    ensures forall c :: c in s.cells ==>
      (MergeAll(s, theirs, cs, withBaseStation).cells[c] ==
        if c in cs && Differs(s.cells[c], theirs[c]) then MergedByte(s.cells[c], theirs[c], withBaseStation)
        else s.cells[c])
    decreases |cs|
  {
    if cs != [] {
      var front := cs[..|cs| - 1];
      var last := cs[|cs| - 1];
      MergeAllCells(s, theirs, front, withBaseStation);
      forall p | 0 <= p < |front|
        ensures front[p] != last
      {
        assert Before(cs[p], cs[|cs| - 1]);
      }
      assert cs == front + [last];
      var before := MergeAll(s, theirs, front, withBaseStation);
      assert before.cells[last] == s.cells[last];
      var after := MergeStep(before, theirs[last], last, withBaseStation);
      assert after.cells == if Differs(s.cells[last], theirs[last])
        then before.cells[last := MergedByte(s.cells[last], theirs[last], withBaseStation)]
        else before.cells;
    }
  }

  /** Merging keeps the counters and the owned list in step with the flags. */
  lemma {:induction false} MergeAllKeepsInv(s: GridState, theirs: map<Cell, Byte>, cs: seq<Cell>, withBaseStation: bool)
    requires forall c :: c in cs ==> c in s.cells && c in theirs
    requires Inv(s)
    ensures Inv(MergeAll(s, theirs, cs, withBaseStation))
    decreases |cs|
  {
    if cs != [] {
      var front := cs[..|cs| - 1];
      var last := cs[|cs| - 1];
      MergeAllKeepsInv(s, theirs, front, withBaseStation);
      var m := MergeAll(s, theirs, front, withBaseStation);
      if Differs(m.cells[last], theirs[last]) {
        MergeAtKeepsInv(m, theirs[last], last, withBaseStation);
      }
    }
  }

  /** Merging a grid that already agrees everywhere, relay flags aside, changes nothing and
      reports nothing. */
  lemma {:induction false} MergeIdentical(s: GridState, theirs: map<Cell, Byte>, cs: seq<Cell>, withBaseStation: bool)
    requires forall c :: c in cs ==> c in s.cells && c in theirs
    requires forall c :: c in cs ==> NoRelay(s.cells[c]) == NoRelay(theirs[c])
    ensures MergeAll(s, theirs, cs, withBaseStation) == s
    ensures Reported(s.cells, theirs, cs) == []
    decreases |cs|
  {
    if cs != [] {
      MergeIdentical(s, theirs, cs[..|cs| - 1], withBaseStation);
    }
  }

  /** One more visited cell: the merge takes one more step and the report grows by that cell
      when it differs. */
  lemma MergeAllAppend(s: GridState, theirs: map<Cell, Byte>, cs: seq<Cell>, c: Cell, withBaseStation: bool)
    requires forall d :: d in cs ==> d in s.cells && d in theirs
    requires c in s.cells && c in theirs
    ensures MergeAll(s, theirs, cs + [c], withBaseStation) ==
      MergeStep(MergeAll(s, theirs, cs, withBaseStation), theirs[c], c, withBaseStation)
    ensures Reported(s.cells, theirs, cs + [c]) ==
      Reported(s.cells, theirs, cs) + if Differs(s.cells[c], theirs[c]) then [c] else []
  {
    assert (cs + [c])[..|cs|] == cs;
  }

  /** The cell the loops stand at has not been visited yet, so it still holds its old byte. */
  lemma MergeAllUnvisited(s: GridState, theirs: map<Cell, Byte>, height: nat, i: nat, j: nat, withBaseStation: bool)
    requires j <= height
    requires forall c :: c in Visited(height, i, j) ==> c in s.cells && c in theirs
    requires (i, j) in s.cells
    ensures MergeAll(s, theirs, Visited(height, i, j), withBaseStation).cells[(i, j)] == s.cells[(i, j)]
  {
    VisitedMembers(height, i, j);
    VisitedAscending(height, i, j);
    MergeAllCells(s, theirs, Visited(height, i, j), withBaseStation);
  }

  /** The loops of the merge, one position further: merging the unvisited cell (i, j) into the
      state after the visited cells, and reporting it when it differs, gives the state and the
      report after one more visited cell. */
  lemma VisitOne(s: GridState, theirs: map<Cell, Byte>, height: nat, i: nat, j: nat, withBaseStation: bool,
                 before: GridState, after: GridState, differs: bool, reported: seq<Cell>)
    requires j < height
    requires forall c :: c in Visited(height, i, j) ==> c in s.cells && c in theirs
    requires (i, j) in s.cells && (i, j) in theirs
    requires before == MergeAll(s, theirs, Visited(height, i, j), withBaseStation)
    requires reported == Reported(s.cells, theirs, Visited(height, i, j))
    requires differs == Differs(before.cells[(i, j)], theirs[(i, j)])
    requires after == MergeStep(before, theirs[(i, j)], (i, j), withBaseStation)
    ensures forall c :: c in Visited(height, i, j + 1) ==> c in s.cells && c in theirs
    ensures after == MergeAll(s, theirs, Visited(height, i, j + 1), withBaseStation)
    ensures (if differs then reported + [(i, j)] else reported) == Reported(s.cells, theirs, Visited(height, i, j + 1))
  {
    MergeAllUnvisited(s, theirs, height, i, j, withBaseStation);
    MergeAllAppend(s, theirs, Visited(height, i, j), (i, j), withBaseStation);
  }

  /** With the base station in range, every reported cell ends known at base; cells not reported
      end as they were. */
  lemma MergeReportedCells(s: GridState, theirs: map<Cell, Byte>, cs: seq<Cell>, withBaseStation: bool)
    requires forall c :: c in cs ==> c in s.cells && c in theirs
    requires Ascending(cs)
    ensures forall c :: c in s.cells && c in Reported(s.cells, theirs, cs) && withBaseStation ==>
      Has(MergeAll(s, theirs, cs, withBaseStation).cells[c], KnownAtBase)
    ensures forall c :: c in s.cells && c !in Reported(s.cells, theirs, cs) ==>
      MergeAll(s, theirs, cs, withBaseStation).cells[c] == s.cells[c]
  {
    MergeAllCells(s, theirs, cs, withBaseStation);
    ReportedMembers(s.cells, theirs, cs);
    forall c | c in Reported(s.cells, theirs, cs)
      ensures MergeAll(s, theirs, cs, withBaseStation).cells[c] == MergedByte(s.cells[c], theirs[c], withBaseStation)
    {
    }
    forall c | c in Reported(s.cells, theirs, cs) && withBaseStation
      ensures Has(MergeAll(s, theirs, cs, withBaseStation).cells[c], KnownAtBase)
    {
      MergedByteHas(s.cells[c], theirs[c], withBaseStation, KnownAtBase);
    }
  }

  // ----- the assertion after each cell -----

  /** The merge loop asserts that, after a cell is visited, its masked byte equals the partner's.
      That holds when the partner knew at least as much about the cell as this robot, its own
      flags are consistent (not free and an obstacle at once, safe only if free or an obstacle),
      it agrees on FinalTopologicalMap and the spare bits, and it already has KnownAtBase when the
      base station is in range. */
  lemma MergeMatchesBetterInformedPartner(mine: Byte, theirs: Byte, withBaseStation: bool)
    requires Has(mine, FreeSpace) ==> Has(theirs, FreeSpace)
    requires Has(mine, SafeSpace) ==> Has(theirs, SafeSpace)
    requires Has(mine, Obstacle) ==> Has(theirs, Obstacle)
    requires Has(mine, KnownAtBase) ==> Has(theirs, KnownAtBase)
    requires Has(mine, FinalTopologicalMap) <==> Has(theirs, FinalTopologicalMap)
    requires GetBit(mine, 6) == GetBit(theirs, 6) && GetBit(mine, 7) == GetBit(theirs, 7)
    requires !(Has(theirs, FreeSpace) && Has(theirs, Obstacle))
    requires Has(theirs, SafeSpace) ==> Has(theirs, FreeSpace) || Has(theirs, Obstacle)
    requires withBaseStation ==> Has(theirs, KnownAtBase)
    ensures NoRelay(MergedByte(mine, theirs, withBaseStation)) == NoRelay(theirs)
  {
    var r := MergedByte(mine, theirs, withBaseStation);
    MergedByteSpare(mine, theirs, withBaseStation);
    MergedByteHas(mine, theirs, withBaseStation, FreeSpace);
    MergedByteHas(mine, theirs, withBaseStation, SafeSpace);
    MergedByteHas(mine, theirs, withBaseStation, Obstacle);
    MergedByteHas(mine, theirs, withBaseStation, KnownAtBase);
    MergedByteHas(mine, theirs, withBaseStation, FinalTopologicalMap);
    SameNoRelay(r, theirs);
  }

  /** The assertion does not hold in general: a cell this robot saw as an obstacle, merged with a
      partner that saw it free, ends both free and an obstacle while the partner's byte is free
      only. */
  lemma MergeAssertionCanFail()
    ensures Differs(0x04, 0x01)
    ensures MergedByte(0x04, 0x01, false) == 0x05
    ensures NoRelay(MergedByte(0x04, 0x01, false)) != NoRelay(0x01)
  {
  }

  /** A blank cell takes the partner's relay flag only when it gains no other flag: a partner's
      free, relayed cell arrives free and not relayed. Since a partner byte holding GotRelayed
      alone does not differ from a blank byte once masked, the relay flag is copied only from a
      partner byte whose other flags are at most FinalTopologicalMap. */
  lemma RelayCopiedOnlyIntoBlankCell()
    ensures Differs(0x00, 0x11) && MergedByte(0x00, 0x11, false) == 0x01
    ensures !Differs(0x00, 0x10)
    ensures Differs(0x00, 0x30) && MergedByte(0x00, 0x30, false) == 0x10
  {
  }
}
