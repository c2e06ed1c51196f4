/** The aggregates an occupancy grid keeps beside its flags: how many cells are free, how many
    free cells are known at the base station, how many free cells are being relayed by another
    robot (and are not known at base), and the list of the remaining free cells, which this robot
    "owns" (is responsible for delivering to base). Here the grid's state is a value; the grid
    class is specified by these functions. */
module Bookkeeping {
  import opened CellFlags

  /** A cell coordinate (x, y). */
  type Cell = (int, int)

  /** The flag byte of every in-bounds cell together with the three counters and the owned list. */
  datatype GridState = GridState(
    cells: map<Cell, Byte>,
    free: int,
    knownAtBase: int,
    relayed: int,
    owned: seq<Cell>)

  /** The four sets of cells the aggregates shadow. */
  datatype Tally = AllFree | FreeKnownAtBase | FreeRelayed | FreeOwned

  /** Whether a cell with byte `b` belongs to the set `t`. */
  predicate Counted(t: Tally, b: Byte)
  {
    match t
    case AllFree => Has(b, FreeSpace)
    case FreeKnownAtBase => Has(b, FreeSpace) && Has(b, KnownAtBase)
    case FreeRelayed => Has(b, FreeSpace) && !Has(b, KnownAtBase) && Has(b, GotRelayed)
    case FreeOwned => Has(b, FreeSpace) && !Has(b, KnownAtBase) && !Has(b, GotRelayed)
  }

  /** The cells of the grid that belong to the set `t`. */
  ghost function CellsIn(cells: map<Cell, Byte>, t: Tally): set<Cell>
  {
    set c | c in cells && Counted(t, cells[c])
  }

  /** How membership of `t` changes when a cell's byte goes from `b` to `b'`: +1, 0 or -1. */
  function Delta(t: Tally, b: Byte, b': Byte): int
  {
    (if Counted(t, b') then 1 else 0) - (if Counted(t, b) then 1 else 0)
  }

  function Elements(xs: seq<Cell>): set<Cell>
  {
    set c | c in xs
  }

  ghost predicate NoDuplicates(xs: seq<Cell>)
  {
    forall c :: multiset(xs)[c] <= 1
  }

  /** The class invariant: each counter is the size of the set it shadows, and the owned list
      holds exactly the free cells that are neither known at base nor relayed, each once. */
  ghost predicate Inv(s: GridState)
  {
    && s.free == |CellsIn(s.cells, AllFree)|
    && s.knownAtBase == |CellsIn(s.cells, FreeKnownAtBase)|
    && s.relayed == |CellsIn(s.cells, FreeRelayed)|
    && NoDuplicates(s.owned)
    && Elements(s.owned) == CellsIn(s.cells, FreeOwned)
  }

  // ----- list helpers -----

  /** `LinkedList.remove(Object)`: drops the first occurrence of `c`; a list without `c` is returned as it is. */
  function RemoveFirst(xs: seq<Cell>, c: Cell): (r: seq<Cell>)
    ensures c in xs ==> multiset(r) == multiset(xs) - multiset{c}
    ensures c !in xs ==> r == xs
  {
    if xs == [] then []
    else
      assert xs == [xs[0]] + xs[1..];
      if xs[0] == c then xs[1..]
      else [xs[0]] + RemoveFirst(xs[1..], c)
  }

  /** A list without duplicates has as many distinct elements as entries. */
  lemma {:induction false} ElementsCount(xs: seq<Cell>)
    requires NoDuplicates(xs)
    ensures |Elements(xs)| == |xs|
  {
    if xs != [] {
      var rest := xs[1..];
      assert xs == [xs[0]] + rest;
      assert multiset(xs) == multiset{xs[0]} + multiset(rest);
      assert NoDuplicates(rest) by {
        forall c ensures multiset(rest)[c] <= 1 {
          assert multiset(rest)[c] <= multiset(xs)[c];
        }
      }
      assert xs[0] !in rest by {
        assert multiset(xs)[xs[0]] == 1 + multiset(rest)[xs[0]];
      }
      assert Elements(xs) == {xs[0]} + Elements(rest);
      ElementsCount(rest);
    }
  }

  /** Removing an element of a duplicate-free list keeps it duplicate-free and drops just that element. */
  lemma RemoveFirstElements(xs: seq<Cell>, c: Cell)
    requires NoDuplicates(xs)
    ensures NoDuplicates(RemoveFirst(xs, c))
    ensures Elements(RemoveFirst(xs, c)) == Elements(xs) - {c}
  {
    var r := RemoveFirst(xs, c);
    if c in xs {
      forall d ensures multiset(r)[d] <= 1 {
        assert multiset(r)[d] <= multiset(xs)[d];
      }
      forall d ensures d in r <==> d in xs && d != c {
        assert d in r <==> multiset(r)[d] > 0;
        assert d in xs <==> multiset(xs)[d] > 0;
      }
    }
  }

  /** Appending a new element keeps a list duplicate-free and adds just that element. */
  lemma AppendElements(xs: seq<Cell>, c: Cell)
    requires NoDuplicates(xs) && c !in xs
    ensures NoDuplicates(xs + [c])
    ensures Elements(xs + [c]) == Elements(xs) + {c}
  {
    assert multiset(xs + [c]) == multiset(xs) + multiset{c};
  }

  /** Removing an element just appended gives the list back. */
  lemma {:induction false} RemoveFirstAppended(xs: seq<Cell>, c: Cell)
    requires c !in xs
    ensures RemoveFirst(xs + [c], c) == xs
  {
    if xs != [] {
      assert (xs + [c])[1..] == xs[1..] + [c];
      RemoveFirstAppended(xs[1..], c);
    }
  }

  // ----- counting -----

  /** Rewriting one cell's byte moves that cell, and only that cell, in or out of each set. */
  lemma CellsInAfterWrite(cells: map<Cell, Byte>, c: Cell, b: Byte, t: Tally)
    requires c in cells
    ensures CellsIn(cells[c := b], t) == CellsIn(cells, t) - {c} + (if Counted(t, b) then {c} else {})
    ensures |CellsIn(cells[c := b], t)| == |CellsIn(cells, t)| + Delta(t, cells[c], b)
  {
    var before, after := CellsIn(cells, t), CellsIn(cells[c := b], t);
    assert after == before - {c} + (if Counted(t, b) then {c} else {});
    assert c in before <==> Counted(t, cells[c]);
    SizeWithout(before, c);
  }

  /** Taking one element out of a set and putting it back. */
  lemma SizeWithout(s: set<Cell>, c: Cell)
    ensures |s| == |s - {c}| + (if c in s then 1 else 0)
  {
    if c in s {
      assert s == (s - {c}) + {c};
    } else {
      assert s - {c} == s;
    }
  }

  /** The owned list after one cell's byte changes from `b` to `b'`: the cell is appended when
      it becomes owned and removed when it stops being owned. */
  function OwnedAfter(owned: seq<Cell>, c: Cell, b: Byte, b': Byte): seq<Cell>
  {
    if Counted(FreeOwned, b) == Counted(FreeOwned, b') then owned
    else if Counted(FreeOwned, b') then owned + [c]
    else RemoveFirst(owned, c)
  }

  lemma OwnedAfterWrite(cells: map<Cell, Byte>, owned: seq<Cell>, c: Cell, b': Byte)
    requires c in cells
    requires NoDuplicates(owned) && Elements(owned) == CellsIn(cells, FreeOwned)
    ensures NoDuplicates(OwnedAfter(owned, c, cells[c], b'))
    ensures Elements(OwnedAfter(owned, c, cells[c], b')) == CellsIn(cells[c := b'], FreeOwned)
  {
    CellsInAfterWrite(cells, c, b', FreeOwned);
    if Counted(FreeOwned, cells[c]) != Counted(FreeOwned, b') {
      if Counted(FreeOwned, b') {
        assert c !in Elements(owned);
        AppendElements(owned, c);
      } else {
        RemoveFirstElements(owned, c);
      }
    }
  }

  /** The general bookkeeping step: when one cell's byte changes from `b` to `b'`, each counter
      moves by that cell's change of membership and the owned list follows `OwnedAfter`, the
      invariant is kept. */
  lemma WriteKeepsInv(s: GridState, c: Cell, b': Byte, r: GridState)
    requires Inv(s) && c in s.cells
    requires r.cells == s.cells[c := b']
    requires r.free == s.free + Delta(AllFree, s.cells[c], b')
    requires r.knownAtBase == s.knownAtBase + Delta(FreeKnownAtBase, s.cells[c], b')
    requires r.relayed == s.relayed + Delta(FreeRelayed, s.cells[c], b')
    requires r.owned == OwnedAfter(s.owned, c, s.cells[c], b')
    ensures Inv(r)
  {
    CellsInAfterWrite(s.cells, c, b', AllFree);
    CellsInAfterWrite(s.cells, c, b', FreeKnownAtBase);
    CellsInAfterWrite(s.cells, c, b', FreeRelayed);
    OwnedAfterWrite(s.cells, s.owned, c, b');
  }

  /** Every free cell is in exactly one of the three buckets, so the free counter is the sum of
      the known-at-base counter, the relayed counter and the length of the owned list. */
  lemma AggregatesPartition(s: GridState)
    requires Inv(s)
    ensures s.free == s.knownAtBase + s.relayed + |s.owned|
  {
    var k, r, o := CellsIn(s.cells, FreeKnownAtBase), CellsIn(s.cells, FreeRelayed), CellsIn(s.cells, FreeOwned);
    assert CellsIn(s.cells, AllFree) == k + r + o;
    assert k * r == {} && (k + r) * o == {};
    ElementsCount(s.owned);
  }

  // ----- the mutators -----

  /** Whether flag `f` is set at `c`; a cell outside the grid reads as all-clear. */
  predicate FlagAt(cells: map<Cell, Byte>, c: Cell, f: Flag)
  {
    c in cells && Has(cells[c], f)
  }

  /** Writes one flag bit of one cell and nothing else. */
  function SetFlag(s: GridState, c: Cell, f: Flag, value: int): GridState
    requires c in s.cells
  {
    s.(cells := s.cells[c := SetBit(s.cells[c], Ordinal(f), value)])
  }

  /** Marks a cell free. A cell that was not free is counted as free and is put in one bucket:
      known at base, else relayed, else appended to the owned list. */
  function SetFreeSpaceAt(s: GridState, c: Cell): (r: GridState)
    requires c in s.cells
    ensures r.cells == s.cells[c := With(s.cells[c], FreeSpace)]
  {
    SetFlag(FreeCounts(s, c), c, FreeSpace, 1)
  }

  /** The counters and owned list after SetFreeSpaceAt, before the flag is written. */
  function FreeCounts(s: GridState, c: Cell): (r: GridState)
    requires c in s.cells
    ensures r.cells == s.cells
  {
    var b := s.cells[c];
    if Has(b, FreeSpace) then s
    else if Has(b, KnownAtBase) then s.(free := s.free + 1, knownAtBase := s.knownAtBase + 1)
    else if Has(b, GotRelayed) then s.(free := s.free + 1, relayed := s.relayed + 1)
    else s.(free := s.free + 1, owned := s.owned + [c])
  }

  /** Marks a cell not free. A cell that was free stops being counted and leaves the bucket it
      was in: known at base, else relayed, else the owned list. */
  function SetNoFreeSpaceAt(s: GridState, c: Cell): (r: GridState)
    requires c in s.cells
    ensures r.cells == s.cells[c := Without(s.cells[c], FreeSpace)]
  {
    SetFlag(NoFreeCounts(s, c), c, FreeSpace, 0)
  }

  /** The counters and owned list after SetNoFreeSpaceAt, before the flag is written. */
  function NoFreeCounts(s: GridState, c: Cell): (r: GridState)
    requires c in s.cells
    ensures r.cells == s.cells
  {
    var b := s.cells[c];
    if !Has(b, FreeSpace) then s
    else if Has(b, KnownAtBase) then s.(free := s.free - 1, knownAtBase := s.knownAtBase - 1)
    else if Has(b, GotRelayed) then s.(free := s.free - 1, relayed := s.relayed - 1)
    else s.(free := s.free - 1, owned := RemoveFirst(s.owned, c))
  }

  /** Marks a cell known at base. A free cell not yet known at base moves into the known-at-base
      count, out of the relayed count if it was relayed and out of the owned list otherwise. */
  function SetKnownAtBase(s: GridState, c: Cell): (r: GridState)
    requires c in s.cells
    ensures r.cells == s.cells[c := With(s.cells[c], KnownAtBase)]
  {
    SetFlag(KnownCounts(s, c), c, KnownAtBase, 1)
  }

  /** The counters and owned list after SetKnownAtBase, before the flag is written. */
  function KnownCounts(s: GridState, c: Cell): (r: GridState)
    requires c in s.cells
    ensures r.cells == s.cells
  {
    var b := s.cells[c];
    if !Has(b, KnownAtBase) && Has(b, FreeSpace) then
      if Has(b, GotRelayed) then s.(knownAtBase := s.knownAtBase + 1, relayed := s.relayed - 1)
      else s.(knownAtBase := s.knownAtBase + 1, owned := RemoveFirst(s.owned, c))
    else s
  }

  /** Marks a cell relayed by another robot. A free cell neither known at base nor relayed joins
      the relayed count and, when `updateOwnedCellsList` holds, leaves the owned list. */
  function SetGotRelayed(s: GridState, c: Cell, updateOwnedCellsList: bool): (r: GridState)
    requires c in s.cells
    ensures r.cells == s.cells[c := With(s.cells[c], GotRelayed)]
  {
    SetFlag(RelayCounts(s, c, updateOwnedCellsList), c, GotRelayed, 1)
  }

  /** The counters and owned list after SetGotRelayed, before the flag is written. */
  function RelayCounts(s: GridState, c: Cell, updateOwnedCellsList: bool): (r: GridState)
    requires c in s.cells
    ensures r.cells == s.cells
  {
    var b := s.cells[c];
    if !Has(b, GotRelayed) && Has(b, FreeSpace) && !Has(b, KnownAtBase) then
      s.(relayed := s.relayed + 1, owned := if updateOwnedCellsList then RemoveFirst(s.owned, c) else s.owned)
    else s
  }


  /** Marks a cell no longer relayed. A relayed free cell not known at base leaves the relayed
      count and is appended to the owned list again. */
  function SetGotUnrelayed(s: GridState, c: Cell): (r: GridState)
    requires c in s.cells
    ensures r.cells == s.cells[c := Without(s.cells[c], GotRelayed)]
  {
    SetFlag(UnrelayCounts(s, c), c, GotRelayed, 0)
  }

  /** The counters and owned list after SetGotUnrelayed, before the flag is written. */
  function UnrelayCounts(s: GridState, c: Cell): (r: GridState)
    requires c in s.cells
    ensures r.cells == s.cells
  {
    var b := s.cells[c];
    if Has(b, GotRelayed) && Has(b, FreeSpace) && !Has(b, KnownAtBase) then
      s.(relayed := s.relayed - 1, owned := s.owned + [c])
    else s
  }

  /** Marks a cell safe, which also marks it free. */
  function SetSafeSpaceAt(s: GridState, c: Cell): (r: GridState)
    requires c in s.cells
    ensures r.cells == s.cells[c := With(With(s.cells[c], SafeSpace), FreeSpace)]
  {
    SetFreeSpaceAt(SetFlag(s, c, SafeSpace, 1), c)
  }

  /** Marks a cell as an obstacle, which also marks it not free. Outside the grid nothing changes. */
  function SetObstacleAt(s: GridState, c: Cell): (r: GridState)
    ensures c in s.cells ==> r.cells == s.cells[c := Without(With(s.cells[c], Obstacle), FreeSpace)]
    ensures c !in s.cells ==> r == s
  {
    if c in s.cells then SetNoFreeSpaceAt(SetFlag(s, c, Obstacle, 1), c) else s
  }

  /** Clears the obstacle flag of a cell, which also marks it free. Outside the grid nothing changes. */
  function SetNoObstacleAt(s: GridState, c: Cell): (r: GridState)
    ensures c in s.cells ==> r.cells == s.cells[c := With(Without(s.cells[c], Obstacle), FreeSpace)]
    ensures c !in s.cells ==> r == s
  {
    if c in s.cells then SetFreeSpaceAt(SetFlag(s, c, Obstacle, 0), c) else s
  }

  /** The positions of a width-by-height grid, column by column. */
  function Positions(width: nat, height: nat): (r: set<Cell>)
    ensures forall c :: c in r <==> 0 <= c.0 < width && 0 <= c.1 < height
  {
    if width == 0 then {} else Positions(width - 1, height) + Column(width - 1, height)
  }

  /** The positions of column x of a grid of the given height. */
  function Column(x: int, height: nat): (r: set<Cell>)
    ensures forall c :: c in r <==> c.0 == x && 0 <= c.1 < height
  {
    if height == 0 then {} else Column(x, height - 1) + {(x, height - 1)}
  }

  /** The blank grid: every byte 0, counters 0, no owned cells. */
  function Blank(width: nat, height: nat): GridState
  {
    GridState(map c | c in Positions(width, height) :: 0, 0, 0, 0, [])
  }

  // ----- the invariant under each mutator -----

  /** A blank grid satisfies the invariant: no cell is free, and the counters and the list are empty. */
  lemma BlankIsConsistent(width: nat, height: nat)
    ensures Inv(Blank(width, height))
  {
    var s := Blank(width, height);
    forall t ensures CellsIn(s.cells, t) == {} {
      assert !Has(0, FreeSpace);
    }
  }

  /** Writing SafeSpace, Obstacle or FinalTopologicalMap leaves every aggregate where it was. */
  lemma NeutralFlagKeepsInv(s: GridState, c: Cell, f: Flag, value: int)
    requires Inv(s) && c in s.cells
    requires f == SafeSpace || f == Obstacle || f == FinalTopologicalMap
    requires value == 0 || value == 1
    ensures Inv(SetFlag(s, c, f, value))
  {
    var b := s.cells[c];
    var b' := SetBit(b, Ordinal(f), value);
    FlagsAfterWrite(b, f, value);
    WriteKeepsInv(s, c, b', SetFlag(s, c, f, value));
  }

  lemma SetFreeSpaceAtKeepsInv(s: GridState, c: Cell)
    requires Inv(s) && c in s.cells
    ensures Inv(SetFreeSpaceAt(s, c))
  {
    WriteKeepsInv(s, c, With(s.cells[c], FreeSpace), SetFreeSpaceAt(s, c));
  }

  lemma SetNoFreeSpaceAtKeepsInv(s: GridState, c: Cell)
    requires Inv(s) && c in s.cells
    ensures Inv(SetNoFreeSpaceAt(s, c))
  {
    WriteKeepsInv(s, c, Without(s.cells[c], FreeSpace), SetNoFreeSpaceAt(s, c));
  }

  lemma SetKnownAtBaseKeepsInv(s: GridState, c: Cell)
    requires Inv(s) && c in s.cells
    ensures Inv(SetKnownAtBase(s, c))
  {
    WriteKeepsInv(s, c, With(s.cells[c], KnownAtBase), SetKnownAtBase(s, c));
  }

  lemma SetGotRelayedKeepsInv(s: GridState, c: Cell)
    requires Inv(s) && c in s.cells
    ensures Inv(SetGotRelayed(s, c, true))
  {
    WriteKeepsInv(s, c, With(s.cells[c], GotRelayed), SetGotRelayed(s, c, true));
  }

  lemma SetGotUnrelayedKeepsInv(s: GridState, c: Cell)
    requires Inv(s) && c in s.cells
    ensures Inv(SetGotUnrelayed(s, c))
  {
    WriteKeepsInv(s, c, Without(s.cells[c], GotRelayed), SetGotUnrelayed(s, c));
  }

  lemma SetSafeSpaceAtKeepsInv(s: GridState, c: Cell)
    requires Inv(s) && c in s.cells
    ensures Inv(SetSafeSpaceAt(s, c))
  {
    NeutralFlagKeepsInv(s, c, SafeSpace, 1);
    SetFreeSpaceAtKeepsInv(SetFlag(s, c, SafeSpace, 1), c);
  }

  lemma SetObstacleAtKeepsInv(s: GridState, c: Cell)
    requires Inv(s)
    ensures Inv(SetObstacleAt(s, c))
  {
    if c in s.cells {
      NeutralFlagKeepsInv(s, c, Obstacle, 1);
      SetNoFreeSpaceAtKeepsInv(SetFlag(s, c, Obstacle, 1), c);
    }
  }

  lemma SetNoObstacleAtKeepsInv(s: GridState, c: Cell)
    requires Inv(s)
    ensures Inv(SetNoObstacleAt(s, c))
  {
    if c in s.cells {
      NeutralFlagKeepsInv(s, c, Obstacle, 0);
      SetFreeSpaceAtKeepsInv(SetFlag(s, c, Obstacle, 0), c);
    }
  }

  /** Marking a free cell free again changes nothing: flags, counters and the owned list stay. */
  lemma SetFreeSpaceAtOnFreeCell(s: GridState, c: Cell)
    requires c in s.cells && Has(s.cells[c], FreeSpace)
    ensures SetFreeSpaceAt(s, c) == s
  {
    assert s.cells[c := s.cells[c]] == s.cells;
  }

  /** Marking a cell free that was not free counts it once as free and puts it in exactly one
      bucket: known at base if it is, else relayed if it is, else at the end of the owned list. */
  lemma SetFreeSpaceAtOnNewCell(s: GridState, c: Cell)
    requires c in s.cells && !Has(s.cells[c], FreeSpace)
    ensures SetFreeSpaceAt(s, c).free == s.free + 1
    ensures var r := SetFreeSpaceAt(s, c);
      && r.knownAtBase - s.knownAtBase >= 0 && r.relayed - s.relayed >= 0 && |r.owned| - |s.owned| >= 0
      && (r.knownAtBase - s.knownAtBase) + (r.relayed - s.relayed) + (|r.owned| - |s.owned|) == 1
    ensures Has(s.cells[c], KnownAtBase) ==> SetFreeSpaceAt(s, c).knownAtBase == s.knownAtBase + 1
    ensures !Has(s.cells[c], KnownAtBase) && Has(s.cells[c], GotRelayed) ==>
      SetFreeSpaceAt(s, c).relayed == s.relayed + 1
    ensures !Has(s.cells[c], KnownAtBase) && !Has(s.cells[c], GotRelayed) ==>
      SetFreeSpaceAt(s, c).owned == s.owned + [c]
  {
  }

  /** Marking a known cell known again changes nothing. */
  lemma SetKnownAtBaseOnKnownCell(s: GridState, c: Cell)
    requires c in s.cells && Has(s.cells[c], KnownAtBase)
    ensures SetKnownAtBase(s, c) == s
  {
    assert s.cells[c := s.cells[c]] == s.cells;
  }

  /** On a free cell not yet known at base, SetKnownAtBase moves the cell into the known-at-base
      count: out of the relayed count if it was relayed, off the owned list otherwise. On any other
      cell the counters and the owned list stay as they were. */
  lemma SetKnownAtBaseMovesCell(s: GridState, c: Cell)
    requires Inv(s) && c in s.cells
    ensures var b, r := s.cells[c], SetKnownAtBase(s, c);
      Has(b, FreeSpace) && !Has(b, KnownAtBase) ==>
        && r.free == s.free && r.knownAtBase == s.knownAtBase + 1
        && (Has(b, GotRelayed) ==> r.relayed == s.relayed - 1 && r.owned == s.owned)
        && (!Has(b, GotRelayed) ==>
              r.relayed == s.relayed && c in s.owned
              && Elements(r.owned) == Elements(s.owned) - {c} && |r.owned| == |s.owned| - 1)
    ensures var b, r := s.cells[c], SetKnownAtBase(s, c);
      !Has(b, FreeSpace) || Has(b, KnownAtBase) ==> r.(cells := s.cells) == s
  {
    var b := s.cells[c];
    if Has(b, FreeSpace) && !Has(b, KnownAtBase) && !Has(b, GotRelayed) {
      assert c in CellsIn(s.cells, FreeOwned);
      RemoveFirstElements(s.owned, c);
      ElementsCount(s.owned);
      ElementsCount(RemoveFirst(s.owned, c));
    }
  }

  /** On a free cell neither known at base nor relayed, SetGotRelayed raises the relayed count by
      one and, when asked to, takes the cell off the owned list; without the update the cell stays
      listed. On any other cell the counters and the owned list stay as they were. */
  lemma SetGotRelayedMovesCell(s: GridState, c: Cell, updateOwnedCellsList: bool)
    requires Inv(s) && c in s.cells
    ensures var b, r := s.cells[c], SetGotRelayed(s, c, updateOwnedCellsList);
      Has(b, FreeSpace) && !Has(b, KnownAtBase) && !Has(b, GotRelayed) ==>
        && r.free == s.free && r.knownAtBase == s.knownAtBase && r.relayed == s.relayed + 1
        && c in s.owned
        && (updateOwnedCellsList ==> Elements(r.owned) == Elements(s.owned) - {c} && |r.owned| == |s.owned| - 1)
        && (!updateOwnedCellsList ==> r.owned == s.owned)
    ensures var b, r := s.cells[c], SetGotRelayed(s, c, updateOwnedCellsList);
      !(Has(b, FreeSpace) && !Has(b, KnownAtBase) && !Has(b, GotRelayed)) ==> r.(cells := s.cells) == s
  {
    var b := s.cells[c];
    if Has(b, FreeSpace) && !Has(b, KnownAtBase) && !Has(b, GotRelayed) {
      assert c in CellsIn(s.cells, FreeOwned);
      RemoveFirstElements(s.owned, c);
      ElementsCount(s.owned);
      ElementsCount(RemoveFirst(s.owned, c));
    }
  }

  /** On a free cell, SetNoFreeSpaceAt lowers the free count by one and takes the cell out of its
      bucket: the known-at-base count, else the relayed count, else the owned list (where it is
      listed, so the removal never misses). On a cell that is not free nothing but the byte changes. */
  lemma SetNoFreeSpaceAtMovesCell(s: GridState, c: Cell)
    requires Inv(s) && c in s.cells
    ensures var b, r := s.cells[c], SetNoFreeSpaceAt(s, c);
      Has(b, FreeSpace) ==>
        && r.free == s.free - 1
        && (Has(b, KnownAtBase) ==>
              r.knownAtBase == s.knownAtBase - 1 && r.relayed == s.relayed && r.owned == s.owned)
        && (!Has(b, KnownAtBase) && Has(b, GotRelayed) ==>
              r.knownAtBase == s.knownAtBase && r.relayed == s.relayed - 1 && r.owned == s.owned)
        && (!Has(b, KnownAtBase) && !Has(b, GotRelayed) ==>
              r.knownAtBase == s.knownAtBase && r.relayed == s.relayed && c in s.owned
              && Elements(r.owned) == Elements(s.owned) - {c} && |r.owned| == |s.owned| - 1)
    ensures var b, r := s.cells[c], SetNoFreeSpaceAt(s, c);
      !Has(b, FreeSpace) ==> r.(cells := s.cells) == s
  {
    var b := s.cells[c];
    if Has(b, FreeSpace) && !Has(b, KnownAtBase) && !Has(b, GotRelayed) {
      assert c in CellsIn(s.cells, FreeOwned);
      RemoveFirstElements(s.owned, c);
      ElementsCount(s.owned);
      ElementsCount(RemoveFirst(s.owned, c));
    }
  }

  /** On a relayed free cell not known at base, SetGotUnrelayed lowers the relayed count by one and
      appends the cell to the owned list, where it was not listed before. On any other cell the
      counters and the owned list stay as they were. */
  lemma SetGotUnrelayedMovesCell(s: GridState, c: Cell)
    requires Inv(s) && c in s.cells
    ensures var b, r := s.cells[c], SetGotUnrelayed(s, c);
      Has(b, FreeSpace) && !Has(b, KnownAtBase) && Has(b, GotRelayed) ==>
        && r.free == s.free && r.knownAtBase == s.knownAtBase && r.relayed == s.relayed - 1
        && c !in s.owned && r.owned == s.owned + [c]
        && Elements(r.owned) == Elements(s.owned) + {c}
    ensures var b, r := s.cells[c], SetGotUnrelayed(s, c);
      !(Has(b, FreeSpace) && !Has(b, KnownAtBase) && Has(b, GotRelayed)) ==> r.(cells := s.cells) == s
  {
    var b := s.cells[c];
    if Has(b, FreeSpace) && !Has(b, KnownAtBase) && Has(b, GotRelayed) {
      assert c !in CellsIn(s.cells, FreeOwned);
      assert c !in Elements(s.owned);
      AppendElements(s.owned, c);
    }
  }

  /** Marking an obstacle clears FreeSpace but leaves SafeSpace as it was, so a safe cell that
      becomes an obstacle is safe and not free. */
  lemma ObstacleKeepsSafeSpace(s: GridState, c: Cell)
    requires c in s.cells && Has(s.cells[c], SafeSpace)
    ensures FlagAt(SetObstacleAt(s, c).cells, c, SafeSpace)
    ensures FlagAt(SetObstacleAt(s, c).cells, c, Obstacle)
    ensures !FlagAt(SetObstacleAt(s, c).cells, c, FreeSpace)
  {
  }

  /** On a cell that is not free, clearing FreeSpace undoes marking it free: flags, counters and
      the owned list are all as they were. */
  lemma {:induction false} SetNoFreeSpaceAtUndoesSetFreeSpaceAt(s: GridState, c: Cell)
    requires Inv(s) && c in s.cells && !Has(s.cells[c], FreeSpace)
    ensures SetNoFreeSpaceAt(SetFreeSpaceAt(s, c), c) == s
  {
    var b := s.cells[c];
    var b1 := With(b, FreeSpace);
    var s1 := SetFreeSpaceAt(s, c);
    assert s1.cells[c] == b1;
    assert Has(b1, KnownAtBase) == Has(b, KnownAtBase) && Has(b1, GotRelayed) == Has(b, GotRelayed);
    assert Without(b1, FreeSpace) == b by {
      OwnBitWritten(b, Ordinal(FreeSpace));
    }
    var r := SetNoFreeSpaceAt(s1, c);
    assert r.cells == s.cells by {
      assert s1.cells[c := b] == s.cells[c := b];
      assert s.cells[c := b] == s.cells;
    }
    if !Has(b, KnownAtBase) && !Has(b, GotRelayed) {
      assert c !in s.owned by {
        assert c !in CellsIn(s.cells, FreeOwned);
        assert c !in Elements(s.owned);
      }
      assert s1.owned == s.owned + [c];
      RemoveFirstAppended(s.owned, c);
    }
  }

  /** On a free cell that is neither known at base nor relayed, un-relaying undoes relaying:
      flags and counters are as they were, and the owned list holds the same cells (the cell
      moves to its end). */
  lemma SetGotUnrelayedUndoesSetGotRelayed(s: GridState, c: Cell)
    requires Inv(s) && c in s.cells
    requires Has(s.cells[c], FreeSpace) && !Has(s.cells[c], KnownAtBase) && !Has(s.cells[c], GotRelayed)
    ensures SetGotUnrelayed(SetGotRelayed(s, c, true), c).cells == s.cells
    ensures SetGotUnrelayed(SetGotRelayed(s, c, true), c).(owned := s.owned) == s
    ensures multiset(SetGotUnrelayed(SetGotRelayed(s, c, true), c).owned) == multiset(s.owned)
  {
    var b := s.cells[c];
    var b1 := With(b, GotRelayed);
    var s1 := SetGotRelayed(s, c, true);
    assert s1.cells[c] == b1;
    assert Has(b1, FreeSpace) && !Has(b1, KnownAtBase) && Has(b1, GotRelayed);
    assert s1.owned == RemoveFirst(s.owned, c) && s1.relayed == s.relayed + 1;
    assert Without(b1, GotRelayed) == b by {
      OwnBitWritten(b, Ordinal(GotRelayed));
    }
    var r := SetGotUnrelayed(s1, c);
    assert r.owned == s1.owned + [c] && r.relayed == s.relayed;
    assert r.cells == s.cells by {
      assert s1.cells[c := b] == s.cells[c := b];
      assert s.cells[c := b] == s.cells;
    }
    assert c in s.owned by {
      assert c in CellsIn(s.cells, FreeOwned);
      assert c in Elements(s.owned);
    }
    assert multiset(r.owned) == multiset(s1.owned) + multiset{c};
  }

  /** The relayed counter never goes negative when a cell is un-relayed. */
  lemma SetGotUnrelayedKeepsRelayedNonNegative(s: GridState, c: Cell)
    requires Inv(s) && c in s.cells
    ensures SetGotUnrelayed(s, c).relayed >= 0
  {
    SetGotUnrelayedKeepsInv(s, c);
  }

  // ----- handing the owned cells over -----

  /** Marks every cell of `ps`, in order, as relayed without touching the owned list. */
  function RelayAll(s: GridState, ps: seq<Cell>): (r: GridState)
    requires forall p :: p in ps ==> p in s.cells
    ensures r.cells.Keys == s.cells.Keys
    ensures r.free == s.free && r.knownAtBase == s.knownAtBase
    ensures r.owned == s.owned
    decreases |ps|
  {
    if ps == [] then s
    else RelayAll(SetGotRelayed(s, ps[0], false), ps[1..])
  }

  /** Relaying a list of cells sets GotRelayed on each listed cell and changes no other flag and
      no other cell. */
  lemma {:induction false} RelayAllCells(s: GridState, ps: seq<Cell>)
    requires forall p :: p in ps ==> p in s.cells
    ensures forall c :: c in s.cells ==>
      RelayAll(s, ps).cells[c] == if c in ps then With(s.cells[c], GotRelayed) else s.cells[c]
    decreases |ps|
  {
    if ps != [] {
      var s1 := SetGotRelayed(s, ps[0], false);
      RelayAllCells(s1, ps[1..]);
      assert forall q :: q in ps <==> q == ps[0] || q in ps[1..];
    }
  }

  /** Marks every owned cell as relayed, then empties the owned list. */
  function SetOwnedCellsRelayed(s: GridState): (r: GridState)
    requires forall p :: p in s.owned ==> p in s.cells
    ensures r.cells.Keys == s.cells.Keys
    ensures forall c :: c in s.cells ==>
      r.cells[c] == if c in s.owned then With(s.cells[c], GotRelayed) else s.cells[c]
    ensures r.free == s.free && r.knownAtBase == s.knownAtBase && r.owned == []
  {
    RelayAllCells(s, s.owned);
    RelayAll(s, s.owned).(owned := [])
  }

  /** Relaying the cells still to be handed over, while the owned list is left alone: reading the
      list of those cells as the owned list, the invariant holds throughout. Each step adds one to
      the relayed counter and sets the cell's GotRelayed flag, which no later step clears. */
  lemma {:induction false} RelayAllKeepsInv(s: GridState, ps: seq<Cell>)
    requires forall p :: p in ps ==> p in s.cells
    requires Inv(s.(owned := ps))
    ensures Inv(RelayAll(s, ps).(owned := []))
    ensures RelayAll(s, ps).relayed == s.relayed + |ps|
    ensures RelayAll(s, ps).owned == s.owned
    ensures forall p :: p in ps ==> FlagAt(RelayAll(s, ps).cells, p, GotRelayed)
    ensures forall p :: FlagAt(s.cells, p, GotRelayed) ==> FlagAt(RelayAll(s, ps).cells, p, GotRelayed)
    decreases |ps|
  {
    if ps != [] {
      var p := ps[0];
      var s1 := SetGotRelayed(s, p, false);
      assert p in CellsIn(s.cells, FreeOwned) by {
        assert p in Elements(ps);
      }
      assert RemoveFirst(ps, p) == ps[1..];
      assert s1.(owned := ps[1..]) == SetGotRelayed(s.(owned := ps), p, true);
      SetGotRelayedKeepsInv(s.(owned := ps), p);
      RelayAllKeepsInv(s1, ps[1..]);
      assert forall q :: q in ps ==> q == p || q in ps[1..];
    }
  }

  /** Relaying one more cell after a list is relaying the longer list. */
  lemma {:induction false} RelayAllAppend(s: GridState, ps: seq<Cell>, p: Cell)
    requires forall q :: q in ps ==> q in s.cells
    requires p in s.cells
    ensures RelayAll(s, ps + [p]) == SetGotRelayed(RelayAll(s, ps), p, false)
    decreases |ps|
  {
    if ps == [] {
      assert ps + [p] == [p];
      assert [p][1..] == [];
    } else {
      assert (ps + [p])[1..] == ps[1..] + [p];
      RelayAllAppend(SetGotRelayed(s, ps[0], false), ps[1..], p);
    }
  }

  /** Handing over the owned cells keeps the invariant: every formerly owned cell is now relayed,
      the relayed counter grows by the number of those cells, and the owned list is empty. */
  lemma SetOwnedCellsRelayedKeepsInv(s: GridState)
    requires Inv(s)
    requires forall p :: p in s.owned ==> p in s.cells
    ensures Inv(SetOwnedCellsRelayed(s))
    ensures SetOwnedCellsRelayed(s).relayed == s.relayed + |s.owned|
    ensures SetOwnedCellsRelayed(s).owned == []
    ensures forall p :: p in s.owned ==> FlagAt(SetOwnedCellsRelayed(s).cells, p, GotRelayed)
  {
    assert s.(owned := s.owned) == s;
    RelayAllKeepsInv(s, s.owned);
  }
}
