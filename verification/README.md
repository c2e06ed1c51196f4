# Occupancy grid of the MRESim multi-robot exploration simulator

This project models `OccupancyGrid`, the map each simulated robot keeps of the world, and proves
properties of it in Dafny.

The grid is a width-by-height array of flag bytes. Six bits of each byte carry the flags FreeSpace,
SafeSpace, Obstacle, KnownAtBase, GotRelayed and FinalTopologicalMap, in that order. Beside the array the
grid keeps four aggregates:
- the number of free cells;
- the number of free cells known at the base station;
- the number of free cells another robot relays and that are not known at base;
- the list of "owned" cells. These are the free cells neither known at base nor relayed, which this
  robot must deliver to base itself.

The model has four modules.
- `CellFlags` (`cell_flags.dfy`) holds the byte and its bits. It covers how one bit is read and written,
  and the signed-byte reading the grid's bit reader performs.
- `Bookkeeping` (`bookkeeping.dfy`) holds the grid's state as a value (`GridState`) and the class
  invariant `Inv`. Each counter is the size of the set of cells it shadows, and the owned list holds each
  free, not-known-at-base, not-relayed cell exactly once. There is one function per mutator, with lemmas
  proving that each one keeps `Inv`, and the lemmas for the bucket moves and the inverse pairs.
- `Merge` (`merge.dfy`) holds the merge of a partner robot's grid. It covers the byte one differing cell
  ends with, the row-major visiting order, the list of reported cells, and what the whole merge does
  to every cell.
- `OccupancyGrids` (`occupancy_grid.dfy`) holds the class `OccupancyGrid`. It has an `array2<bv8>`,
  three `int` counters and a `seq` owned list, and its methods update them in place.
  - Each flag setter is specified as `State() == Bookkeeping.X(old(State()), ...)`. Every one of them
    keeps `Valid()`, except `SetGotRelayedUpdating` called without the list update: that call leaves the
    cell in the owned list, and only `SetOwnedCellsRelayed` restores the invariant, by emptying the list.
  - `MergeGrid` is specified by `Merge.MergeAll` and `Merge.Reported`, and keeps `Valid()`.
  - `Copy` and `MergeGrid` are the nested loops of the source, with their invariants.
  - The neighbourhood queries are loops proved against the sets or predicates they scan for.

## Behaviour as written

The model follows the code. Where the code does less than its comments or its design suggest, these
points hold:
- `mergeGrid` copies the partner's GotRelayed flag only into a cell whose byte is still 0 after the
  FreeSpace, SafeSpace, Obstacle and KnownAtBase copies.
  - A partner cell that is free and relayed therefore arrives into a blank cell free and not relayed.
  - A partner byte holding only GotRelayed does not differ from a blank byte once masked, so it is
    never copied (`Merge.RelayCopiedOnlyIntoBlankCell`).
- The assertion after each merged cell (`OccupancyGrid.java:130`) does not hold in general. Take a cell
  this robot saw as an obstacle and the partner saw as free: it ends both free and an obstacle
  (`Merge.MergeAssertionCanFail`). It holds when the partner knows at least as much about the cell
  (`Merge.MergeMatchesBetterInformedPartner`).
- `setObstacleAt` clears FreeSpace but leaves SafeSpace set (`Bookkeeping.ObstacleKeepsSafeSpace`).
- `emptyAt` rejects only `x > width` and `y > height`. The column x = width and the row y = height
  therefore read as unexplored, so every free cell without an obstacle in the last column is a frontier cell
  (`OccupancyGrids.OccupancyGrid.EmptyPastLastColumn`, `OccupancyGrids.OccupancyGrid.LastColumnIsFrontier`).
- `setObstacleAt` and `setNoObstacleAt` catch the out-of-bounds exception before any bookkeeping runs.
  Outside the grid they are therefore modelled as doing nothing, not as a precondition.

## Model

| member | source | states |
|---|---|---|
| CellFlags.OrdinalInjective | src/environment/OccupancyGrid.java:43 | Each flag has its own bit: two flags share a bit exactly when they are the same flag. |
| CellFlags.GetBit | src/environment/OccupancyGrid.java:382-393 | Reads a bit of a byte as 0 or 1. This is the intended reading, used by the rest of the model. |
| CellFlags.GetBitIsShiftedDigit | src/environment/OccupancyGrid.java:382-393 | The intended reading returns the binary digit of the byte at that position, for every bit 0-7, bit 7 included. |
| CellFlags.GetBitAsWritten | src/environment/OccupancyGrid.java:382-393 | The source's reading: byte and mask are sign-extended to `int`, and the bit counts as set when the masked value is positive. The result is 0 or 1. |
| CellFlags.GetBitAsWrittenAgreesBelowBit7 | src/environment/OccupancyGrid.java:382-393 | For bits 0-6 the source's reading equals the plain one, so all six flags read correctly. |
| CellFlags.GetBitAsWrittenMissesBit7 | src/environment/OccupancyGrid.java:382-393 | The source's reading of bit 7 is 0 for every byte, although the byte 0x80 has bit 7 set. |
| CellFlags.SetBit | src/environment/OccupancyGrid.java:518-526 | Adding the mask to a clear bit and subtracting it from a set bit is or-ing the mask in for value 1 and and-ing it out for value 0. Any other value flips the bit. |
| CellFlags.OwnBitWritten | src/environment/OccupancyGrid.java:518-526 | After the write the bit holds the value. On a clear bit, the byte addition equals or-ing the mask; on a set bit, the subtraction equals and-ing it out. |
| CellFlags.OtherBitsUnchanged | src/environment/OccupancyGrid.java:518-526 | Setting or clearing one bit leaves every other bit as it was. |
| CellFlags.SetBitReadBack | src/environment/OccupancyGrid.java:518-526 | After a write, the written bit reads back as the value (flipped for a value other than 0 or 1), and every other bit reads as before. |
| CellFlags.FlagsAfterWrite | src/environment/OccupancyGrid.java:514-516 | Writing one flag by its ordinal changes that flag only, and leaves the two spare bits alone. |
| CellFlags.With | src/environment/OccupancyGrid.java:514-526 | The byte with one flag set has exactly the old flags plus that one and the same spare bits. It is the old byte if the flag was set. |
| CellFlags.Without | src/environment/OccupancyGrid.java:514-526 | The byte with one flag cleared has exactly the old flags minus that one and the same spare bits. It is the old byte if the flag was clear. |
| CellFlags.NoRelay | src/environment/OccupancyGrid.java:378-380 | Masking out GotRelayed clears that bit and keeps every other bit. |
| CellFlags.SameFlagsSameByte | src/environment/OccupancyGrid.java:43 | A byte is determined by its six flags and its two spare bits. |
| CellFlags.ZeroByte | src/environment/OccupancyGrid.java:118 | A byte is 0 exactly when it has no flag and no spare bit set. |
| CellFlags.SameNoRelay | src/environment/OccupancyGrid.java:106 | Two bytes that agree on every flag but GotRelayed, and on the spare bits, compare equal once masked. |
| Bookkeeping.RemoveFirst | src/environment/OccupancyGrid.java:301 | `LinkedList.remove`: for a cell in the list the result is the list minus one copy of that cell; without the cell the list is unchanged. |
| Bookkeeping.RemoveFirstElements | src/environment/OccupancyGrid.java:301 | On a duplicate-free list, removing a cell keeps the list duplicate-free and takes exactly that cell out of its elements. |
| Bookkeeping.AppendElements | src/environment/OccupancyGrid.java:284 | Appending a cell not in a duplicate-free list keeps it duplicate-free and adds exactly that cell. |
| Bookkeeping.ElementsCount | src/environment/OccupancyGrid.java:354-356 | A duplicate-free list has as many distinct cells as entries. |
| Bookkeeping.RemoveFirstAppended | src/environment/OccupancyGrid.java:284 | Removing a cell just appended to a list that lacked it gives back the list. |
| Bookkeeping.CellsInAfterWrite | src/environment/OccupancyGrid.java:52-57 | When one cell's byte changes, each shadowed set loses or gains that cell only, and its size moves by that cell's change of membership (+1, 0 or -1). |
| Bookkeeping.OwnedAfterWrite | src/environment/OccupancyGrid.java:55-57 | When one cell's byte changes, appending or removing that cell keeps the owned list duplicate-free and equal, as a set, to the free, not-known, not-relayed cells. |
| Bookkeeping.WriteKeepsInv | src/environment/OccupancyGrid.java:52-57 | If a one-cell write moves each counter by that cell's change of membership and updates the owned list accordingly, the invariant is kept. |
| Bookkeeping.Inv | src/environment/OccupancyGrid.java:52-57 | The class invariant. The free counter is the number of free cells. The known-at-base counter is the number of free cells known at base. The relayed counter is the number of free, relayed cells not known at base. The owned list holds each free, not-known, not-relayed cell exactly once. Its consequences are stated by `Bookkeeping.AggregatesPartition` and the `...KeepsInv` lemmas. |
| Bookkeeping.AggregatesPartition | src/environment/OccupancyGrid.java:52-57 | Under the invariant every free cell sits in exactly one bucket: free = known at base + relayed + length of the owned list. |
| Bookkeeping.SetFreeSpaceAt | src/environment/OccupancyGrid.java:274-289 | The cell gains FreeSpace, and no other byte or flag changes. |
| Bookkeeping.FreeCounts | src/environment/OccupancyGrid.java:275-286 | The counter and list half of setFreeSpaceAt leaves every byte as it is. Its effect on the counters and the list is stated by `Bookkeeping.SetFreeSpaceAtOnNewCell` and `Bookkeeping.SetFreeSpaceAtOnFreeCell`. |
| Bookkeeping.SetNoFreeSpaceAt | src/environment/OccupancyGrid.java:291-309 | The cell loses FreeSpace, and no other byte or flag changes. |
| Bookkeeping.NoFreeCounts | src/environment/OccupancyGrid.java:292-307 | The counter and list half of setNoFreeSpaceAt leaves every byte as it is. `Bookkeeping.SetNoFreeSpaceAtUndoesSetFreeSpaceAt` shows it undoes `Bookkeeping.FreeCounts`. |
| Bookkeeping.SetKnownAtBase | src/environment/OccupancyGrid.java:206-221 | KnownAtBase is always set on the cell, and nothing else in the grid changes. |
| Bookkeeping.KnownCounts | src/environment/OccupancyGrid.java:207-219 | The counter and list half of setKnownAtBase leaves every byte as it is. Its effect is stated by `Bookkeeping.SetKnownAtBaseMovesCell`. |
| Bookkeeping.SetGotRelayed | src/environment/OccupancyGrid.java:232-246 | GotRelayed is always set on the cell, and nothing else in the grid changes. |
| Bookkeeping.RelayCounts | src/environment/OccupancyGrid.java:236-244 | The counter and list half of setGotRelayed leaves every byte as it is. Its effect is stated by `Bookkeeping.SetGotRelayedMovesCell`. |
| Bookkeeping.SetGotUnrelayed | src/environment/OccupancyGrid.java:250-257 | GotRelayed is always cleared on the cell, and nothing else in the grid changes. |
| Bookkeeping.UnrelayCounts | src/environment/OccupancyGrid.java:251-254 | The counter and list half of setGotUnrelayed leaves every byte as it is. `Bookkeeping.SetGotUnrelayedUndoesSetGotRelayed` shows it undoes `Bookkeeping.RelayCounts`. |
| Bookkeeping.SetSafeSpaceAt | src/environment/OccupancyGrid.java:328-332 | The cell gains SafeSpace and FreeSpace. |
| Bookkeeping.SetObstacleAt | src/environment/OccupancyGrid.java:341-349 | An in-grid cell gains Obstacle and loses FreeSpace; outside the grid nothing changes. |
| Bookkeeping.SetNoObstacleAt | src/environment/OccupancyGrid.java:311-319 | An in-grid cell loses Obstacle and gains FreeSpace; outside the grid nothing changes. |
| Bookkeeping.BlankIsConsistent | src/environment/OccupancyGrid.java:59-72 | A new grid (all bytes 0, counters 0, empty list) satisfies the invariant. |
| Bookkeeping.NeutralFlagKeepsInv | src/environment/OccupancyGrid.java:194-200 | Writing SafeSpace, Obstacle or FinalTopologicalMap alone keeps the invariant. |
| Bookkeeping.SetFreeSpaceAtKeepsInv | src/environment/OccupancyGrid.java:274-289 | setFreeSpaceAt keeps the invariant. |
| Bookkeeping.SetNoFreeSpaceAtKeepsInv | src/environment/OccupancyGrid.java:291-309 | setNoFreeSpaceAt keeps the invariant. |
| Bookkeeping.SetKnownAtBaseKeepsInv | src/environment/OccupancyGrid.java:206-221 | setKnownAtBase keeps the invariant. |
| Bookkeeping.SetGotRelayedKeepsInv | src/environment/OccupancyGrid.java:232-246 | setGotRelayed with the list update keeps the invariant. |
| Bookkeeping.SetGotUnrelayedKeepsInv | src/environment/OccupancyGrid.java:250-257 | setGotUnrelayed keeps the invariant. |
| Bookkeeping.SetSafeSpaceAtKeepsInv | src/environment/OccupancyGrid.java:328-332 | setSafeSpaceAt keeps the invariant. |
| Bookkeeping.SetObstacleAtKeepsInv | src/environment/OccupancyGrid.java:341-349 | setObstacleAt keeps the invariant, inside and outside the grid. |
| Bookkeeping.SetNoObstacleAtKeepsInv | src/environment/OccupancyGrid.java:311-319 | setNoObstacleAt keeps the invariant, inside and outside the grid. |
| Bookkeeping.SetFreeSpaceAtOnFreeCell | src/environment/OccupancyGrid.java:274-289 | On an already free cell the whole state is unchanged. |
| Bookkeeping.SetFreeSpaceAtOnNewCell | src/environment/OccupancyGrid.java:274-289 | On a non-free cell the free count rises by one and exactly one bucket grows by one. That bucket is known at base if KnownAtBase is set, else relayed if GotRelayed is set, else the owned list, with the cell appended. |
| Bookkeeping.SetKnownAtBaseOnKnownCell | src/environment/OccupancyGrid.java:206-221 | On a cell already known at base the whole state is unchanged. |
| Bookkeeping.SetKnownAtBaseMovesCell | src/environment/OccupancyGrid.java:206-221 | A free, not-yet-known cell moves into the known-at-base count, out of the relayed count if relayed and off the owned list otherwise (which it was on). Any other cell leaves counters and list unchanged. |
| Bookkeeping.SetGotRelayedMovesCell | src/environment/OccupancyGrid.java:235-246 | A free, not-known, not-relayed cell raises the relayed count by one. With the update it leaves the owned list (one entry shorter); without it the list is unchanged. Any other cell leaves counters and list unchanged. |
| Bookkeeping.SetNoFreeSpaceAtMovesCell | src/environment/OccupancyGrid.java:291-309 | A free cell lowers the free count by one and leaves its bucket: the known-at-base count, else the relayed count, else the owned list, where it is listed (one entry shorter). So on a consistent grid the "not in the list" diagnostic never fires. A cell that is not free leaves counters and list unchanged. |
| Bookkeeping.SetGotUnrelayedMovesCell | src/environment/OccupancyGrid.java:250-257 | A relayed free cell not known at base lowers the relayed count by one and is appended to the owned list, where it was not listed. Any other cell leaves counters and list unchanged. |
| Bookkeeping.ObstacleKeepsSafeSpace | src/environment/OccupancyGrid.java:341-349 | A safe cell marked as an obstacle keeps SafeSpace, gains Obstacle and loses FreeSpace. |
| Bookkeeping.SetNoFreeSpaceAtUndoesSetFreeSpaceAt | src/environment/OccupancyGrid.java:274-309 | On a consistent grid, setNoFreeSpaceAt after setFreeSpaceAt on a non-free cell gives back the exact state: bytes, counters and list. |
| Bookkeeping.SetGotUnrelayedUndoesSetGotRelayed | src/environment/OccupancyGrid.java:235-257 | On a free, not-known, not-relayed cell, setGotUnrelayed after setGotRelayed restores the bytes and counters, and the owned list up to order (the cell is re-appended at the end). |
| Bookkeeping.SetGotUnrelayedKeepsRelayedNonNegative | src/environment/OccupancyGrid.java:255 | On a consistent grid the relayed count after setGotUnrelayed is non-negative, so the source's assertion holds. |
| Bookkeeping.RelayAll | src/environment/OccupancyGrid.java:362-363 | Relaying a list of cells without the list update keeps the set of cells, the free and known-at-base counters and the owned list. |
| Bookkeeping.RelayAllCells | src/environment/OccupancyGrid.java:362-363 | After relaying a list of cells, each listed cell has gained GotRelayed with no other bit changed, and every other cell is unchanged. |
| Bookkeeping.RelayAllAppend | src/environment/OccupancyGrid.java:362-363 | Relaying one more cell is one more `setGotRelayed(.., false)`. |
| Bookkeeping.RelayAllKeepsInv | src/environment/OccupancyGrid.java:361-372 | Relaying every owned cell, then emptying the list, restores the invariant. The relayed count rises by the list's length, every listed cell is relayed, and no relayed cell loses the flag. |
| Bookkeeping.SetOwnedCellsRelayed | src/environment/OccupancyGrid.java:361-372 | Each owned cell gains GotRelayed and every other cell is unchanged. The free and known-at-base counters are kept, and the owned list ends empty. |
| Bookkeeping.SetOwnedCellsRelayedKeepsInv | src/environment/OccupancyGrid.java:361-372 | setOwnedCellsRelayed keeps the invariant, raises the relayed count by the old list's length, leaves the list empty and marks every owned cell relayed. |
| Merge.CopyFree | src/environment/OccupancyGrid.java:107-108 | Copying FreeSpace adds FreeSpace when the partner has it and changes nothing else. |
| Merge.CopySafe | src/environment/OccupancyGrid.java:109-110 | Copying SafeSpace adds SafeSpace and FreeSpace when the partner has SafeSpace, and changes nothing else. |
| Merge.CopyObstacle | src/environment/OccupancyGrid.java:111-112 | Copying Obstacle, when the partner has it, adds Obstacle and removes FreeSpace; otherwise nothing changes. |
| Merge.CopyKnown | src/environment/OccupancyGrid.java:113-114 | Copying KnownAtBase adds it when the partner has it and changes nothing else. |
| Merge.CopiedHas | src/environment/OccupancyGrid.java:107-114 | After the four copies each flag is set exactly as the flag-by-flag rule of the four setters says. |
| Merge.CopiedSpare | src/environment/OccupancyGrid.java:107-114 | The four copies leave the spare bits alone. |
| Merge.CopiedIsZero | src/environment/OccupancyGrid.java:118 | After the copies the byte is 0 exactly when it was 0 and the partner has none of FreeSpace, SafeSpace, Obstacle and KnownAtBase. |
| Merge.MergedByte | src/environment/OccupancyGrid.java:107-127 | The byte a differing cell ends with: the four copies, then GotRelayed when the cell is still 0, then KnownAtBase with the base station. It has no contract of its own; `Merge.MergedByteHas` and `Merge.MergedByteSpare` state what it does to each bit. |
| Merge.MergedByteHas | src/environment/OccupancyGrid.java:107-127 | The merged byte has each flag exactly as the merge rule says: the copies, then GotRelayed when the cell is still 0, then KnownAtBase with the base station. |
| Merge.MergedByteSpare | src/environment/OccupancyGrid.java:107-127 | Merging leaves the spare bits of the cell alone. |
| Merge.MergeCopies | src/environment/OccupancyGrid.java:107-114 | The four conditional setters, applied in order, leave the cell with the copied byte and change no other cell. |
| Merge.MergeAt | src/environment/OccupancyGrid.java:107-127 | The setters for one differing cell leave it with the merged byte and change no other cell. |
| Merge.MergeAtKeepsInv | src/environment/OccupancyGrid.java:107-127 | Merging one cell with the setters keeps the invariant. |
| Merge.VisitedMembers | src/environment/OccupancyGrid.java:104-105 | The loops have visited exactly the earlier columns and the earlier rows of the current column. |
| Merge.VisitedAscending | src/environment/OccupancyGrid.java:104-105 | The visiting order is row-major ascending: by x, then by y. |
| Merge.AllCells | src/environment/OccupancyGrid.java:104-105 | The loops visit every in-grid cell, in ascending row-major order. |
| Merge.ReportedMembers | src/environment/OccupancyGrid.java:106-128 | A cell is reported exactly when it was visited and its masked byte differed from the partner's. |
| Merge.ReportedAscending | src/environment/OccupancyGrid.java:104-128 | The reported cells come in ascending row-major order, so none is reported twice. |
| Merge.MergeStep | src/environment/OccupancyGrid.java:106-128 | A cell whose masked byte differs from the partner's gets the merged byte and no other cell changes. A cell that does not differ leaves the whole state as it is. |
| Merge.MergeAll | src/environment/OccupancyGrid.java:104-128 | Merging a row-major prefix of cells keeps the set of cells. `Merge.MergeAllCells` states what it does to each cell. |
| Merge.Reported | src/environment/OccupancyGrid.java:104-128 | The report list is no longer than the visited prefix and holds only visited cells. `Merge.ReportedMembers` and `Merge.ReportedAscending` state which cells and in what order. |
| Merge.MergeAllCells | src/environment/OccupancyGrid.java:102-134 | After the merge every cell that differed holds the merged byte of its original byte and the partner's, and every other cell is unchanged. |
| Merge.MergeAllKeepsInv | src/environment/OccupancyGrid.java:102-134 | The whole merge keeps the invariant. |
| Merge.MergeIdentical | src/environment/OccupancyGrid.java:102-134 | Merging with a grid whose masked bytes agree changes nothing and reports no cell. |
| Merge.MergeAllAppend | src/environment/OccupancyGrid.java:104-128 | Visiting one more cell is one more merge step, and it reports that cell exactly when it differed. |
| Merge.VisitOne | src/environment/OccupancyGrid.java:105-128 | One iteration of the inner loop takes the merge state and the report list from the visited prefix to the prefix one cell longer. |
| Merge.MergeReportedCells | src/environment/OccupancyGrid.java:102-134 | With the base station in range every reported cell ends with KnownAtBase set; every unreported cell is unchanged. |
| Merge.MergeMatchesBetterInformedPartner | src/environment/OccupancyGrid.java:130 | The assertion after a merged cell holds when the partner's cell has every flag this robot's cell has, the same FinalTopologicalMap and spare bits, is not both free and an obstacle, has SafeSpace only with FreeSpace or Obstacle, and is known at base when the base station is in range. |
| Merge.MergeAssertionCanFail | src/environment/OccupancyGrid.java:130 | An obstacle cell merged with a partner's free cell becomes 0x05 (free and obstacle), which differs from the partner's 0x01: the assertion fails. |
| Merge.RelayCopiedOnlyIntoBlankCell | src/environment/OccupancyGrid.java:118-120 | A blank cell merged with a free, relayed partner cell (0x11) ends free and not relayed (0x01). A partner byte with GotRelayed alone (0x10) does not differ from a blank cell. A partner byte 0x30 gives 0x10. |
| OccupancyGrids.OccupancyGrid.constructor | src/environment/OccupancyGrid.java:59-72 | A new grid has the given dimensions, every byte 0, counters 0 and an empty owned list, and satisfies the invariant. |
| OccupancyGrids.OccupancyGrid.Copy | src/environment/OccupancyGrid.java:74-87 | The copy is a fresh grid with a fresh array, the same dimensions, bytes, counters and owned list; it is consistent when the original is. |
| OccupancyGrids.OccupancyGrid.CopyBytes | src/environment/OccupancyGrid.java:77-79 | The nested loops write every byte of this grid into the blank copy. |
| OccupancyGrids.OccupancyGrid.CopyColumn | src/environment/OccupancyGrid.java:78-79 | The inner loop extends the copied row-major prefix by one column. |
| OccupancyGrids.OccupancyGrid.LocationExists | src/environment/OccupancyGrid.java:406-408 | True exactly for the cells of the grid. |
| OccupancyGrids.OccupancyGrid.GetBitAt | src/environment/OccupancyGrid.java:382-393 | Total: the bit of the cell's byte inside the grid, 0 outside it. It uses the corrected reading `CellFlags.GetBit`, which differs from the source only at bit 7 (see Findings); for bits 0-6 `CellFlags.GetBitAsWrittenAgreesBelowBit7` shows the two agree. |
| OccupancyGrids.OccupancyGrid.GetByte | src/environment/OccupancyGrid.java:374-376 | The cell's byte. |
| OccupancyGrids.OccupancyGrid.GetByteNoRelay | src/environment/OccupancyGrid.java:378-380 | The cell's byte with GotRelayed clear and every other bit kept. |
| OccupancyGrids.OccupancyGrid.SetBitAt | src/environment/OccupancyGrid.java:518-526 | Writes one bit of one in-grid cell in place; every other cell is unchanged. |
| OccupancyGrids.OccupancyGrid.SetFlagBit | src/environment/OccupancyGrid.java:514-516 | Writes the bit of one flag; the counters and the owned list are unchanged. |
| OccupancyGrids.OccupancyGrid.SetByte | src/environment/OccupancyGrid.java:528-530 | Overwrites one in-grid cell's byte; every other cell is unchanged. |
| OccupancyGrids.OccupancyGrid.FreeSpaceAt | src/environment/OccupancyGrid.java:183-188 | True exactly for an in-grid cell with FreeSpace. |
| OccupancyGrids.OccupancyGrid.SafeSpaceAt | src/environment/OccupancyGrid.java:321-326 | True exactly for an in-grid cell with SafeSpace. |
| OccupancyGrids.OccupancyGrid.ObstacleAt | src/environment/OccupancyGrid.java:334-339 | True exactly for an in-grid cell with Obstacle. |
| OccupancyGrids.OccupancyGrid.IsKnownAtBase | src/environment/OccupancyGrid.java:202-204 | True exactly for an in-grid cell with KnownAtBase. |
| OccupancyGrids.OccupancyGrid.IsGotRelayed | src/environment/OccupancyGrid.java:223-228 | True exactly for an in-grid cell with GotRelayed. |
| OccupancyGrids.OccupancyGrid.IsFinalTopologicalMapCell | src/environment/OccupancyGrid.java:190-192 | True exactly for an in-grid cell with FinalTopologicalMap. |
| OccupancyGrids.OccupancyGrid.SetFreeSpaceAt | src/environment/OccupancyGrid.java:274-289 | The new state is `Bookkeeping.SetFreeSpaceAt` of the old one, and the invariant is kept. |
| OccupancyGrids.OccupancyGrid.SetNoFreeSpaceAt | src/environment/OccupancyGrid.java:291-309 | The new state is `Bookkeeping.SetNoFreeSpaceAt` of the old one, and the invariant is kept. |
| OccupancyGrids.OccupancyGrid.SetKnownAtBase | src/environment/OccupancyGrid.java:206-221 | The new state is `Bookkeeping.SetKnownAtBase` of the old one, and the invariant is kept. |
| OccupancyGrids.OccupancyGrid.SetGotRelayed | src/environment/OccupancyGrid.java:232-234 | The two-argument overload is the three-argument one with the list update, and keeps the invariant. |
| OccupancyGrids.OccupancyGrid.SetGotRelayedUpdating | src/environment/OccupancyGrid.java:235-246 | The new state is `Bookkeeping.SetGotRelayed` of the old one; with the list update the invariant is kept. |
| OccupancyGrids.OccupancyGrid.SetGotUnrelayed | src/environment/OccupancyGrid.java:250-257 | The new state is `Bookkeeping.SetGotUnrelayed` of the old one, the invariant is kept and the relayed count stays non-negative. |
| OccupancyGrids.OccupancyGrid.SetSafeSpaceAt | src/environment/OccupancyGrid.java:328-332 | The new state is `Bookkeeping.SetSafeSpaceAt` of the old one, and the invariant is kept. |
| OccupancyGrids.OccupancyGrid.SetObstacleAt | src/environment/OccupancyGrid.java:341-349 | The new state is `Bookkeeping.SetObstacleAt` of the old one (unchanged outside the grid), and the invariant is kept. |
| OccupancyGrids.OccupancyGrid.SetNoObstacleAt | src/environment/OccupancyGrid.java:311-319 | The new state is `Bookkeeping.SetNoObstacleAt` of the old one (unchanged outside the grid), and the invariant is kept. |
| OccupancyGrids.OccupancyGrid.SetFinalTopologicalMapCell | src/environment/OccupancyGrid.java:194-196 | Sets the FinalTopologicalMap bit only, and keeps the invariant. |
| OccupancyGrids.OccupancyGrid.UnsetFinalTopologicalMapCell | src/environment/OccupancyGrid.java:198-200 | Clears the FinalTopologicalMap bit only, and keeps the invariant. |
| OccupancyGrids.OccupancyGrid.GetOwnedCells | src/environment/OccupancyGrid.java:354-356 | On a consistent grid: exactly the free, not-known, not-relayed cells, each once. |
| OccupancyGrids.OccupancyGrid.GetNumFreeRelayedCells | src/environment/OccupancyGrid.java:259-262 | On a consistent grid: the number of free, relayed cells not known at base. |
| OccupancyGrids.OccupancyGrid.GetNumFreeCellsKnownAtBase | src/environment/OccupancyGrid.java:264-267 | On a consistent grid: the number of free cells known at base. |
| OccupancyGrids.OccupancyGrid.GetNumFreeCells | src/environment/OccupancyGrid.java:269-272 | On a consistent grid: the number of free cells. |
| OccupancyGrids.OccupancyGrid.ResetOwnedCells | src/environment/OccupancyGrid.java:370-372 | Empties the owned list and changes nothing else. |
| OccupancyGrids.OccupancyGrid.RelayCells | src/environment/OccupancyGrid.java:362-363 | The loop calls `setGotRelayed(.., false)` on each listed cell in order, which leaves the grid in the state `Bookkeeping.RelayAll` gives. |
| OccupancyGrids.OccupancyGrid.SetOwnedCellsRelayed | src/environment/OccupancyGrid.java:361-367 | The new state is `Bookkeeping.SetOwnedCellsRelayed` of the old one: every owned cell is relayed, the other cells are unchanged, and the list is emptied. It returns the old list's length. On a consistent grid the invariant is kept and the relayed count rises by that length. |
| OccupancyGrids.OccupancyGrid.MergeCell | src/environment/OccupancyGrid.java:107-127 | The setters for one differing cell leave this grid in the state `Merge.MergeAt` gives. |
| OccupancyGrids.OccupancyGrid.CopyFlags | src/environment/OccupancyGrid.java:107-114 | The four conditional setters leave this grid in the state `Merge.MergeCopies` gives. |
| OccupancyGrids.OccupancyGrid.MergeIfDiffers | src/environment/OccupancyGrid.java:106-128 | Reports whether the masked bytes differ, and merges the cell exactly then; the partner is not changed. |
| OccupancyGrids.OccupancyGrid.MergeColumn | src/environment/OccupancyGrid.java:105-131 | The inner loop extends the merged prefix and the report list by one column. |
| OccupancyGrids.OccupancyGrid.MergeGrid | src/environment/OccupancyGrid.java:102-134 | The new state is the row-major merge of every cell. The returned list is exactly the differing cells in row-major order. The invariant is kept, and the partner's cells are unchanged. |
| OccupancyGrids.OccupancyGrid.EmptyAt | src/environment/OccupancyGrid.java:173-181 | True exactly when 0 <= x <= width, 0 <= y <= height, and the position is either an unexplored cell or outside the grid. |
| OccupancyGrids.OccupancyGrid.FrontierBorderCellAt | src/environment/OccupancyGrid.java:152-162 | True exactly when some position of the 3-by-3 block around the cell is empty in the sense of emptyAt. |
| OccupancyGrids.OccupancyGrid.IsInOpenSpace | src/environment/OccupancyGrid.java:165-171 | True exactly when every position of the 3-by-3 block is a free cell. |
| OccupancyGrids.OccupancyGrid.FrontierCellAt | src/environment/OccupancyGrid.java:137-150 | True exactly for a free cell without an obstacle that is either not safe or next to an empty position. |
| OccupancyGrids.OccupancyGrid.EmptyPastLastColumn | src/environment/OccupancyGrid.java:173-181 | The position just past the last column is outside the grid yet reads as empty; the one just before the first column does not. |
| OccupancyGrids.OccupancyGrid.LastColumnIsFrontier | src/environment/OccupancyGrid.java:137-181 | Every free cell without an obstacle in the last column is a frontier cell, because of the `> width` bound. |
| OccupancyGrids.OccupancyGrid.OpenSpaceIsInterior | src/environment/OccupancyGrid.java:165-181 | A cell in open space lies at least one cell from every edge and has no empty neighbour, so a safe cell in open space is not a frontier cell. |
| OccupancyGrids.OccupancyGrid.EmptyCellsWithinHas | src/environment/OccupancyGrid.java:458-461 | One step of the scan passes one position, and the count grows by one exactly when the scan's test (an in-grid, unexplored cell of the square other than the centre) holds there. |
| OccupancyGrids.OccupancyGrid.SafeCellsWithinHas | src/environment/OccupancyGrid.java:469-472 | One step of the scan passes one position, and the count grows by one exactly when the scan's test (an in-grid, safe cell of the square other than the centre) holds there. |
| OccupancyGrids.OccupancyGrid.EmptyCellsWithinRow | src/environment/OccupancyGrid.java:456-457 | The unexplored cells the scan has passed at the end of one column of the square are those it has passed at the start of the next. |
| OccupancyGrids.OccupancyGrid.SafeCellsWithinRow | src/environment/OccupancyGrid.java:467-468 | The safe cells the scan has passed at the end of one column of the square are those it has passed at the start of the next. |
| OccupancyGrids.OccupancyGrid.GetEmptySpacesWithinSquare | src/environment/OccupancyGrid.java:454-463 | Returns the number of unexplored in-grid cells of the square around (x, y), the centre excluded. |
| OccupancyGrids.OccupancyGrid.CountEmptyInColumn | src/environment/OccupancyGrid.java:457-461 | The inner loop adds the unexplored cells of one column of the square to the count of the earlier columns. |
| OccupancyGrids.OccupancyGrid.GetSafeSpacesWithinSquare | src/environment/OccupancyGrid.java:465-474 | Returns the number of safe in-grid cells of the square around (x, y), the centre excluded. |
| OccupancyGrids.OccupancyGrid.CountSafeInColumn | src/environment/OccupancyGrid.java:468-472 | The inner loop adds the safe cells of one column of the square to the count of the earlier columns. |
| OccupancyGrids.OccupancyGrid.ObstacleWithinDistance | src/environment/OccupancyGrid.java:444-452 | True exactly when some in-grid obstacle lies within Euclidean distance minDistance of (x, y), also outside the scanned square; false for a negative distance. |
| OccupancyGrids.WithinRadius | src/environment/OccupancyGrid.java:444-452 | A position within the distance lies in the square the loops scan. |

## Left out

- Floating-point geometry is not modelled: `directLinePossible`, `isOnLine`, `distPointToLine`,
  `numObstaclesOnLine` and `numPossibleObstaclesOnLine` (`OccupancyGrid.java:414-512`). They rest on
  `Math.sqrt`, `Math.pow`, `Line2D.ptSegDist`, `atan2`, `cos` and `sin`.
- OccupancyGrids.OccupancyGrid.ObstacleWithinDistance: the source compares the `double` distance
  `Point.distance` with minDistance. The model uses the exact integer test dx² + dy² <= minDistance²,
  which agrees with it except for floating-point rounding.
- `equals` compares array references, and `toString` builds a string; neither is modelled. The
  `System.out.println` diagnostics are dropped; they do not change the state.
- The out-of-bounds exceptions of `setFreeSpaceAt`, `setNoFreeSpaceAt`, `setKnownAtBase`, the
  `setGotRelayed` overloads, `setGotUnrelayed`, `setSafeSpaceAt`, the FinalTopologicalMap setters and
  `setBit` are preconditions (the cell lies in the grid). Outside the grid `getBit` returns 0, so
  `setNoFreeSpaceAt`, `setKnownAtBase`, `setGotRelayed` and `setGotUnrelayed` change nothing before
  `setBit` throws, and `setSafeSpaceAt` throws at its first `setBit`. `setFreeSpaceAt` does: it raises the free count and appends the point to the owned
  list before `setBit` throws (`OccupancyGrid.java:276-289`). That corrupted state is not modelled.
- OccupancyGrids.OccupancyGrid.GetByte, OccupancyGrids.OccupancyGrid.GetByteNoRelay and
  OccupancyGrids.OccupancyGrid.SetByte require the cell to lie in the grid. The source indexes the array
  without a catch (`OccupancyGrid.java:374-380`, `528-530`) and throws outside it.
- OccupancyGrids.OccupancyGrid.constructor takes `nat` dimensions. A negative width or height makes the
  source throw `NegativeArraySizeException` (`OccupancyGrid.java:62`), which is not modelled.
- The Java `assert` statements at `OccupancyGrid.java:130` and `OccupancyGrid.java:255` throw only when
  the JVM runs with `-ea`. The model does not throw there; `Merge.MergeAssertionCanFail` and
  `Bookkeeping.SetGotUnrelayedKeepsRelayedNonNegative` state when each one holds.
- The loop indices of `obstacleWithinDistance`, `getEmptySpacesWithinSquare` and
  `getSafeSpacesWithinSquare` are `int`s (`OccupancyGrid.java:444-474`). `x + minDistance` near 2³¹
  would overflow and the loops would behave differently; the model's indices are unbounded.
- Bits 8 and above: `Math.pow(2, bit)` cast to `byte` is modelled as the exact mask for bits 0-7 only,
  the only bits a flag uses.
- The counters are unbounded integers; 32-bit overflow is not modelled (a grid has far fewer cells than
  2³¹).
- `getOwnedCells` returns the list object itself, so a caller could change it; the model returns the list
  as a value, and aliasing of the list is not modelled. `copy` clones the list, which the value copy matches.
- `width`, `height` and the array are fixed after construction, as in the source, where they are
  public but never reassigned.
- The constructor's zero-fill loops are replaced by the array initialiser, which fills every byte with 0.
- OccupancyGrids.OccupancyGrid.MergeCell and OccupancyGrids.OccupancyGrid.CopyFlags read the partner's
  flags once, before this grid's setters run. The source queries the partner between setters. When the
  partner is another grid it is not written, so the values are the same. When it is this grid no cell
  differs from itself, so no setter runs.
- OccupancyGrids.OccupancyGrid.MergeGrid requires the partner to be at least as large as this grid.
  The source indexes the partner's array with this grid's bounds and throws on a smaller partner; the
  half-merged state left by that exception is not modelled.
- The commented-out block at the end of the file (`OccupancyGrid.java:532-551`) is not code.
- `src/gui/LogDialog.java` is user interface and file-path handling, and is not part of this model.

## Findings

| source | as written | input that shows it | evidently intended | confidence | as-written member | corrected member |
|---|---|---|---|---|---|---|
| src/environment/OccupancyGrid.java:384 | `(grid[x][y] & (byte)(Math.pow(2,bit))) > 0` widens both operands to signed `int`. For bit 7 the mask is `(byte)128 = -128`, so a byte with bit 7 set masks to -128, which is not `> 0`. | a byte 0x80 and bit 7: getBit returns 0 although the bit is set | a test `!= 0`, which reads bit 7 as 1 | low; not executed. No observable effect: no flag uses bit 7 and no operation sets it, and `toString(x, y)` discards the bit string it builds (`OccupancyGrid.java:397` ignores the result of `concat`) | CellFlags.GetBitAsWritten, CellFlags.GetBitAsWrittenMissesBit7 | CellFlags.GetBit, CellFlags.GetBitIsShiftedDigit |
