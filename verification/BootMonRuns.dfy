/** Whole operations and whole runs: what is read back after a flush, how a flush changes the
    layout of the volume, and when the next mount finds the files again. */
module BootMonRuns {
  import opened Bytes
  import opened Options
  import opened BootMonFormat
  import opened BootMonAllocator
  import opened BootMonFlush
  import opened BootMonMount
  import opened BootMonRegions
  import opened BootMonVolume

  // ---------- the description after a flush ----------

  /** A description that tells the truth about a file at its place. */
  predicate Consistent(t: Target, m: Mirror)
    requires t.blockSize >= DESCRIPTION_SIZE
  {
    && m.description.regionCount == 1 && Shaped(m.description)
    && StartOf(m.description, t.blockSize) == t.fileStart
    && m.description.blockEnd == m.description.blockStart + BlockSpan(m.description.regions[0].size, t.blockSize)
    && m.address == Place(m.description, t.blockSize)
    && WithFooterChecksum(m.description) == m.description
    && IsImageValid(m.description, m.description.blockEnd)
  }

  lemma {:induction false} RenewedIsConsistent(t: Target, m: Mirror, dataSize: nat)
    requires Usable(t, m) && Small(t, dataSize)
    ensures Consistent(t, Renewed(t, m, dataSize))
    ensures Renewed(t, m, dataSize).description.regions[0].size == dataSize
    ensures StringIn(Renewed(t, m, dataSize).description.filename) == t.name
  {
    hide FooterChecksum;
    RenewedPlace(t, m, dataSize);
    DescribeIsRecognised(m.description, t.name, dataSize, t.fileStart, t.blockSize, 0);
  }

  lemma {:induction false} RegionsKeepConsistent(t: Target, m: Mirror, pending: seq<Pending>, dataSize: nat)
    requires Usable(t, m) && Small(t, dataSize) && AllWithin(pending, dataSize)
    ensures FlushRegions(t, m, pending).mirror == m || Consistent(t, FlushRegions(t, m, pending).mirror)
    decreases |pending|
  {
    hide Renewed, Consistent;
    if pending != [] {
      var n := |pending| - 1;
      RegionsKeepConsistent(t, m, pending[..n], dataSize);
      RenewedIsConsistent(t, FlushRegions(t, m, pending[..n]).mirror, RegionEnd(pending[n]));
    }
  }

  /** The description of a file not written yet holds nothing, any other one tells the truth. */
  predicate IsTrue(t: Target, m: Mirror)
    requires Usable(t, m)
  {
    if m.description.regionCount == 0 then m == Mirror(NO_DESCRIPTION, 0) else Consistent(t, m)
  }

  /** What is known of a file that a flush is sure to describe: if it is new, it has a name. */
  predicate IsKnown(t: Target, m: Mirror)
    requires Usable(t, m)
  {
    IsTrue(t, m) && (m.description.regionCount == 0 ==> t.name != [])
  }

  /** However a flush ends, the description in memory is the old one or a true one. */
  lemma {:induction false} OutcomeIsTrue(status: Status, t: Target, fileSize: nat, before: Snapshot, after: Snapshot)
    requires Usable(t, before.mirror) && Small(t, fileSize) && AllWithin(before.pending, fileSize)
    requires Reflects(status, t, fileSize, before, after)
    ensures after.mirror == before.mirror || Consistent(t, after.mirror)
  {
    hide Renewed, FlushRegions, AfterAll, Consistent, RegionWrites;
    var o := FlushRegions(t, before.mirror, before.pending);
    RegionsKeepConsistent(t, before.mirror, before.pending, fileSize);
    RenewedIsConsistent(t, o.mirror, fileSize);
    if status == DeviceError && IsStopped(t, before, after) {
      var k: nat, done: nat :| IsStoppedAt(t, before, k, done, after);
      RegionsKeepConsistent(t, before.mirror, before.pending[..k], fileSize);
      RenewedIsConsistent(t, FlushRegions(t, before.mirror, before.pending[..k]).mirror, RegionEnd(before.pending[k]));
    }
  }

  /** A flush that goes through leaves a true description: name, size, place and checksum. */
  lemma {:induction false} FlushedIsConsistent(t: Target, m: Mirror, pending: seq<Pending>, fileSize: nat)
    requires Usable(t, m) && Small(t, fileSize) && AllWithin(pending, fileSize) && IsKnown(t, m)
    requires BootMonFlush.FlushFile(t, m, pending, fileSize).Done?
    ensures var r := BootMonFlush.FlushFile(t, m, pending, fileSize).mirror;
            Consistent(t, r) && r.description.regions[0].size == fileSize && StringIn(r.description.filename) == t.name
  {
    hide Renewed;
    RegionsKeepConsistent(t, m, pending, fileSize);
    var o := FlushRegions(t, m, pending);
    RenewedIsConsistent(t, o.mirror, fileSize);
    if o.mirror == m && m.description.regionCount == 0 {
      assert StringIn(NO_DESCRIPTION.filename) == [];
      assert IsOutdated(t, o.mirror, fileSize);
    }
  }

  // ---------- descriptions left behind ----------

  /** The size told by the description that is on the media before the final one is written:
      that of the last appending region, else the old one, if there is any. */
  function DescribedSize(t: Target, m: Mirror, pending: seq<Pending>): Option<nat> {
    if pending == [] then (if m.address != 0 && |m.description.regions| > 0 then Some(m.description.regions[0].size)
                           else None)
    else
      var r := pending[|pending| - 1];
      if IsAppend(t, r) then Some(RegionEnd(r)) else DescribedSize(t, m, pending[..|pending| - 1])
  }

  lemma {:induction false} RegionsDescribeSize(t: Target, m: Mirror, pending: seq<Pending>, dataSize: nat)
    requires Usable(t, m) && Small(t, dataSize) && AllWithin(pending, dataSize) && IsKnown(t, m)
    requires FlushRegions(t, m, pending).Done?
    ensures var r := FlushRegions(t, m, pending).mirror;
            match DescribedSize(t, m, pending)
            case None => r.address == 0
            case Some(size) => Consistent(t, r) && r.description.regions[0].size == size
    decreases |pending|
  {
    hide Renewed;
    if pending != [] {
      var n := |pending| - 1;
      RegionsDescribeSize(t, m, pending[..n], dataSize);
      RenewedIsConsistent(t, FlushRegions(t, m, pending[..n]).mirror, RegionEnd(pending[n]));
    }
  }

  lemma SameStart(t: Target, a: Mirror, b: Mirror)
    requires t.blockSize >= DESCRIPTION_SIZE && Consistent(t, a) && Consistent(t, b)
    ensures a.description.blockStart == b.description.blockStart
  {
    FactorsGrow(a.description.blockStart, b.description.blockStart, t.blockSize);
    FactorsGrow(b.description.blockStart, a.description.blockStart, t.blockSize);
  }

  lemma FactorsGrow(a: nat, b: nat, y: nat)
    requires y > 0
    ensures a < b ==> a * y < b * y
  {
    if a < b {
      ProductGrows(a + 1, b, y);
    }
  }

  /** The final size ends in the block of the description that the regions leave, if they leave one. */
  predicate EndsWhereDescribed(t: Target, m: Mirror, pending: seq<Pending>, fileSize: nat)
    requires t.blockSize > 0
  {
    DescribedSize(t, m, pending).Some? ==>
      BlockSpan(DescribedSize(t, m, pending).value, t.blockSize) == BlockSpan(fileSize, t.blockSize)
  }

  /** A flush leaves a description behind exactly if the file ends in another block than the
      description on the media before the final one: after a truncation into an earlier block,
      or after the size grew without data. */
  lemma {:induction false} LeavesBehindIffBlocksDiffer(t: Target, m: Mirror, pending: seq<Pending>, fileSize: nat)
    requires Usable(t, m) && Small(t, fileSize) && AllWithin(pending, fileSize) && IsKnown(t, m)
    requires BootMonFlush.FlushFile(t, m, pending, fileSize).Done?
    ensures LeavesBehind(t, m, pending, fileSize, FlushRegions(t, m, pending).mirror.description.blockEnd) <==>
            !EndsWhereDescribed(t, m, pending, fileSize)
  {
    RegionsDescribeSize(t, m, pending, fileSize);
    FlushedIsConsistent(t, m, pending, fileSize);
    if DescribedSize(t, m, pending).Some? {
      SameStart(t, FlushRegions(t, m, pending).mirror, BootMonFlush.FlushFile(t, m, pending, fileSize).mirror);
    }
  }

  // ---------- reading back ----------

  /** Read-after-write: a read that follows a flush returns every byte of the file as the old
      contents overlaid by what was written, later writes winning. */
  lemma {:induction false} ReadAfterWrite(t: Target, fileSize: nat, before: Snapshot, after: Snapshot,
                                          position: nat, length: nat, bytes: seq<Byte>, j: nat)
    requires j < |bytes| && t.fileStart + position + j < |before.media|
    requires Usable(t, before.mirror) && Small(t, fileSize) && AllWithin(before.pending, fileSize)
    requires IsKnown(t, before.mirror)
    requires LandingsCovered(t, before.mirror, before.pending, fileSize)
    requires Reflects(Success, t, fileSize, before, after)
    requires IsRead(Success, bytes, after.media, StartOf(after.mirror.description, t.blockSize), fileSize, position,
                    length)
    requires IsData(t, before.pending, t.fileStart + position + j)
    ensures bytes[j] == Overlay(before.pending, position + j, before.media[t.fileStart + position + j])
  {
    hide Consistent, IsKnown, LandingsCovered, IsData, BootMonFlush.FlushFile, After, Overlay;
    FlushedStart(t, before.mirror, before.pending, fileSize);
    FlushedByte(t, before.mirror, before.pending, fileSize, position + j, before.media[t.fileStart + position + j]);
  }

  /** A byte of a file after a flush. */
  lemma {:induction false} FlushedByte(t: Target, m: Mirror, pending: seq<Pending>, fileSize: nat, at: nat,
                                       before: Byte)
    requires Usable(t, m) && Small(t, fileSize) && BootMonFlush.FlushFile(t, m, pending, fileSize).Done?
    requires LandingsCovered(t, m, pending, fileSize) && at < fileSize && IsData(t, pending, t.fileStart + at)
    ensures After(BootMonFlush.FlushFile(t, m, pending, fileSize).writes, t.fileStart + at, before)
            == Overlay(pending, at, before)
  {
    hide LandingsCovered, IsData, BootMonFlush.FlushFile, After, Overlay;
    FlushOverlaysIffLandingsCovered(t, m, pending, fileSize);
    assert IsOverlaid(t, pending, BootMonFlush.FlushFile(t, m, pending, fileSize).writes, t.fileStart + at);
    OverlayIsData(t, pending, at, before);
  }

  lemma {:induction false} FlushedStart(t: Target, m: Mirror, pending: seq<Pending>, fileSize: nat)
    requires Usable(t, m) && Small(t, fileSize) && AllWithin(pending, fileSize) && IsKnown(t, m)
    requires BootMonFlush.FlushFile(t, m, pending, fileSize).Done?
    ensures StartOf(BootMonFlush.FlushFile(t, m, pending, fileSize).mirror.description, t.blockSize) == t.fileStart
  {
    FlushedIsConsistent(t, m, pending, fileSize);
  }

  /** A successful read returns the part of the blocks of the file that was asked for, whatever the
      media holds. */
  ghost predicate ReadsOwnBlocks(lowest: nat, d: Description, blockSize: nat, fileSize: nat, position: nat,
                                 length: nat, total: nat)
    requires position < fileSize && StartOf(d, blockSize) + fileSize <= total
  {
    forall media: Media, bytes: seq<Byte> ::
      |media| == total && IsRead(Success, bytes, media, ShiftedStart(lowest, d, blockSize), fileSize, position,
                                 length) ==>
        var from := StartOf(d, blockSize) + position;
        bytes == media[from..from + Min(length, fileSize - position)]
  }

  /** Reads count from the lowest aligned block and writes do not, so a read returns the bytes of the
      file for every content of the media exactly if that block is block zero. */
  lemma {:induction false} ReadsOwnBlocksIffUnshifted(lowest: nat, d: Description, blockSize: nat, fileSize: nat,
                                                      position: nat, length: nat, total: nat)
    requires blockSize > 0 && position < fileSize && length > 0
    requires ShiftedStart(lowest, d, blockSize) + fileSize <= total && StartOf(d, blockSize) + fileSize <= total
    ensures ReadsOwnBlocks(lowest, d, blockSize, fileSize, position, length, total) <==> lowest == 0
  {
    if lowest > 0 {
      var own, shifted := StartOf(d, blockSize) + position, ShiftedStart(lowest, d, blockSize) + position;
      ProductGrows(d.blockStart + 1, lowest + d.blockStart, blockSize);
      assert own < shifted;
      var media: Media := Zeros(total)[own := 1];
      var bytes := media[shifted..shifted + Min(length, fileSize - position)];
      assert IsRead(Success, bytes, media, ShiftedStart(lowest, d, blockSize), fileSize, position, length);
      assert bytes[0] != media[own..own + Min(length, fileSize - position)][0];
    }
  }

  // ---------- a flush as a change of the layout ----------

  /** The blocks that a file of some size takes. */
  function BlocksTaken(dataSize: nat, blockSize: nat): (length: nat)
    requires blockSize > 0
    ensures length > 0
  {
    BlockEndOf(BlockSpan(dataSize, blockSize), blockSize)
  }

  /** The list after a flush: the new description of file k, and the file where it was linked to. */
  function ListAfter(list: seq<Description>, k: nat, d: Description, fileSize: nat, blockSize: nat,
                     total: nat): seq<Description>
    requires k < |list|
  {
    Relinked(list[k := d], list, k, fileSize, blockSize, total)
  }

  lemma {:induction false} ConsistentExtent(t: Target, m: Mirror)
    requires t.blockSize >= DESCRIPTION_SIZE && Consistent(t, m)
    ensures ExtentOf(m.description, t.blockSize)
            == Some(Extent(t.fileStart, t.fileStart + BlocksTaken(m.description.regions[0].size, t.blockSize)))
  {
    var d := m.description;
    var span := BlockSpan(d.regions[0].size, t.blockSize);
    assert (d.blockStart + span + 1) * t.blockSize == d.blockStart * t.blockSize + (span + 1) * t.blockSize;
  }

  lemma {:induction false} ExtentsOfMoved(list: seq<Description>, i: nat, k: nat, blockSize: nat)
    requires i < |list| && k < |list| && i != k
    ensures Extents(MoveBefore(list, i, k), blockSize) == MoveBefore(Extents(list, blockSize), i, k)
  {
    forall a | 0 <= a < |list|
      ensures Extents(MoveBefore(list, i, k), blockSize)[a] == MoveBefore(Extents(list, blockSize), i, k)[a]
    {
      MovedAt(list, i, k, a);
      MovedAt(Extents(list, blockSize), i, k, a);
    }
  }

  lemma LengthIsEnough(dataSize: nat, blockSize: nat)
    requires blockSize >= DESCRIPTION_SIZE
    ensures dataSize + DESCRIPTION_SIZE < BlocksTaken(dataSize, blockSize)
  {
    SpanBounds(dataSize, blockSize);
  }

  /** The change of the layout that a flush makes of file k, from the description it leaves: a new file
      was written, or only moved, and any other one resized. */
  function ChangeBy(list: seq<Description>, k: nat, d: Description, fileSize: nat, blockSize: nat): Change
    requires k < |list| && |d.regions| > 0 && blockSize > 0
  {
    var length := BlocksTaken(d.regions[0].size, blockSize);
    if list[k].regionCount != 0 then Resize(k, length)
    else if d.regionCount != 0 then WriteNew(k, fileSize + DESCRIPTION_SIZE, length)
    else Relink(k, fileSize + DESCRIPTION_SIZE)
  }

  /** A flush with its place in the volume: file k of the list, its description and what is asked for. */
  predicate IsFlush(list: seq<Description>, k: nat, info: Info, blockSize: nat, total: nat, before: Snapshot)
  {
    && k < |list| && list[k] == before.mirror.description
    && blockSize > DESCRIPTION_SIZE && IsName(info.name) && Shaped(list[k])
    && TargetOf(list, k, info, blockSize, total).Some?
    && Small(TargetOf(list, k, info, blockSize, total).value, info.fileSize)
    && IsTrue(TargetOf(list, k, info, blockSize, total).value, before.mirror)
  }

  /** However it ends, a flush that found a place is a change of the layout: a new file that is
      written, or moved and not written, or a file that gets another length or keeps its own. */
  lemma {:induction false} FlushIsChange(list: seq<Description>, k: nat, info: Info, blockSize: nat, total: nat,
                                         status: Status, before: Snapshot, after: Snapshot)
    requires IsFlush(list, k, info, blockSize, total, before) && AllWithin(before.pending, info.fileSize)
    requires Reflects(status, TargetOf(list, k, info, blockSize, total).value, info.fileSize, before, after)
    ensures Shaped(after.mirror.description)
    ensures var change := ChangeBy(list, k, after.mirror.description, info.fileSize, blockSize);
            && Possible(Extents(list, blockSize), change, total)
            && Extents(ListAfter(list, k, after.mirror.description, info.fileSize, blockSize, total), blockSize)
               == Changed(Extents(list, blockSize), change, total)
  {
    hide Reflects, IsFlush, ListAfter, Possible, Changed, BlocksTaken;
    var t := FlushedExtent(list, k, info, blockSize, total, status, before, after);
    var d := after.mirror.description;
    var length := BlocksTaken(d.regions[0].size, blockSize);
    if list[k].regionCount != 0 {
      WrittenIsResized(list, k, d, info, blockSize, total, length);
    } else if d.regionCount != 0 {
      NewIsPlaced(list, k, d, info, blockSize, total, length);
    } else {
      NewIsMoved(list, k, info, blockSize, total);
    }
  }

  /** What a flush leaves of a file, as the layout sees it. */
  lemma {:induction false} FlushedExtent(list: seq<Description>, k: nat, info: Info, blockSize: nat, total: nat,
                                         status: Status, before: Snapshot, after: Snapshot) returns (t: Target)
    requires IsFlush(list, k, info, blockSize, total, before) && AllWithin(before.pending, info.fileSize)
    requires Reflects(status, TargetOf(list, k, info, blockSize, total).value, info.fileSize, before, after)
    ensures k < |list| && Shaped(list[k]) && blockSize > 0
    ensures TargetOf(list, k, info, blockSize, total) == Some(t) && Shaped(after.mirror.description)
    ensures var d := after.mirror.description;
            && (d.regionCount != 0 ==>
                  ExtentOf(d, blockSize)
                  == Some(Extent(t.fileStart, t.fileStart + BlocksTaken(d.regions[0].size, blockSize))))
            && (d.regionCount == 0 ==> d == list[k])
  {
    hide Reflects, Small, BlockSpan, StringIn, FooterChecksum, IsImageValid, Consistent, BlocksTaken, SpaceFor;
    t := TargetOf(list, k, info, blockSize, total).value;
    TargetIsNamed(list, k, info, blockSize, total);
    OutcomeIsTrue(status, t, info.fileSize, before, after);
    ConsistentHasRegion(t, after.mirror);
    if after.mirror.description.regionCount != 0 {
      ConsistentExtent(t, after.mirror);
    }
  }

  lemma {:induction false} WrittenIsResized(list: seq<Description>, k: nat, d: Description, info: Info,
                                            blockSize: nat, total: nat, length: nat)
    requires k < |list| && Shaped(list[k]) && list[k].regionCount != 0 && length > 0
    requires ExtentOf(d, blockSize) == Some(Extent(StartOf(list[k], blockSize), StartOf(list[k], blockSize) + length))
    ensures Possible(Extents(list, blockSize), Resize(k, length), total)
    ensures Extents(ListAfter(list, k, d, info.fileSize, blockSize, total), blockSize)
            == Changed(Extents(list, blockSize), Resize(k, length), total)
  {
    hide SpaceFor, FirstFit, StartOf, BlockEndOf;
    assert Extents(list[k := d], blockSize) == Extents(list, blockSize)[k := ExtentOf(d, blockSize)];
  }

  lemma {:induction false} NewIsPlaced(list: seq<Description>, k: nat, d: Description, info: Info, blockSize: nat,
                                       total: nat, length: nat)
    requires k < |list| && Shaped(list[k]) && list[k].regionCount == 0 && length > 0
    requires TargetOf(list, k, info, blockSize, total).Some?
    requires var start := TargetOf(list, k, info, blockSize, total).value.fileStart;
             ExtentOf(d, blockSize) == Some(Extent(start, start + length))
    ensures var change := WriteNew(k, info.fileSize + DESCRIPTION_SIZE, length);
            && Possible(Extents(list, blockSize), change, total)
            && Extents(ListAfter(list, k, d, info.fileSize, blockSize, total), blockSize)
               == Changed(Extents(list, blockSize), change, total)
  {
    hide FirstFit, StartOf, BlockEndOf, MoveBefore, LimitAfter;
    var space := SpaceFor(list, info.fileSize, blockSize, total);
    assert Extents(list[k := d], blockSize) == Extents(list, blockSize)[k := ExtentOf(d, blockSize)];
    if space.Before? {
      ExtentsOfMoved(list[k := d], k, space.index, blockSize);
    }
  }

  lemma {:induction false} NewIsMoved(list: seq<Description>, k: nat, info: Info, blockSize: nat, total: nat)
    requires k < |list| && Shaped(list[k]) && list[k].regionCount == 0
    requires TargetOf(list, k, info, blockSize, total).Some?
    ensures var change := Relink(k, info.fileSize + DESCRIPTION_SIZE);
            && Possible(Extents(list, blockSize), change, total)
            && Extents(ListAfter(list, k, list[k], info.fileSize, blockSize, total), blockSize)
               == Changed(Extents(list, blockSize), change, total)
  {
    hide FirstFit, StartOf, BlockEndOf, MoveBefore, LimitAfter;
    var space := SpaceFor(list, info.fileSize, blockSize, total);
    assert list[k := list[k]] == list;
    if space.Before? {
      ExtentsOfMoved(list, k, space.index, blockSize);
    }
  }

  lemma ConsistentHasRegion(t: Target, m: Mirror)
    requires t.blockSize >= DESCRIPTION_SIZE
    ensures Consistent(t, m) ==> m.description.regionCount == 1 && Shaped(m.description)
  {
  }

  /** However a flush ends, the layout holds afterwards exactly if its change is harmless. */
  lemma {:induction false} FlushKeepsLayout(list: seq<Description>, k: nat, info: Info, blockSize: nat, total: nat,
                                            status: Status, before: Snapshot, after: Snapshot)
    requires IsFlush(list, k, info, blockSize, total, before) && AllWithin(before.pending, info.fileSize)
    requires Reflects(status, TargetOf(list, k, info, blockSize, total).value, info.fileSize, before, after)
    requires total < UINT64_SPAN && Layout(Extents(list, blockSize), total)
    ensures Shaped(after.mirror.description)
    ensures var change := ChangeBy(list, k, after.mirror.description, info.fileSize, blockSize);
            && Possible(Extents(list, blockSize), change, total)
            && (Layout(Extents(ListAfter(list, k, after.mirror.description, info.fileSize, blockSize, total),
                               blockSize), total)
                <==> Harmless(Extents(list, blockSize), change, total))
  {
    hide Reflects, Layout, ChangeBy, ListAfter, Harmless, TargetOf, IsTrue, Small;
    FlushIsChange(list, k, info, blockSize, total, status, before, after);
    ChangeKeepsLayout(Extents(list, blockSize), ChangeBy(list, k, after.mirror.description, info.fileSize, blockSize),
                      total);
  }

  /** The first flush of a file stopped before its description was renewed: the layout is kept exactly
      if the space found was behind all files or at the start of the media. */
  lemma {:induction false} StoppedFirstFlush(list: seq<Description>, k: nat, info: Info, blockSize: nat, total: nat,
                                             status: Status, before: Snapshot, after: Snapshot)
    requires IsFlush(list, k, info, blockSize, total, before) && AllWithin(before.pending, info.fileSize)
    requires Reflects(status, TargetOf(list, k, info, blockSize, total).value, info.fileSize, before, after)
    requires total < UINT64_SPAN && Layout(Extents(list, blockSize), total)
    requires list[k].regionCount == 0 && after.mirror == before.mirror
    ensures Layout(Extents(ListAfter(list, k, after.mirror.description, info.fileSize, blockSize, total), blockSize),
                   total)
            <==> StaysInFront(SpaceFor(list, info.fileSize, blockSize, total))
  {
    hide Reflects, Layout, ListAfter, FirstFit;
    FlushKeepsLayout(list, k, info, blockSize, total, status, before, after);
  }

  // ---------- space that is not there ----------

  /** Any amount of data is accepted by the check for space. */
  ghost predicate AcceptsAnySize(t: Target, m: Mirror) {
    forall dataSize: nat :: dataSize < 0x1_0000_0000 ==> HasSpace(t, m, dataSize)
  }

  /** The check for space lets a file grow without end exactly if the next file of the list starts before it
      on the media, or is not on the media and counts as block zero: the distance to it wraps around. Both
      states come about: a first flush that stops has moved its file before writing it, and a file placed
      behind all others stays in front of them in the list. */
  lemma {:induction false} SpaceIsRunaway(list: seq<Description>, k: nat, info: Info, blockSize: nat, total: nat)
    requires k < |list| && list[k].regionCount != 0 && Shaped(list[k]) && blockSize > DESCRIPTION_SIZE
    requires total < 0x1_0000_0000 && AreApart(Extents(list, blockSize), total)
    requires forall i :: 0 <= i < |list| && list[i].regionCount == 0 ==> list[i] == NO_DESCRIPTION
    requires var t := TargetOf(list, k, info, blockSize, total).value;
             Consistent(t, Mirror(list[k], Place(list[k], blockSize)))
    ensures AcceptsAnySize(TargetOf(list, k, info, blockSize, total).value, Mirror(list[k], Place(list[k], blockSize)))
            <==> k + 1 < |list| && StartOf(list[k + 1], blockSize) < StartOf(list[k], blockSize)
  {
    hide Consistent, Place, AreApart, PhysicalSize, BlockEndOf;
    var t := TargetOf(list, k, info, blockSize, total).value;
    var m := Mirror(list[k], Place(list[k], blockSize));
    EndIsInMedia(list, k, blockSize, total);
    NextIsInMedia(list, k, blockSize, total);
    OwnBlocksFit(t, m, total);
    DistanceDecides(t, m, total);
  }

  /** The same for a new file that goes behind all others: any amount of data is accepted if the next file of
      the list starts before the place found, or is not on the media, and none at all on an empty volume with
      another new file next in the list. */
  lemma {:induction false} SpaceBehindAll(list: seq<Description>, k: nat, info: Info, blockSize: nat, total: nat)
    requires k < |list| && list[k] == NO_DESCRIPTION && blockSize > DESCRIPTION_SIZE
    requires total < 0x1_0000_0000 && AreApart(Extents(list, blockSize), total)
    requires forall i :: 0 <= i < |list| && list[i].regionCount == 0 ==> list[i] == NO_DESCRIPTION
    requires SpaceFor(list, info.fileSize, blockSize, total).AtEnd?
    requires SpaceFor(list, info.fileSize, blockSize, total).start < total
    ensures var t, m := TargetOf(list, k, info, blockSize, total).value, Mirror(NO_DESCRIPTION, 0);
            && (AcceptsAnySize(t, m) <==>
                  k + 1 < |list|
                  && StartOf(list[k + 1], blockSize) < SpaceFor(list, info.fileSize, blockSize, total).start)
            && ((forall dataSize: nat :: !HasSpace(t, m, dataSize)) <==>
                  var limit := LimitAfter(list, k, blockSize, total);
                  t.fileStart <= limit < t.fileStart + DESCRIPTION_SIZE)
  {
    hide FirstFit, AreApart;
    var t, m := TargetOf(list, k, info, blockSize, total).value, Mirror(NO_DESCRIPTION, 0);
    NextIsInMedia(list, k, blockSize, total);
    DistanceDecides(t, m, total);
    if t.limit < t.fileStart {
      assert HasSpace(t, m, 0);
    } else {
      assert Sub64(t.limit, t.fileStart) == t.limit - t.fileStart;
      assert HasSpace(t, m, 0) <==> t.limit >= t.fileStart + DESCRIPTION_SIZE;
    }
  }

  lemma NextIsInMedia(list: seq<Description>, k: nat, blockSize: nat, total: nat)
    requires k < |list| && AreApart(Extents(list, blockSize), total)
    requires forall i :: 0 <= i < |list| && list[i].regionCount == 0 ==> list[i] == NO_DESCRIPTION
    ensures LimitAfter(list, k, blockSize, total) <= total
  {
    var files := Extents(list, blockSize);
    if k + 1 < |list| && list[k + 1].regionCount != 0 {
      assert files[k + 1].value.from < files[k + 1].value.to <= total;
    }
  }

  lemma EndIsInMedia(list: seq<Description>, k: nat, blockSize: nat, total: nat)
    requires k < |list| && list[k].regionCount != 0 && AreApart(Extents(list, blockSize), total)
    ensures StartOf(list[k], blockSize) < BlockEndOf(list[k].blockEnd, blockSize) <= total
  {
    var files := Extents(list, blockSize);
    assert files[k].value.from < files[k].value.to <= total;
  }

  lemma DistanceDecides(t: Target, m: Mirror, total: nat)
    requires total < 0x1_0000_0000 && t.fileStart < total && PhysicalSize(m.description, t.blockSize) <= total
    requires t.limit <= total
    ensures AcceptsAnySize(t, m) <==> t.limit < t.fileStart
  {
    if t.limit < t.fileStart {
      assert Sub64(t.limit, t.fileStart) == 0x1_0000_0000_0000_0000 + t.limit - t.fileStart;
    } else {
      assert Sub64(t.limit, t.fileStart) == t.limit - t.fileStart;
      assert !HasSpace(t, m, 0xFFFF_FFFF);
    }
  }

  lemma OwnBlocksFit(t: Target, m: Mirror, total: nat)
    requires t.blockSize > DESCRIPTION_SIZE && Consistent(t, m)
    requires BlockEndOf(m.description.blockEnd, t.blockSize) <= total < 0x1_0000_0000
    ensures PhysicalSize(m.description, t.blockSize) <= total
  {
    hide FooterChecksum, IsImageValid;
    var d := m.description;
    var blocks := BlockSpan(d.regions[0].size, t.blockSize) + 1;
    ProductGrows(blocks, d.blockEnd + 1, t.blockSize);
    SmallQuotient(d.blockEnd + 1, t.blockSize, total);
  }

  /** The check for space counts bytes, but one block more is taken when the data and the
      description together are an exact multiple of the block size. */
  lemma {:induction false} SpaceSufficesIffNotExact(dataSize: nat, blocks: nat, blockSize: nat)
    requires blockSize >= DESCRIPTION_SIZE && dataSize + DESCRIPTION_SIZE <= blocks * blockSize
    ensures BlocksTaken(dataSize, blockSize) <= blocks * blockSize
            <==> dataSize + DESCRIPTION_SIZE != blocks * blockSize
  {
    SpanBounds(dataSize, blockSize);
    var span := BlockSpan(dataSize, blockSize);
    if span + 1 <= blocks {
      ProductGrows(span + 1, blocks, blockSize);
    } else {
      ProductGrows(blocks + 1, span + 1, blockSize);
      ProductGrows(blocks, span, blockSize);
      assert (span + 1) * blockSize == span * blockSize + blockSize;
    }
  }

  lemma OthersAreBehind(list: seq<Description>, blockSize: nat, k: nat, total: nat)
    requires k < |list| && list[k].regionCount != 0 && InDiskOrder(Extents(list, blockSize), total)
    ensures (list[k].blockEnd + 1) * blockSize <= total
    ensures forall i :: k < i < |list| && list[i].regionCount != 0 ==>
              (list[k].blockEnd + 1) * blockSize <= StartOf(list[i], blockSize)
  {
    var files := Extents(list, blockSize);
    assert forall i :: k < i < |list| && list[i].regionCount != 0 ==> files[k].value.to <= files[i].value.from;
  }

  /** The space found starts at a block boundary and is large enough up to where it ends. */
  lemma {:induction false} SpaceFits(list: seq<Description>, blockSize: nat, k: nat, blocks: nat, size: nat, total: nat)
      returns (startBlock: nat)
    requires k <= |list| && blockSize > 0 && size > 0 && total < UINT64_SPAN
    requires InDiskOrder(Extents(list, blockSize), total) && blocks * blockSize <= total
    requires forall i :: k <= i < |list| && list[i].regionCount != 0 ==>
             blocks * blockSize <= StartOf(list[i], blockSize)
    requires !FirstFit(Extents(list, blockSize), k, blocks * blockSize, size, total).VolumeFull?
    ensures var space := FirstFit(Extents(list, blockSize), k, blocks * blockSize, size, total);
            && space.start == startBlock * blockSize
            && space.start + size <= EndOf(Extents(list, blockSize), space, total)
    decreases |list| - k
  {
    var files := Extents(list, blockSize);
    if k < |list| && files[k].None? {
      startBlock := SpaceFits(list, blockSize, k + 1, blocks, size, total);
    } else if k < |list| && Sub64(files[k].value.from, blocks * blockSize) < size {
      OthersAreBehind(list, blockSize, k, total);
      startBlock := SpaceFits(list, blockSize, k + 1, list[k].blockEnd + 1, size, total);
    } else {
      startBlock := blocks;
    }
  }

  function RoomFor(list: seq<Description>, fileSize: nat, blockSize: nat, total: nat): nat
    requires !SpaceFor(list, fileSize, blockSize, total).VolumeFull?
  {
    var space := SpaceFor(list, fileSize, blockSize, total);
    var end := EndOf(Extents(list, blockSize), space, total);
    if end < space.start then 0 else end - space.start
  }

  lemma TargetIsNamed(list: seq<Description>, k: nat, info: Info, blockSize: nat, total: nat)
    requires k < |list| && Shaped(list[k])
    ensures var t := TargetOf(list, k, info, blockSize, total);
            t.Some? ==> t.value.name == info.name && t.value.blockSize == blockSize
  {
    hide SpaceFor;
  }

  lemma WholeFlush(t: Target, fileSize: nat, before: Snapshot, after: Snapshot)
    requires Usable(t, before.mirror) && Small(t, fileSize) && AllWithin(before.pending, fileSize)
    requires IsKnown(t, before.mirror)
    requires Reflects(Success, t, fileSize, before, after)
    ensures Consistent(t, after.mirror) && after.mirror.description.regions[0].size == fileSize
  {
    FlushedIsConsistent(t, before.mirror, before.pending, fileSize);
  }

  /** The first flush of a file keeps the files in disk order and apart exactly if the file went
      in front of another or was last in the list, and does not fill its space to the byte. */
  lemma {:induction false} FirstFlushKeepsLayout(list: seq<Description>, k: nat, info: Info, blockSize: nat,
                                                 blocks: nat, before: Snapshot, after: Snapshot)
    requires k < |list| && list[k] == NO_DESCRIPTION && before.mirror == Mirror(NO_DESCRIPTION, 0)
    requires blockSize > DESCRIPTION_SIZE && IsName(info.name) && info.name != []
    requires AllWithin(before.pending, info.fileSize)
    requires blocks * blockSize < UINT64_SPAN && Layout(Extents(list, blockSize), blocks * blockSize)
    requires TargetOf(list, k, info, blockSize, blocks * blockSize).Some?
    requires var t := TargetOf(list, k, info, blockSize, blocks * blockSize).value;
             Small(t, info.fileSize) && Reflects(Success, t, info.fileSize, before, after)
    ensures Layout(Extents(ListAfter(list, k, after.mirror.description, info.fileSize, blockSize, blocks * blockSize),
                           blockSize), blocks * blockSize) <==>
            && (SpaceFor(list, info.fileSize, blockSize, blocks * blockSize).Before? || k == |list| - 1)
            && info.fileSize + DESCRIPTION_SIZE != RoomFor(list, info.fileSize, blockSize, blocks * blockSize)
  {
    hide Small, Reflects, Layout, FirstFit, TargetOf, BlocksTaken, Consistent;
    var total := blocks * blockSize;
    var t := TargetOf(list, k, info, blockSize, total).value;
    TargetIsNamed(list, k, info, blockSize, total);
    WholeFlush(t, info.fileSize, before, after);
    FlushKeepsLayout(list, k, info, blockSize, total, Success, before, after);
    ConsistentHasRegion(t, after.mirror);
    NewFileFits(list, info.fileSize, blockSize, blocks);
  }

  lemma {:induction false} NewFileFits(list: seq<Description>, fileSize: nat, blockSize: nat, blocks: nat)
    requires blockSize > DESCRIPTION_SIZE
    requires blocks * blockSize < UINT64_SPAN && Layout(Extents(list, blockSize), blocks * blockSize)
    requires !SpaceFor(list, fileSize, blockSize, blocks * blockSize).VolumeFull?
    ensures var space := SpaceFor(list, fileSize, blockSize, blocks * blockSize);
            space.start + BlocksTaken(fileSize, blockSize) <= EndOf(Extents(list, blockSize), space, blocks * blockSize)
            <==> fileSize + DESCRIPTION_SIZE != RoomFor(list, fileSize, blockSize, blocks * blockSize)
  {
    var total := blocks * blockSize;
    var space := SpaceFor(list, fileSize, blockSize, total);
    hide FirstFit, BlocksTaken, InDiskOrder, NewFilesFirst, EndOf;
    var startBlock := SpaceFits(list, blockSize, 0, 0, fileSize + DESCRIPTION_SIZE, total);
    var endBlock := if space.Before? then list[space.index].blockStart else blocks;
    SpaceEnd(list, space, blockSize, total);
    RoomInBlocks(fileSize, startBlock, endBlock, blockSize);
  }

  lemma SpaceEnd(list: seq<Description>, space: Space, blockSize: nat, total: nat)
    requires space.Before? ==> space.index < |list| && list[space.index].regionCount != 0
    requires !space.VolumeFull?
    ensures EndOf(Extents(list, blockSize), space, total) ==
            if space.Before? then list[space.index].blockStart * blockSize else total
  {
  }

  lemma {:induction false} RoomInBlocks(dataSize: nat, startBlock: nat, endBlock: nat, blockSize: nat)
    requires blockSize >= DESCRIPTION_SIZE
    requires startBlock * blockSize + dataSize + DESCRIPTION_SIZE <= endBlock * blockSize
    ensures startBlock * blockSize + BlocksTaken(dataSize, blockSize) <= endBlock * blockSize
            <==> dataSize + DESCRIPTION_SIZE != endBlock * blockSize - startBlock * blockSize
  {
    if endBlock < startBlock {
      ProductGrows(endBlock, startBlock, blockSize);
    } else {
      assert endBlock * blockSize - startBlock * blockSize == (endBlock - startBlock) * blockSize;
      SpaceSufficesIffNotExact(dataSize, endBlock - startBlock, blockSize);
    }
  }

  /** A later flush keeps the layout exactly if the new size still fits in front of the next file. */
  lemma {:induction false} LaterFlushKeepsLayout(list: seq<Description>, k: nat, info: Info, blockSize: nat, total: nat,
                                                 before: Snapshot, after: Snapshot)
    requires k < |list| && list[k] == before.mirror.description && list[k].regionCount != 0
    requires blockSize > DESCRIPTION_SIZE && IsName(info.name) && Shaped(list[k])
    requires AllWithin(before.pending, info.fileSize)
    requires total < UINT64_SPAN && Layout(Extents(list, blockSize), total)
    requires var t := TargetOf(list, k, info, blockSize, total).value;
             Consistent(t, before.mirror) && Small(t, info.fileSize)
             && Reflects(Success, t, info.fileSize, before, after)
    ensures Layout(Extents(ListAfter(list, k, after.mirror.description, info.fileSize, blockSize, total), blockSize),
                   total) <==>
            StartOf(list[k], blockSize) + BlocksTaken(info.fileSize, blockSize)
            <= RoomEnd(Extents(list, blockSize), k, total)
  {
    hide Small, Reflects, Layout, Consistent, BlocksTaken;
    WholeFlush(TargetOf(list, k, info, blockSize, total).value, info.fileSize, before, after);
    FlushKeepsLayout(list, k, info, blockSize, total, Success, before, after);
  }

  /** What the flush of a volume promises about its files, said about their descriptions: the other files
      have kept theirs. */
  lemma {:induction false} ListFollowsFiles(v: Volume, file: File, fileSize: nat, before: seq<File>,
                                            list: seq<Description>, k: nat)
    requires |before| == |list| && k < |list| && before[k] == file
    requires v.files == Relinked(before, list, k, fileSize, v.disk.blockSize, v.disk.MediaSize())
    requires forall i :: 0 <= i < |list| && i != k ==> before[i].description == list[i]
    ensures v.List() == ListAfter(list, k, file.description, fileSize, v.disk.blockSize, v.disk.MediaSize())
  {
    hide SpaceFor, MoveBefore;
    var space := SpaceFor(list, fileSize, v.disk.blockSize, v.disk.MediaSize());
    forall a | 0 <= a < |v.files|
      ensures v.List()[a] == ListAfter(list, k, file.description, fileSize, v.disk.blockSize, v.disk.MediaSize())[a]
    {
      if list[k].regionCount == 0 && space.Before? {
        MovedAt(before, k, space.index, a);
        MovedAt(list[k := file.description], k, space.index, a);
      }
    }
  }
}
