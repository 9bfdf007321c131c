/** A flush that stops, because the disk refuses a write or space runs out, and the mount after it: what is
    found of the file, and that all other files are found. */
module BootMonInterrupted {
  import opened Bytes
  import opened Options
  import opened BootMonFormat
  import opened BootMonAllocator
  import opened BootMonFlush
  import opened BootMonMount
  import opened BootMonRegions
  import opened BootMonVolume
  import opened BootMonRuns
  import opened BootMonRemount
  import opened BootMonVolumeRuns
  import opened BootMonContents

  // Where a flush stops: so many regions are on the media, and so many writes of the next one.
  datatype Stop = Stop(regions: nat, writes: nat)

  /** Nothing of the next region, or not all of it. */
  predicate IsStop(t: Target, m: Mirror, pending: seq<Pending>, stop: Stop)
    requires Usable(t, m)
  {
    && stop.regions <= |pending|
    && FlushRegions(t, m, pending[..stop.regions]).Done?
    && (stop.writes != 0 ==>
          && stop.regions < |pending|
          && stop.writes
             < |RegionWrites(t, FlushRegions(t, m, pending[..stop.regions]).mirror, pending[stop.regions])|)
  }

  /** The writes carried out by then. */
  function WritesUntil(t: Target, m: Mirror, pending: seq<Pending>, stop: Stop): seq<Write>
    requires Usable(t, m) && IsStop(t, m, pending, stop)
  {
    var o := FlushRegions(t, m, pending[..stop.regions]);
    o.writes
    + (if stop.writes == 0 then [] else RegionWrites(t, o.mirror, pending[stop.regions])[..stop.writes])
  }

  /** The description that is on the media then: the last one written before that region, which is wiped by
      the first write of a region that appends. */
  function LeftAt(t: Target, m: Mirror, pending: seq<Pending>, stop: Stop): Mirror
    requires Usable(t, m) && IsStop(t, m, pending, stop)
  {
    var last := FlushRegions(t, m, pending[..stop.regions]).mirror;
    if stop.writes == 0 then last else Mirror(last.description, 0)
  }

  // ---------- every refusal is such a stop ----------

  ghost predicate StopsAt(t: Target, before: Snapshot, stop: Stop, media: Media)
    requires Usable(t, before.mirror)
  {
    && IsStop(t, before.mirror, before.pending, stop)
    && media == AfterAll(before.media, WritesUntil(t, before.mirror, before.pending, stop))
  }

  /** However a flush fails, it has stopped somewhere. */
  lemma {:induction false} RefusedIsStop(status: Status, t: Target, fileSize: nat, before: Snapshot, after: Snapshot)
      returns (stop: Stop)
    requires Usable(t, before.mirror)
    requires Reflects(status, t, fileSize, before, after) && status != Success
    ensures StopsAt(t, before, stop, after.media)
  {
    hide Renewed, RegionWrites, AfterAll, HasSpace, IsOutdated;
    var m, pending := before.mirror, before.pending;
    if status == NoSpace {
      var n := FullAt(t, m, pending);
      stop := Stop(n, 0);
    } else if IsStopped(t, before, after) {
      var k: nat, done: nat :| IsStoppedAt(t, before, k, done, after);
      assert pending[..k + 1][..k] == pending[..k];
      stop := Stop(k, done);
      var o := FlushRegions(t, m, pending[..k]);
      AfterAllConcat(before.media, o.writes, RegionWrites(t, o.mirror, pending[k])[..done]);
    } else {
      assert pending[..|pending|] == pending;
      stop := Stop(|pending|, 0);
    }
    if stop.writes == 0 {
      var o := FlushRegions(t, m, pending[..stop.regions]);
      assert o.writes + [] == o.writes;
      AfterAllConcat(before.media, o.writes, []);
      AfterNothing(AfterAll(before.media, o.writes));
    }
  }

  /** The region for which there is no space. */
  lemma {:induction false} FullAt(t: Target, m: Mirror, pending: seq<Pending>) returns (n: nat)
    requires Usable(t, m) && FlushRegions(t, m, pending).Full?
    ensures n < |pending| && FlushRegions(t, m, pending[..n]).Done?
    ensures FlushRegions(t, m, pending[..n]).writes == FlushRegions(t, m, pending).writes
    decreases |pending|
  {
    hide Renewed, RegionWrites, HasSpace;
    var last := |pending| - 1;
    if FlushRegions(t, m, pending[..last]).Full? {
      n := FullAt(t, m, pending[..last]);
      assert pending[..last][..n] == pending[..n];
    } else {
      n := last;
    }
  }

  // ---------- what a block shows then ----------

  /** Some writes of a region, but not all: the data is the last of them, if it is among them at all. */
  lemma {:induction false} AfterPart(t: Target, m: Mirror, r: Pending, writes: nat, i: nat, before: Byte)
    requires Usable(t, m) && 0 < writes < |RegionWrites(t, m, r)|
    ensures After(RegionWrites(t, m, r)[..writes], i, before) ==
            if !(m.address != 0 && writes == 1) && Covers(DataWrite(t, r), i) then r.bytes[i - t.fileStart - r.offset]
            else if m.address != 0 && InDescription(m.address, i) then 0
            else before
  {
    hide Renewed, Encode;
    var wipe := Write(m.address, Zeros(DESCRIPTION_SIZE));
    var start := if m.address != 0 then [wipe] else [];
    assert RegionWrites(t, m, r)[..writes] == if m.address != 0 && writes == 1 then start
           else start + [DataWrite(t, r)];
    AfterAppend(start, DataWrite(t, r), i, before);
    if m.address != 0 {
      AfterAppend([], wipe, i, before);
      assert [] + [wipe] == start;
    }
  }

  lemma {:induction false} TailAfterPart(media: Media, blocks: nat, t: Target, m: Mirror, r: Pending, writes: nat,
                                         lba: nat)
    requires IsMedia(media, blocks, t.blockSize) && lba < blocks
    requires Usable(t, m) && IsPlaced(m, t.blockSize) && 0 < writes < |RegionWrites(t, m, r)|
    requires !TouchesTail(DataWrite(t, r), lba, t.blockSize)
    ensures Tail(AfterAll(media, RegionWrites(t, m, r)[..writes]), blocks, t.blockSize, lba) ==
            if Describes(m, lba) then Zeros(DESCRIPTION_SIZE) else Tail(media, blocks, t.blockSize, lba)
  {
    hide RegionWrites, Renewed;
    TailInMedia(lba, blocks, t.blockSize);
    var at, after := LastBytes(lba, t.blockSize), AfterAll(media, RegionWrites(t, m, r)[..writes]);
    if m.description.blockEnd != lba {
      TailsAreApart(m.description.blockEnd, lba, t.blockSize);
    }
    forall i | at <= i < at + DESCRIPTION_SIZE
      ensures after[i] == if Describes(m, lba) then 0 else media[i]
    {
      assert !Covers(DataWrite(t, r), i);
      AfterPart(t, m, r, writes, i, media[i]);
    }
    assert Tail(after, blocks, t.blockSize, lba) ==
           if Describes(m, lba) then Zeros(DESCRIPTION_SIZE) else Tail(media, blocks, t.blockSize, lba);
  }

  /** The regions from some number on do not count for what is data before. */
  lemma {:induction false} FewerRegionsFree(t: Target, pending: seq<Pending>, n: nat, lba: nat)
    requires t.blockSize >= DESCRIPTION_SIZE && n <= |pending|
    requires IsPlaceFree(t, pending, LastBytes(lba, t.blockSize))
    ensures IsPlaceFree(t, pending[..n], LastBytes(lba, t.blockSize))
    ensures n < |pending| ==> !TouchesTail(DataWrite(t, pending[n]), lba, t.blockSize)
  {
    var at, writes := LastBytes(lba, t.blockSize), DataWrites(t, pending);
    assert forall k :: 0 <= k < n ==> DataWrites(t, pending[..n])[k] == writes[k];
    if n < |pending| {
      assert writes[n] == DataWrite(t, pending[n]);
    }
    forall i | at <= i < at + DESCRIPTION_SIZE
      ensures !IsData(t, pending[..n], i) && (n < |pending| ==> !Covers(DataWrite(t, pending[n]), i))
    {
      assert !IsData(t, pending, i);
    }
  }

  /** A block end that no data reaches shows at a stop the description that is left, or zeros, or what it
      showed before. */
  lemma {:induction false} TailAtStop(media: Media, blocks: nat, t: Target, m: Mirror, pending: seq<Pending>,
                                      stop: Stop, lba: nat)
    requires IsMedia(media, blocks, t.blockSize) && lba < blocks
    requires Usable(t, m) && OnMedia(media, blocks, t.blockSize, m) && IsStop(t, m, pending, stop)
    requires IsPlaceFree(t, pending, LastBytes(lba, t.blockSize))
    ensures Shows(LeftAt(t, m, pending, stop), m, lba, Tail(media, blocks, t.blockSize, lba),
                  Tail(AfterAll(media, WritesUntil(t, m, pending, stop)), blocks, t.blockSize, lba))
  {
    hide RegionWrites, Renewed, Tail, AfterAll, IsPlaceFree, FlushRegions, Encode, TouchesTail;
    var o := FlushRegions(t, m, pending[..stop.regions]);
    FewerRegionsFree(t, pending, stop.regions, lba);
    TailAfterRegions(media, blocks, t, m, pending[..stop.regions], lba);
    if stop.writes == 0 {
      assert o.writes + [] == o.writes;
    } else {
      var r := pending[stop.regions];
      AfterAllConcat(media, o.writes, RegionWrites(t, o.mirror, r)[..stop.writes]);
      TailAfterPart(AfterAll(media, o.writes), blocks, t, o.mirror, r, stop.writes, lba);
    }
  }

  // ---------- the other files ----------

  /** Up to the stop only blocks of the file itself are written. */
  lemma {:induction false} StopStaysInside(t: Target, m: Mirror, pending: seq<Pending>, fileSize: nat, stop: Stop)
    requires Usable(t, m) && Small(t, fileSize) && AllWithin(pending, fileSize)
    requires (m.address != 0 ==> t.fileStart <= m.address) && IsStop(t, m, pending, stop)
    ensures forall w :: w in WritesUntil(t, m, pending, stop) ==> IsInside(w, t.fileStart, OwnEnd(t, m, fileSize))
  {
    hide RegionWrites, Renewed, FlushRegions, OwnEnd, Small, IsInside;
    var n := stop.regions;
    var o := FlushRegions(t, m, pending[..n]);
    RegionsStayInside(t, m, pending[..n], fileSize);
    if stop.writes != 0 {
      FinalIsOwn(t, m, fileSize);
      RegionStaysInside(t, o.mirror, pending[n], fileSize, OwnEnd(t, m, fileSize));
    }
  }

  lemma {:induction false} OtherStaysAtStop(media: Media, blocks: nat, t: Target, m: Mirror, pending: seq<Pending>,
                                            fileSize: nat, stop: Stop, f: Mirror)
    requires IsMedia(media, blocks, t.blockSize)
    requires Usable(t, m) && Small(t, fileSize) && AllWithin(pending, fileSize)
    requires (m.address != 0 ==> t.fileStart <= m.address) && IsStop(t, m, pending, stop)
    requires GoodOnMedia(media, blocks, t.blockSize, f)
    requires BlockEndOf(f.description.blockEnd, t.blockSize) <= t.fileStart
             || OwnEnd(t, m, fileSize) <= LastBytes(f.description.blockEnd, t.blockSize)
    ensures GoodOnMedia(AfterAll(media, WritesUntil(t, m, pending, stop)), blocks, t.blockSize, f)
  {
    hide Tail, AfterAll, FooterChecksum, IsImageValid, OwnEnd, WritesUntil, IsStop;
    StopStaysInside(t, m, pending, fileSize, stop);
    TailUntouched(media, blocks, t.blockSize, WritesUntil(t, m, pending, stop), f.description.blockEnd, t.fileStart,
                  OwnEnd(t, m, fileSize));
  }

  // ---------- the next mount ----------

  /** No block end that data of the file reaches looks like a description at the stop, apart from where one
      is left. */
  ghost predicate DataIsNoImageAt(media: Media, blocks: nat, t: Target, m: Mirror, pending: seq<Pending>, stop: Stop)
    requires IsMedia(media, blocks, t.blockSize) && Usable(t, m) && IsStop(t, m, pending, stop)
  {
    forall lba :: 0 <= lba < blocks && !IsPlaceFree(t, pending, LastBytes(lba, t.blockSize))
                  && !Describes(LeftAt(t, m, pending, stop), lba) ==>
      !ShowsImage(media, blocks, t.blockSize, lba)
  }

  /** A flush that may stop anywhere, of a file whose description is where it should be. */
  ghost predicate IsReady(media: Media, blocks: nat, t: Target, m: Mirror, pending: seq<Pending>, fileSize: nat)
    requires IsMedia(media, blocks, t.blockSize)
  {
    && Usable(t, m) && Small(t, fileSize) && AllWithin(pending, fileSize) && IsKnown(t, m)
    && OnMedia(media, blocks, t.blockSize, m)
    && (m.address != 0 ==> WithFooterChecksum(m.description) == m.description)
    && IsBehindData(t, m)
    && OwnEnd(t, m, fileSize) <= blocks * t.blockSize
  }

  lemma {:induction false} LeftIsGood(media: Media, blocks: nat, t: Target, m: Mirror, pending: seq<Pending>,
                                      fileSize: nat, stop: Stop)
    requires IsMedia(media, blocks, t.blockSize) && IsReady(media, blocks, t, m, pending, fileSize)
    requires IsStop(t, m, pending, stop)
    ensures var left := LeftAt(t, m, pending, stop);
            left.address != 0 ==>
              GoodOnMedia(AfterAll(media, WritesUntil(t, m, pending, stop)), blocks, t.blockSize, left)
  {
    hide Renewed, Tail, Decode, FooterChecksum, IsImageValid, FlushRegions, AfterAll, OnMedia, OwnEnd, Small;
    if stop.writes == 0 {
      var p := pending[..stop.regions];
      assert FlushRegions(t, m, p).writes + [] == FlushRegions(t, m, p).writes;
      RegionsKeepGood(t, m, p, fileSize);
      RegionsEndInMedia(t, m, p, fileSize, Geometry(blocks, t.blockSize));
      RegionsShowLast(media, blocks, t, m, p, fileSize);
    }
  }

  lemma {:induction false} ShownAtStop(media: Media, blocks: nat, t: Target, m: Mirror, pending: seq<Pending>,
                                       stop: Stop, lba: nat)
    requires IsMedia(media, blocks, t.blockSize) && lba < blocks
    requires Usable(t, m) && OnMedia(media, blocks, t.blockSize, m) && IsStop(t, m, pending, stop)
    requires DataIsNoImageAt(AfterAll(media, WritesUntil(t, m, pending, stop)), blocks, t, m, pending, stop)
    requires ShowsImage(AfterAll(media, WritesUntil(t, m, pending, stop)), blocks, t.blockSize, lba)
    ensures Describes(LeftAt(t, m, pending, stop), lba)
            || (ShowsImage(media, blocks, t.blockSize, lba) && !Describes(m, lba))
  {
    hide Tail, AfterAll, Decode, IsImageValid, FlushRegions, OnMedia, WritesUntil, IsStop, LeftAt, Encode;
    if !Describes(LeftAt(t, m, pending, stop), lba) {
      assert IsPlaceFree(t, pending, LastBytes(lba, t.blockSize));
      TailAtStop(media, blocks, t, m, pending, stop, lba);
      ZerosAreNoImage(lba);
    }
  }

  /** Wherever a flush stops, a mount finds all other files, and of its file the description left, if there
      is one. So it never finds the file twice. */
  lemma {:induction false} StopKeepsMountable(media: Media, blocks: nat, t: Target, m: Mirror, pending: seq<Pending>,
                                              fileSize: nat, stop: Stop, others: set<Mirror>)
    requires IsMedia(media, blocks, t.blockSize) && IsReady(media, blocks, t, m, pending, fileSize)
    requires IsStop(t, m, pending, stop)
    requires DataIsNoImageAt(AfterAll(media, WritesUntil(t, m, pending, stop)), blocks, t, m, pending, stop)
    requires Apart(others, t.fileStart, OwnEnd(t, m, fileSize), t.blockSize)
    requires Mountable(media, blocks, t.blockSize, others + Own(m))
    ensures Mountable(AfterAll(media, WritesUntil(t, m, pending, stop)), blocks, t.blockSize,
                      others + Own(LeftAt(t, m, pending, stop)))
  {
    hide Tail, AfterAll, IsImageValid, OwnEnd, WritesUntil, IsStop, LeftAt, GoodOnMedia, OnMedia, FooterChecksum,
         LastBlocks, DataIsNoImageAt, Small, IsKnown, StartOf, BlockEndOf, LastBytes, ShowsImage;
    var after, left := AfterAll(media, WritesUntil(t, m, pending, stop)), LeftAt(t, m, pending, stop);
    LeftIsGood(media, blocks, t, m, pending, fileSize, stop);
    forall f | f in others
      ensures GoodOnMedia(after, blocks, t.blockSize, f)
    {
      assert f in others + Own(m);
      OtherIsOutside(media, blocks, t.blockSize, f, t.fileStart, OwnEnd(t, m, fileSize));
      OtherStaysAtStop(media, blocks, t, m, pending, fileSize, stop, f);
    }
    LastBlocksOfBoth(others, Own(m));
    LastBlocksOfBoth(others, Own(left));
    OneLastBlock(m);
    OneLastBlock(left);
    forall lba: nat | lba < blocks && ShowsImage(after, blocks, t.blockSize, lba)
      ensures lba in LastBlocks(others + Own(left))
    {
      ShownAtStop(media, blocks, t, m, pending, stop, lba);
    }
  }

  /** What a stop leaves of the file: nothing in the middle of a region, or before any description was written;
      otherwise the description of the last region before the stop that extends the file, or the old one. */
  lemma {:induction false} LeftTells(t: Target, m: Mirror, pending: seq<Pending>, fileSize: nat, stop: Stop)
    requires Usable(t, m) && Small(t, fileSize) && AllWithin(pending, fileSize) && IsKnown(t, m)
    requires IsStop(t, m, pending, stop)
    ensures var left, size := LeftAt(t, m, pending, stop), DescribedSize(t, m, pending[..stop.regions]);
            && (left.address != 0 <==> stop.writes == 0 && size.Some?)
            && (left.address != 0 ==> Consistent(t, left) && left.description.regions[0].size == size.value)
  {
    hide FlushRegions, DescribedSize, FooterChecksum, IsImageValid;
    RegionsDescribeSize(t, m, pending[..stop.regions], fileSize);
  }

  // ---------- a flush of a volume that stops ----------

  /** A flush of a file there is that stops after some writes, none of which could be taken for a description. */
  ghost predicate CanStop(s: VolumeState, op: Operation, g: Geometry, stop: Stop)
    requires Sane(s, g)
  {
    && op.Flush? && IsAimed(s, op, g)
    && var t, m := TargetIn(s, op, g).value, MirrorOf(s.list[op.k], g.blockSize);
       TargetIsNamed(s.list, op.k, op.info, g.blockSize, g.Total());
       && IsStop(t, m, op.pending, stop)
       && DataIsNoImageAt(AfterAll(s.media, WritesUntil(t, m, op.pending, stop)), g.blocks, t, m, op.pending, stop)
  }

  ghost function Left(s: VolumeState, op: Operation, g: Geometry, stop: Stop): Mirror
    requires Sane(s, g) && CanStop(s, op, g, stop)
  {
    AimIsKnown(s, op, g);
    LeftAt(TargetIn(s, op, g).value, MirrorOf(s.list[op.k], g.blockSize), op.pending, stop)
  }

  ghost function WritesOf(s: VolumeState, op: Operation, g: Geometry, stop: Stop): seq<Write>
    requires Sane(s, g) && CanStop(s, op, g, stop)
  {
    AimIsKnown(s, op, g);
    WritesUntil(TargetIn(s, op, g).value, MirrorOf(s.list[op.k], g.blockSize), op.pending, stop)
  }

  function ListLeft(list: seq<Description>, k: nat, left: Mirror): seq<Description>
    requires k < |list|
  {
    Remove(list, k) + (if left.address != 0 then [left.description] else [])
  }

  /** The media after the stop, and the files that are on it. The driver has another list in memory: whatever
      is done next has to wait for the next mount. */
  ghost function AfterStop(s: VolumeState, op: Operation, g: Geometry, stop: Stop): VolumeState
    requires Sane(s, g) && CanStop(s, op, g, stop)
  {
    VolumeState(AfterAll(s.media, WritesOf(s, op, g, stop)), ListLeft(s.list, op.k, Left(s, op, g, stop)))
  }

  lemma {:induction false} FilesLeft(list: seq<Description>, k: nat, left: Mirror, blockSize: nat)
    requires k < |list| && blockSize > DESCRIPTION_SIZE
    requires left.address != 0 ==> left == MirrorOf(left.description, blockSize) && left.description.regionCount != 0
    ensures FilesOf(ListLeft(list, k, left), blockSize) == FilesOf(Remove(list, k), blockSize) + Own(left)
  {
    hide Remove, Place;
  }

  lemma {:induction false} AppendedIsApart(files: FileList, e: Extent, total: nat)
    requires AreApart(files, total) && e.from < e.to && IsFree(files, e.from, e.to - e.from, total)
    ensures AreApart(files + [Some(e)], total)
  {
  }

  lemma {:induction false} StopIsReady(s: VolumeState, op: Operation, g: Geometry)
    requires Good(s, g) && op.Flush? && IsAimed(s, op, g) && Fits(s, op, g)
    ensures TargetIn(s, op, g).value.blockSize == g.blockSize
    ensures IsReady(s.media, g.blocks, TargetIn(s, op, g).value, MirrorOf(s.list[op.k], g.blockSize), op.pending,
                    op.info.fileSize)
  {
    hide Mountable, TargetOf, IsTruthful, AreApart, FilesOf, Fits, Small, OnMedia, OwnEnd, Place, FooterChecksum,
         IsImageValid;
    var t, m := TargetIn(s, op, g).value, MirrorOf(s.list[op.k], g.blockSize);
    AimIsKnown(s, op, g);
    OldIsGood(s, g, op.k);
    OwnEndInMedia(s, op, g);
    TargetStart(s, op, g);
    if m.address != 0 {
      PlacedBehindData(t, m);
    }
  }

  /** The description left lies within the blocks of the file. */
  lemma {:induction false} LeftIsInside(t: Target, m: Mirror, pending: seq<Pending>, fileSize: nat, stop: Stop)
    requires Usable(t, m) && Small(t, fileSize) && AllWithin(pending, fileSize) && IsKnown(t, m)
    requires (m.address != 0 ==> t.fileStart <= m.address) && IsStop(t, m, pending, stop)
    ensures var left := LeftAt(t, m, pending, stop);
            left.address != 0 ==>
              && left == MirrorOf(left.description, t.blockSize) && IsTruthful(left.description, t.blockSize)
              && left.description.regionCount != 0
              && t.fileStart == StartOf(left.description, t.blockSize)
              && t.fileStart < BlockEndOf(left.description.blockEnd, t.blockSize) <= OwnEnd(t, m, fileSize)
  {
    hide FlushRegions, OwnEnd, Small, FooterChecksum, IsImageValid, DescribedSize, BlocksTaken;
    var left := LeftAt(t, m, pending, stop);
    LeftTells(t, m, pending, fileSize, stop);
    RegionsStayInside(t, m, pending[..stop.regions], fileSize);
    if left.address != 0 {
      ConsistentIsTruthful(t, left);
      ConsistentExtent(t, left);
    }
  }

  lemma {:induction false} StopIsApart(s: VolumeState, op: Operation, g: Geometry, stop: Stop)
    requires Good(s, g) && CanStop(s, op, g, stop) && Fits(s, op, g)
    ensures AreApart(Extents(AfterStop(s, op, g, stop).list, g.blockSize), g.Total())
  {
    hide Mountable, TargetIn, IsTruthful, AreApart, Fits, Small, OwnEnd, IsStop, LeftAt, MirrorOf, Remove,
         DataIsNoImageAt, StartOf, BlockEndOf, AfterAll, WritesUntil;
    var t, m := TargetIn(s, op, g).value, MirrorOf(s.list[op.k], g.blockSize);
    var left := Left(s, op, g, stop);
    AimIsKnown(s, op, g);
    StopIsReady(s, op, g);
    DeletedIsApart(s, g, op.k);
    if left.address != 0 {
      KnownIsBehind(t, m);
      LeftIsInside(t, m, op.pending, op.info.fileSize, stop);
      LeftIsFree(s, op, g, left.description);
      AppendedIsApart(Extents(Remove(s.list, op.k), g.blockSize),
                      Extent(StartOf(left.description, g.blockSize),
                             BlockEndOf(left.description.blockEnd, g.blockSize)), g.Total());
      assert Extents(AfterStop(s, op, g, stop).list, g.blockSize)
             == Extents(Remove(s.list, op.k), g.blockSize) + [ExtentOf(left.description, g.blockSize)];
    } else {
      assert AfterStop(s, op, g, stop).list == Remove(s.list, op.k);
    }
  }

  /** Nothing else lies where the description left says that the file is. */
  lemma {:induction false} LeftIsFree(s: VolumeState, op: Operation, g: Geometry, d: Description)
    requires Sane(s, g) && AreApart(Extents(s.list, g.blockSize), g.Total())
    requires op.Flush? && IsAimed(s, op, g) && Fits(s, op, g)
    requires TargetIn(s, op, g).value.blockSize == g.blockSize
    requires var t, m := TargetIn(s, op, g).value, MirrorOf(s.list[op.k], g.blockSize);
             && StartOf(d, g.blockSize) == t.fileStart
             && t.fileStart < BlockEndOf(d.blockEnd, g.blockSize) <= OwnEnd(t, m, op.info.fileSize)
    ensures var from, to := StartOf(d, g.blockSize), BlockEndOf(d.blockEnd, g.blockSize);
            IsFree(Extents(Remove(s.list, op.k), g.blockSize), from, to - from, g.Total())
  {
    hide TargetIn, IsTruthful, AreApart, Fits, Small, OwnEnd, MirrorOf, StartOf, BlockEndOf;
    var others := Remove(s.list, op.k);
    OwnEndInMedia(s, op, g);
    forall i | 0 <= i < |others| && others[i].regionCount != 0
      ensures BlockEndOf(d.blockEnd, g.blockSize) <= StartOf(others[i], g.blockSize)
              || BlockEndOf(others[i].blockEnd, g.blockSize) <= StartOf(d, g.blockSize)
    {
      var l := if i < op.k then i else i + 1;
      FlushSparesOther(s, op, g, l);
    }
  }

  /** Whatever a flush that fits was about to do, and wherever it stops: the files that are on the media are all
      others, and at most one description of its file, apart from them. A mount finds exactly these. */
  lemma {:induction false} StopIsGood(s: VolumeState, op: Operation, g: Geometry, stop: Stop)
    requires Good(s, g) && CanStop(s, op, g, stop) && Fits(s, op, g)
    ensures Good(AfterStop(s, op, g, stop), g)
    ensures FilesOf(AfterStop(s, op, g, stop).list, g.blockSize)
            == FilesOf(Remove(s.list, op.k), g.blockSize) + Own(Left(s, op, g, stop))
  {
    hide TargetIn, AreApart, Fits, Small, OwnEnd, IsStop, LeftAt, MirrorOf, Remove, StartOf, BlockEndOf, AfterAll,
         WritesUntil, FilesOf, IsTruthful, Own, DataIsNoImageAt, IsReady, NoGhosts, AllOnMedia;
    var t, m := TargetIn(s, op, g).value, MirrorOf(s.list[op.k], g.blockSize);
    var left := Left(s, op, g, stop);
    AimIsKnown(s, op, g);
    KnownIsBehind(t, m);
    LeftIsInside(t, m, op.pending, op.info.fileSize, stop);
    StopIsReady(s, op, g);
    StopIsApart(s, op, g, stop);
    FilesLeft(s.list, op.k, left, g.blockSize);
    FilesBesides(s.list, op.k, g.blockSize);
    FlushIsApart(s, op, g);
    StopKeepsMountable(s.media, g.blocks, t, m, op.pending, op.info.fileSize, stop,
                       FilesOf(Remove(s.list, op.k), g.blockSize));
    ListLeftIsTruthful(s, g, op.k, left);
  }

  lemma {:induction false} ListLeftIsTruthful(s: VolumeState, g: Geometry, k: nat, left: Mirror)
    requires Sane(s, g) && k < |s.list|
    requires left.address != 0 ==> IsTruthful(left.description, g.blockSize)
    ensures forall i :: 0 <= i < |ListLeft(s.list, k, left)| ==> IsTruthful(ListLeft(s.list, k, left)[i], g.blockSize)
  {
    hide IsTruthful;
  }

  /** The other files hold what they held. Of the file itself, which may be half written, nothing is said. */
  lemma {:induction false} StopKeepsContents(s: VolumeState, op: Operation, g: Geometry, stop: Stop, known: seq<Known>)
    requires Good(s, g) && CanStop(s, op, g, stop) && Fits(s, op, g) && HoldsAll(s, known, g)
    ensures HoldsAll(AfterStop(s, op, g, stop),
                     Remove(known, op.k) + (if Left(s, op, g, stop).address != 0 then [map[]] else []), g)
  {
    hide TargetIn, Mountable, AreApart, Fits, Small, OwnEnd, IsStop, LeftAt, MirrorOf, StartOf, BlockEndOf, AfterAll,
         WritesUntil, IsTruthful, DataIsNoImageAt, Holds;
    var after := AfterStop(s, op, g, stop);
    var held := Remove(known, op.k) + (if Left(s, op, g, stop).address != 0 then [map[]] else []);
    forall a | 0 <= a < |after.list|
      ensures Holds(after.media, after.list[a], g.blockSize, held[a])
    {
      if a < |s.list| - 1 {
        var l := if a < op.k then a else a + 1;
        OtherContentsAtStop(s, op, g, stop, l, known[l]);
      } else {
        NothingHolds(after.media, after.list[a], g.blockSize);
      }
    }
  }

  lemma {:induction false} OtherContentsAtStop(s: VolumeState, op: Operation, g: Geometry, stop: Stop, l: nat,
                                               known: Known)
    requires Good(s, g) && CanStop(s, op, g, stop) && Fits(s, op, g)
    requires l < |s.list| && l != op.k && Holds(s.media, s.list[l], g.blockSize, known)
    ensures Holds(AfterStop(s, op, g, stop).media, s.list[l], g.blockSize, known)
  {
    hide TargetIn, Mountable, AreApart, Fits, Small, OwnEnd, IsStop, MirrorOf, StartOf, BlockEndOf, After,
         WritesUntil, IsTruthful, DataIsNoImageAt, Left;
    var t, m := TargetIn(s, op, g).value, MirrorOf(s.list[op.k], g.blockSize);
    AimIsKnown(s, op, g);
    KnownIsBehind(t, m);
    StopStaysInside(t, m, op.pending, op.info.fileSize, stop);
    forall j | j in known
      ensures AfterStop(s, op, g, stop).media[StartOf(s.list[l], g.blockSize) + j] == known[j]
    {
      ByteIsInBlocks(s, g, l, j);
      FlushSparesOther(s, op, g, l);
      OutsideIsUntouched(WritesOf(s, op, g, stop), t.fileStart, OwnEnd(t, m, op.info.fileSize),
                         StartOf(s.list[l], g.blockSize) + j, s.media[StartOf(s.list[l], g.blockSize) + j]);
    }
  }

  // ---------- what is read after a flush that failed ----------

  /** The regions whose data is on the media at a stop: in the last one the description is missing. */
  function Carried(t: Target, m: Mirror, pending: seq<Pending>, stop: Stop): nat
    requires Usable(t, m) && IsStop(t, m, pending, stop)
  {
    if stop.writes == 0 || (stop.writes == 1 && IsWiped(t, m, pending, stop)) then stop.regions else stop.regions + 1
  }

  /** The stop comes after the wipe of the description. */
  predicate IsWiped(t: Target, m: Mirror, pending: seq<Pending>, stop: Stop)
    requires Usable(t, m) && IsStop(t, m, pending, stop)
  {
    stop.writes != 0 && FlushRegions(t, m, pending[..stop.regions]).mirror.address != 0
  }

  /** The wipe of a description lies on byte i and data has not covered it. */
  predicate WipeStays(t: Target, m: Mirror, pending: seq<Pending>, stop: Stop, i: nat)
    requires Usable(t, m) && IsStop(t, m, pending, stop)
  {
    && IsWiped(t, m, pending, stop)
    && InDescription(FlushRegions(t, m, pending[..stop.regions]).mirror.address, i)
  }

  /** The data of the region where the flush stopped is on byte i. */
  predicate CoversLast(t: Target, m: Mirror, pending: seq<Pending>, stop: Stop, i: nat)
    requires Usable(t, m) && IsStop(t, m, pending, stop)
  {
    && stop.regions < Carried(t, m, pending, stop) <= |pending|
    && Covers(DataWrite(t, pending[stop.regions]), i)
  }

  /** Data carried out so far has the last word on byte i. */
  predicate IsKeptAt(t: Target, m: Mirror, pending: seq<Pending>, stop: Stop, i: nat)
    requires Usable(t, m) && IsStop(t, m, pending, stop)
  {
    || CoversLast(t, m, pending, stop, i)
    || (!WipeStays(t, m, pending, stop, i) && IsKept(t, m, pending[..stop.regions], i))
  }

  lemma CarriedBounds(t: Target, m: Mirror, pending: seq<Pending>, stop: Stop)
    requires Usable(t, m) && IsStop(t, m, pending, stop)
    ensures stop.regions <= Carried(t, m, pending, stop) <= stop.regions + 1
    ensures Carried(t, m, pending, stop) <= |pending|
  {
    hide FlushRegions, RegionWrites;
  }

  /** What a stop leaves on any byte. */
  lemma {:induction false} AfterStoppedRegion(t: Target, m: Mirror, pending: seq<Pending>, stop: Stop, i: nat,
                                              before: Byte)
    requires Usable(t, m) && IsStop(t, m, pending, stop)
    ensures var n := stop.regions;
            After(WritesUntil(t, m, pending, stop), i, before) ==
            if CoversLast(t, m, pending, stop, i) then pending[n].bytes[i - t.fileStart - pending[n].offset]
            else if WipeStays(t, m, pending, stop, i) then 0
            else After(FlushRegions(t, m, pending[..n]).writes, i, before)
  {
    hide FlushRegions, RegionWrites;
    CarriedBounds(t, m, pending, stop);
    var o := FlushRegions(t, m, pending[..stop.regions]);
    if stop.writes == 0 {
      assert o.writes + [] == o.writes;
    } else {
      var r := pending[stop.regions];
      AfterConcat(o.writes, RegionWrites(t, o.mirror, r)[..stop.writes], i, before);
      AfterPart(t, o.mirror, r, stop.writes, i, After(o.writes, i, before));
    }
  }

  /** Whatever bytes were queued, byte i of the media is what they make of it. */
  ghost predicate HoldsQueued(t: Target, m: Mirror, pending: seq<Pending>, stop: Stop, i: nat)
    requires Usable(t, m) && IsStop(t, m, pending, stop)
  {
    forall q: seq<Pending>, before: Byte :: SameShape(pending, q) && IsStop(t, m, q, stop) ==>
      After(WritesUntil(t, m, q, stop), i, before) == After(DataWrites(t, q), i, before)
  }

  /** Nothing but the shape of the regions decides about stops. */
  lemma {:induction false} ShapeDecidesStop(t: Target, m: Mirror, p: seq<Pending>, q: seq<Pending>, stop: Stop,
                                            i: nat)
    requires Usable(t, m) && SameShape(p, q) && IsStop(t, m, p, stop)
    ensures IsStop(t, m, q, stop) && Carried(t, m, q, stop) == Carried(t, m, p, stop) <= |p|
    ensures WipeStays(t, m, q, stop, i) <==> WipeStays(t, m, p, stop, i)
    ensures forall k :: 0 <= k < |p| ==> (Covers(DataWrite(t, q[k]), i) <==> Covers(DataWrite(t, p[k]), i))
  {
    hide FlushRegions, Renewed;
    CarriedBounds(t, m, p, stop);
    ShapeDecidesMirror(t, m, p[..stop.regions], q[..stop.regions]);
    if stop.regions < |p| {
      var r, o := p[stop.regions], q[stop.regions];
      assert RegionEnd(r) == RegionEnd(o) && (IsAppend(t, r) <==> IsAppend(t, o)) && (r.bytes == [] <==> o.bytes == []);
    }
  }

  lemma {:induction false} LaterRegionsDecide(t: Target, pending: seq<Pending>, c: nat, i: nat, before: Byte)
    requires c <= |pending| && !CoveredFrom(t, pending, c, i)
    ensures After(DataWrites(t, pending), i, before) == After(DataWrites(t, pending[..c]), i, before)
    decreases |pending|
  {
    if c < |pending| {
      var n := |pending| - 1;
      CoveredSnoc(t, pending, c, i);
      LaterRegionsDecide(t, pending[..n], c, i, before);
      DataSnoc(t, pending, i);
      AfterAppend(DataWrites(t, pending[..n]), DataWrite(t, pending[n]), i, before);
      assert pending[..n][..c] == pending[..c];
    } else {
      assert pending[..c] == pending;
    }
  }

  /** What the regions carried out should make of a byte. */
  lemma {:induction false} DataCarried(t: Target, m: Mirror, pending: seq<Pending>, stop: Stop, i: nat, before: Byte)
    requires Usable(t, m) && IsStop(t, m, pending, stop)
    requires !CoveredFrom(t, pending, Carried(t, m, pending, stop), i)
    ensures After(DataWrites(t, pending), i, before) ==
            if CoversLast(t, m, pending, stop, i) then
              pending[stop.regions].bytes[i - t.fileStart - pending[stop.regions].offset]
            else After(DataWrites(t, pending[..stop.regions]), i, before)
  {
    hide FlushRegions, RegionWrites;
    var n, c := stop.regions, Carried(t, m, pending, stop);
    CarriedBounds(t, m, pending, stop);
    LaterRegionsDecide(t, pending, c, i, before);
    if c > n {
      DataSnoc(t, pending[..c], i);
      assert pending[..c][..n] == pending[..n];
      AfterAppend(DataWrites(t, pending[..n]), DataWrite(t, pending[n]), i, before);
    }
  }

  /** A region that was not carried out has the last word: no two values of its byte make a difference. */
  lemma {:induction false} LeftOutIsNotHeld(t: Target, m: Mirror, pending: seq<Pending>, stop: Stop, i: nat)
    requires Usable(t, m) && IsStop(t, m, pending, stop)
    requires CoveredFrom(t, pending, Carried(t, m, pending, stop), i)
    ensures !HoldsQueued(t, m, pending, stop, i)
  {
    hide FlushRegions, RegionWrites, IsStop, WritesUntil, After, WipeStays, Carried;
    var c := Carried(t, m, pending, stop);
    var zero := WithLastByte(t, pending, c, i, 0);
    var one := WithLastByte(t, pending, c, i, 1);
    CarriedBounds(t, m, pending, stop);
    ShapeDecidesStop(t, m, pending, zero, stop, i);
    ShapeDecidesStop(t, m, pending, one, stop, i);
    AfterStoppedRegion(t, m, zero, stop, i, 0);
    AfterStoppedRegion(t, m, one, stop, i, 0);
    assert zero[..stop.regions] == zero[..c][..stop.regions] == one[..stop.regions];
    assert stop.regions < c ==> zero[stop.regions] == zero[..c][stop.regions] == one[..c][stop.regions];
    assert After(WritesUntil(t, m, zero, stop), i, 0) == After(WritesUntil(t, m, one, stop), i, 0);
  }

  /** The regions changed so that byte i should become a given value, by the last of them that covers it. */
  lemma {:induction false} WithLastByte(t: Target, p: seq<Pending>, c: nat, i: nat, other: Byte)
      returns (q: seq<Pending>)
    requires CoveredFrom(t, p, c, i)
    ensures SameShape(p, q) && c <= |p| && q[..c] == p[..c]
    ensures forall before: Byte :: After(DataWrites(t, q), i, before) == other
  {
    var d := DataWrites(t, p);
    var j :| c <= j < |p| && Covers(DataWrite(t, p[j]), i);
    assert Covers(d[j], i);
    var k := LastToucher(d, i);
    q := p[k := Pending(p[k].offset, p[k].bytes[i - t.fileStart - p[k].offset := other])];
    var e := DataWrites(t, q);
    assert forall j :: 0 <= j < |p| ==> (Covers(d[j], i) <==> Covers(e[j], i));
    forall before: Byte
      ensures After(DataWrites(t, q), i, before) == other
    {
      AfterLastToucher(e, k, i, before);
    }
  }

  /** A byte on which a description or a wipe has the last word does not depend on what was queued. */
  lemma {:induction false} SpoiltIsNotHeld(t: Target, m: Mirror, pending: seq<Pending>, stop: Stop, i: nat)
    requires Usable(t, m) && IsStop(t, m, pending, stop)
    requires !CoveredFrom(t, pending, Carried(t, m, pending, stop), i) && !IsKeptAt(t, m, pending, stop, i)
    ensures !HoldsQueued(t, m, pending, stop, i)
  {
    hide FlushRegions, RegionWrites, WritesUntil, After, WipeStays, Carried, IsKept, Spoilt;
    var n := stop.regions;
    var p := pending[..n];
    var left := if WipeStays(t, m, pending, stop, i) then 0 else Spoilt(t, m, p, i);
    var other: Byte := if left == 0 then 1 else 0;
    var head := WithByte(t, p, i, other);
    var q := head + pending[n..];
    assert q[..n] == head;
    ShapeDecidesStop(t, m, pending, q, stop, i);
    SameCover(t, pending, q, Carried(t, m, pending, stop), i);
    AfterStoppedRegion(t, m, q, stop, i, other);
    DataCarried(t, m, q, stop, i, other);
    if !WipeStays(t, m, pending, stop, i) {
      ShapeDecidesKept(t, m, p, head, i);
      NotKeptIsSpoilt(t, m, head, i, other);
    }
  }

  lemma {:induction false} SameCover(t: Target, p: seq<Pending>, q: seq<Pending>, c: nat, i: nat)
    requires SameShape(p, q)
    ensures CoveredFrom(t, q, c, i) <==> CoveredFrom(t, p, c, i)
  {
    assert forall k :: 0 <= k < |p| ==> (Covers(DataWrite(t, q[k]), i) <==> Covers(DataWrite(t, p[k]), i));
  }

  /** At a stop a byte of the media is what was queued for it, whatever that is, exactly if no region that was
      left out covers it and data carried out has the last word. */
  lemma {:induction false} HoldsQueuedIffCarried(t: Target, m: Mirror, pending: seq<Pending>, stop: Stop, i: nat)
    requires Usable(t, m) && IsStop(t, m, pending, stop)
    ensures HoldsQueued(t, m, pending, stop, i) <==>
            !CoveredFrom(t, pending, Carried(t, m, pending, stop), i) && IsKeptAt(t, m, pending, stop, i)
  {
    hide FlushRegions, RegionWrites, WritesUntil, After, WipeStays, Carried, IsKept, HoldsQueued;
    if CoveredFrom(t, pending, Carried(t, m, pending, stop), i) {
      LeftOutIsNotHeld(t, m, pending, stop, i);
    } else if !IsKeptAt(t, m, pending, stop, i) {
      SpoiltIsNotHeld(t, m, pending, stop, i);
    } else {
      KeptIsHeld(t, m, pending, stop, i);
    }
  }

  lemma {:induction false} KeptIsHeld(t: Target, m: Mirror, pending: seq<Pending>, stop: Stop, i: nat)
    requires Usable(t, m) && IsStop(t, m, pending, stop)
    requires !CoveredFrom(t, pending, Carried(t, m, pending, stop), i) && IsKeptAt(t, m, pending, stop, i)
    ensures HoldsQueued(t, m, pending, stop, i)
  {
    hide FlushRegions, RegionWrites, WritesUntil, After, WipeStays, Carried, IsKept;
    forall q: seq<Pending>, before: Byte | SameShape(pending, q) && IsStop(t, m, q, stop)
      ensures After(WritesUntil(t, m, q, stop), i, before) == After(DataWrites(t, q), i, before)
    {
      ShapeDecidesStop(t, m, pending, q, stop, i);
      SameCover(t, pending, q, Carried(t, m, pending, stop), i);
      AfterStoppedRegion(t, m, q, stop, i, before);
      DataCarried(t, m, q, stop, i, before);
      if !CoversLast(t, m, q, stop, i) {
        ShapeDecidesKept(t, m, pending[..stop.regions], q[..stop.regions], i);
        KeptIsOverlaid(t, m, q[..stop.regions], i, before);
      }
    }
  }

  /** A read ignores that its flush failed. If the file has a description in memory the read returns what the
      stop left, which is what was queued exactly where HoldsQueuedIffCarried says so. Otherwise it returns
      what lies at the start of the media, wherever the file was going to be. */
  lemma {:induction false} ReadAfterFailure(status: Status, t: Target, fileSize: nat, before: Snapshot,
                                            after: Snapshot, position: nat, length: nat, bytes: seq<Byte>, j: nat)
      returns (stop: Stop)
    requires Usable(t, before.mirror) && Small(t, fileSize) && AllWithin(before.pending, fileSize)
    requires IsTrue(t, before.mirror)
    requires Reflects(status, t, fileSize, before, after) && status != Success
    requires IsRead(Success, bytes, after.media, StartOf(after.mirror.description, t.blockSize), fileSize, position,
                    length)
    requires j < |bytes| && t.fileStart + position + j < |before.media|
    ensures StopsAt(t, before, stop, after.media)
    ensures after.mirror.description.regionCount == 0 ==> bytes[j] == after.media[position + j]
    ensures after.mirror.description.regionCount != 0 ==>
              var i := t.fileStart + position + j;
              && bytes[j] == After(WritesUntil(t, before.mirror, before.pending, stop), i, before.media[i])
              && (HoldsQueued(t, before.mirror, before.pending, stop, i) ==>
                    bytes[j] == Overlay(before.pending, position + j, before.media[i]))
  {
    hide Reflects, FooterChecksum, IsImageValid, IsStop, WritesUntil, Small, After, Overlay, AllWithin;
    var i := t.fileStart + position + j;
    stop := RefusedIsStop(status, t, fileSize, before, after);
    OutcomeIsTrue(status, t, fileSize, before, after);
    OverlayIsData(t, before.pending, position + j, before.media[i]);
    StopReached(t, before, stop, after.media);
  }

  lemma StopReached(t: Target, before: Snapshot, stop: Stop, media: Media)
    requires Usable(t, before.mirror) && StopsAt(t, before, stop, media)
    ensures |media| == |before.media| && IsStop(t, before.mirror, before.pending, stop)
    ensures SameShape(before.pending, before.pending)
  {
    hide IsStop;
  }

  // ---------- the driver ----------

  /** A flush that fails and had a place to go has stopped somewhere; the list in memory is not looked at. */
  method FlushOrStop(v: Volume, file: File) returns (status: BootMonVolume.Status, ghost stop: Stop)
    requires v.Valid() && file in v.files && file.info.Some? && file.openMode != ReadOnly
    modifies v`files, file`description, file`address, file`pending, v.disk`requests, v.disk.data
    ensures v.Valid()
    ensures status != BootMonVolume.Success && old(v.Aim(file)).Some? ==>
              StopsAt(old(v.Aim(file)).value, old(v.Seen(file)), stop, v.disk.data[..])
    ensures old(v.Aim(file)).None? ==> status == NoSpace && v.disk.data[..] == old(v.disk.data[..])
  {
    ghost var aim, seen, size := v.Aim(file), v.Seen(file), file.info.value.fileSize;
    hide Reflects, StopsAt, TargetOf, v.IndexOf;
    status := v.FlushFile(file);
    stop := Stop(0, 0);
    if status != BootMonVolume.Success && aim.Some? {
      stop := RefusedIsStop(status, aim.value, size, seen, v.Seen(file));
    }
  }
}
