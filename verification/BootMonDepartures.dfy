/** Inputs at which BootMonFs does not do what it should, and some at which it does. */
module BootMonDepartures {
  import opened Bytes
  import opened Options
  import opened BootMonFormat
  import opened BootMonAllocator
  import opened BootMonFlush
  import opened BootMonMount
  import opened BootMonRegions
  import opened BootMonVolume
  import opened BootMonRuns
  import opened BootMonRemount
  import opened BootMonDirectory
  import opened BootMonVolumeRuns

  const NAME: seq<Byte> := [0x41]
  const NOTHING := Mirror(NO_DESCRIPTION, 0)

  // A new file at the start of a media of 512-byte blocks with room to spare.
  const EMPTY := Target(NAME, 0, 0, 8192, 512)

  function Queued(offset: nat, length: nat): Pending {
    Pending(offset, Zeros(length))
  }

  lemma EmptyIsUsable(dataSize: nat)
    requires dataSize <= 8000
    ensures Usable(EMPTY, NOTHING) && Small(EMPTY, dataSize)
  {
  }

  /** Where the description of so many bytes goes in that file. */
  lemma DescribedAt(m: Mirror, dataSize: nat)
    requires Usable(EMPTY, m) && dataSize <= 8000
    ensures Renewed(EMPTY, m, dataSize).address == (dataSize + 136) / 512 * 512 + 376
    ensures Renewed(EMPTY, m, dataSize).description.regions[0].size == dataSize
    ensures Renewed(EMPTY, m, dataSize).description.blockEnd == (dataSize + 136) / 512
    ensures dataSize <= 7000 ==> HasSpace(EMPTY, m, dataSize)
  {
    hide Describe;
    RenewedPlace(EMPTY, m, dataSize);
    assert Sub64(8192, 0) == 8192;
  }

  // ---------- flushing ----------

  /** One region more, with room for it. */
  lemma {:induction false} OneMore(regions: seq<Pending>, r: Pending)
    requires Usable(EMPTY, NOTHING) && FlushRegions(EMPTY, NOTHING, regions).Done?
    requires r.bytes != [] && RegionEnd(r) <= 7000
    ensures var o := FlushRegions(EMPTY, NOTHING, regions + [r]);
            && o.Done? && o.mirror == Renewed(EMPTY, FlushRegions(EMPTY, NOTHING, regions).mirror, RegionEnd(r))
            && o.mirror.address == (RegionEnd(r) + 136) / 512 * 512 + 376
  {
    hide Renewed, HasSpace;
    assert (regions + [r])[..|regions|] == regions;
    DescribedAt(FlushRegions(EMPTY, NOTHING, regions).mirror, RegionEnd(r));
  }

  predicate IsDescribed(end: nat, i: nat) {
    InDescription((end + 136) / 512 * 512 + 376, i)
  }

  lemma NoRegion()
    requires Usable(EMPTY, NOTHING)
    ensures FlushRegions(EMPTY, NOTHING, []) == Done([], NOTHING)
  {
  }

  lemma WholeFlushIsDone(regions: seq<Pending>, fileSize: nat)
    requires Usable(EMPTY, NOTHING) && FlushRegions(EMPTY, NOTHING, regions).Done?
    ensures BootMonFlush.FlushFile(EMPTY, NOTHING, regions, fileSize).Done?
  {
    hide FlushRegions;
  }

  lemma LandsUncovered(regions: seq<Pending>, fileSize: nat, i: nat)
    requires Usable(EMPTY, NOTHING) && regions != [] && IsData(EMPTY, regions, i) && i < fileSize
    requires DescriptionLands(EMPTY, NOTHING, regions, |regions| - 1, i)
    ensures !LandingsCovered(EMPTY, NOTHING, regions, fileSize)
  {
    hide FlushRegions, DescriptionLands, WipeLands, IsData;
    assert !CoveredFrom(EMPTY, regions, |regions|, i);
    assert !IsRepaired(EMPTY, NOTHING, regions, |regions| - 1, i);
  }

  /** A second region that ends before the first: its description lands on data of the first. */
  lemma {:induction false} ShorterAppend(length: nat, shorter: nat, i: nat)
    requires 0 < shorter <= i < length <= 7000 && IsDescribed(shorter, i)
    ensures Usable(EMPTY, NOTHING)
    ensures BootMonFlush.FlushFile(EMPTY, NOTHING, [Queued(0, length), Queued(0, shorter)], length).Done?
    ensures !FlushAlwaysOverlays(EMPTY, NOTHING, [Queued(0, length), Queued(0, shorter)], length)
  {
    hide Renewed, HasSpace, FlushAlwaysOverlays, FlushRegions, LandingsCovered, BootMonFlush.FlushFile;
    EmptyIsUsable(length);
    var a, b := Queued(0, length), Queued(0, shorter);
    NoRegion();
    assert [] + [a] == [a] && [a] + [b] == [a, b];
    OneMore([], a);
    OneMore([a], b);
    assert [a, b][..1] == [a];
    assert Covers(DataWrites(EMPTY, [a, b])[0], i);
    LandsUncovered([a, b], length, i);
    WholeFlushIsDone([a, b], length);
    FlushOverlaysIffLandingsCovered(EMPTY, NOTHING, [a, b], length);
  }

  /** 2000 bytes, and then 1000 at the start again: the file is spoilt around byte 1400. */
  lemma ShortAppendSpoils()
    ensures Usable(EMPTY, NOTHING)
    ensures BootMonFlush.FlushFile(EMPTY, NOTHING, [Queued(0, 2000), Queued(0, 1000)], 2000).Done?
    ensures !FlushAlwaysOverlays(EMPTY, NOTHING, [Queued(0, 2000), Queued(0, 1000)], 2000)
  {
    hide *;
    assert IsDescribed(1000, 1400) by { DescribedByte(); }
    ShorterAppend(2000, 1000, 1400);
  }

  lemma DescribedByte()
    ensures IsDescribed(1000, 1400)
  {
  }

  /** 1000 bytes, then 100 at the start, then 1000 again: a description lands on data, and the last region
      writes all of it once more. So keeping descriptions off the data is not needed. */
  lemma {:induction false} LandingCanBeCovered()
    ensures var regions := [Queued(0, 1000), Queued(0, 100), Queued(0, 1000)];
            && Usable(EMPTY, NOTHING) && BootMonFlush.FlushFile(EMPTY, NOTHING, regions, 1000).Done?
            && LandingsCovered(EMPTY, NOTHING, regions, 1000)
            && !DescriptionsClear(EMPTY, NOTHING, regions)
  {
    hide Renewed, HasSpace, FlushRegions, BootMonFlush.FlushFile, DescriptionsClear, IsData, Queued, IsRepaired;
    EmptyIsUsable(1000);
    var a, b := Queued(0, 1000), Queued(0, 100);
    QueuedEnds(1000);
    QueuedEnds(100);
    var regions := [a, b, a];
    ThreeRegions(a, b);
    WholeFlushIsDone(regions, 1000);
    assert regions[..2] == [a, b];
    forall n: nat, i: nat | n < |regions| && IsData(EMPTY, regions, i) && i < 1000
      ensures IsRepaired(EMPTY, NOTHING, regions, n, i)
    {
      LandingIsRepaired(a, b, n, i);
    }
    DescriptionOnData(a, b);
    NotClearBefore(regions, 2);
  }

  lemma {:induction false} ThreeRegions(a: Pending, b: Pending)
    requires Usable(EMPTY, NOTHING) && a.offset == b.offset == 0 && |a.bytes| == 1000 && |b.bytes| == 100
    ensures FlushRegions(EMPTY, NOTHING, [a, b, a]).Done? && FlushRegions(EMPTY, NOTHING, [a]).Done?
    ensures AddressBefore(EMPTY, NOTHING, [a, b, a], 0) == 0
    ensures AddressBefore(EMPTY, NOTHING, [a, b, a], 1) == 1400
    ensures AddressBefore(EMPTY, NOTHING, [a, b, a], 2) == 376
  {
    hide Renewed, HasSpace, FlushRegions;
    var regions := [a, b, a];
    NoRegion();
    assert [] + [a] == [a] && [a] + [b] == [a, b] && [a, b] + [a] == regions;
    OneMore([], a);
    OneMore([a], b);
    OneMore([a, b], a);
    assert regions[..0] == [] && regions[..1] == [a] && regions[..2] == [a, b];
  }

  lemma {:induction false} LandingIsRepaired(a: Pending, b: Pending, n: nat, i: nat)
    requires Usable(EMPTY, NOTHING) && a.offset == b.offset == 0 && |a.bytes| == 1000 && |b.bytes| == 100
    requires n < 3 && i < 1400
    ensures IsRepaired(EMPTY, NOTHING, [a, b, a], n, i)
  {
    hide Renewed, HasSpace, FlushRegions, AddressBefore, IsAppend;
    var regions := [a, b, a];
    ThreeRegions(a, b);
    DescribedAt(FlushRegions(EMPTY, NOTHING, regions[..n]).mirror, RegionEnd(regions[n]));
    if n > 0 && i < 1000 {
      assert Covers(DataWrite(EMPTY, regions[2]), i);
      assert CoveredFrom(EMPTY, regions, 2, i);
    }
  }

  lemma QueuedEnds(length: nat)
    ensures RegionEnd(Queued(0, length)) == |Queued(0, length).bytes| == length && Queued(0, length).offset == 0
  {
  }

  lemma {:induction false} DescriptionOnData(a: Pending, b: Pending)
    requires Usable(EMPTY, NOTHING) && FlushRegions(EMPTY, NOTHING, [a]).Done?
    requires a.offset == b.offset == 0 && |a.bytes| == 1000 && |b.bytes| == 100
    ensures !DescriptionsClear(EMPTY, NOTHING, [a, b])
  {
    hide Renewed, HasSpace, FlushRegions;
    assert [a, b][..1] == [a];
    var m := FlushRegions(EMPTY, NOTHING, [a]).mirror;
    DescribedAt(m, 100);
    assert Covers(DataWrites(EMPTY, [a, b])[0], 376);
    assert IsData(EMPTY, [a, b], 376);
    assert !IsPlaceFree(EMPTY, [a, b], Renewed(EMPTY, m, 100).address);
  }

  lemma NotClearBefore(regions: seq<Pending>, n: nat)
    requires Usable(EMPTY, NOTHING) && n + 1 == |regions| && !DescriptionsClear(EMPTY, NOTHING, regions[..n])
    ensures !DescriptionsClear(EMPTY, NOTHING, regions)
  {
    hide FlushRegions, Renewed, IsPlaceFree;
  }

  // ---------- runs ----------

  const BLANK_DISK := Geometry(16, 512)
  const BLANK := VolumeState(Zeros(8192), [])

  /** A file is created, and flushed once with some regions. */
  function WrittenOnce(regions: seq<Pending>, fileSize: nat): seq<Operation> {
    [Operation.Create, Flush(0, Info(NAME, fileSize, 0), regions)]
  }

  lemma {:induction false} ZerosShowNothing(lba: nat)
    ensures IsMedia(Zeros(8192), 16, 512) && Scan(Zeros(8192), 16, 512, lba) == []
    decreases 16 - lba
  {
    hide Decode, IsImageValid;
    if lba < 16 {
      ZerosShowNothing(lba + 1);
      TailInMedia(lba, 16, 512);
      assert Tail(Zeros(8192), 16, 512, lba) == Zeros(DESCRIPTION_SIZE);
      ZerosAreNoImage(lba);
    }
  }

  lemma {:induction false} OnlyNewFile(fileSize: nat)
    requires fileSize <= 7000
    ensures SpaceFor([NO_DESCRIPTION], fileSize, 512, 8192) == AtEnd(0)
    ensures TargetOf([NO_DESCRIPTION], 0, Info(NAME, fileSize, 0), 512, 8192) == Some(EMPTY)
    ensures BlocksTaken(fileSize, 512) <= 8192
  {
    var files := Extents([NO_DESCRIPTION], 512);
    assert files == [None];
    SmallDifference(8192, 0);
    SkipsNewFiles(files, 0, 1, fileSize + DESCRIPTION_SIZE, 8192);
  }

  ghost predicate LeavesNoImage(regions: seq<Pending>, fileSize: nat)
    requires Usable(EMPTY, NOTHING)
  {
    ZerosShowNothing(0);
    DataIsNoImage(AfterAll(Zeros(8192), BootMonFlush.FlushFile(EMPTY, NOTHING, regions, fileSize).writes), 16, EMPTY,
                  NOTHING, regions, fileSize)
  }

  /** On a blank disk this is a run, whatever the descriptions land on, and it is safe if the file ends where
      its last region was described. */
  lemma {:induction false} WrittenOnceIsRun(regions: seq<Pending>, fileSize: nat)
    requires fileSize <= 7000 && AllWithin(regions, fileSize) && Usable(EMPTY, NOTHING)
    requires BootMonFlush.FlushFile(EMPTY, NOTHING, regions, fileSize).Done? && LeavesNoImage(regions, fileSize)
    ensures Good(BLANK, BLANK_DISK) && IsRun(BLANK, WrittenOnce(regions, fileSize), BLANK_DISK)
    ensures SafeThroughout(BLANK, WrittenOnce(regions, fileSize), BLANK_DISK) <==>
            EndsWhereDescribed(EMPTY, NOTHING, regions, fileSize)
  {
    hide Scan, Good, Mountable, BootMonFlush.FlushFile, DataIsNoImage, Small, Usable, EndsWhereDescribed, TargetOf,
         AllWithin;
    var run := WrittenOnce(regions, fileSize);
    var write := run[1];
    EmptyIsUsable(fileSize);
    ZerosShowNothing(0);
    EmptyIsGood(BLANK.media, BLANK_DISK);
    NextIsSane(BLANK, Operation.Create, BLANK_DISK);
    var created := Next(BLANK, Operation.Create, BLANK_DISK);
    assert created == VolumeState(Zeros(8192), [NO_DESCRIPTION]);
    OnlyNewFile(fileSize);
    assert Can(created, write, BLANK_DISK);
    assert Extents(created.list, 512)[0 := None] == [None];
    assert Fits(created, write, BLANK_DISK);
    assert Safe(created, write, BLANK_DISK) <==> EndsWhereDescribed(EMPTY, NOTHING, regions, fileSize);
    assert run[1..] == [write] && run[1..][1..] == [];
    NextIsSane(created, write, BLANK_DISK);
    var written := Next(created, write, BLANK_DISK);
    assert IsRun(written, [], BLANK_DISK) && SafeThroughout(written, [], BLANK_DISK);
    assert IsRun(created, [write], BLANK_DISK);
    assert SafeThroughout(created, [write], BLANK_DISK) <==> Safe(created, write, BLANK_DISK);
  }

  lemma {:induction false} ZeroData(regions: seq<Pending>, i: nat)
    requires forall r :: r in regions ==> r.bytes == Zeros(|r.bytes|)
    ensures After(DataWrites(EMPTY, regions), i, 0) == 0
  {
    if regions != [] {
      var n := |regions| - 1;
      ZeroData(regions[..n], i);
      DataSnoc(EMPTY, regions, i);
      AfterAppend(DataWrites(EMPTY, regions[..n]), DataWrite(EMPTY, regions[n]), i, 0);
    }
  }

  /** Zeros written to a blank disk are no image where no description has the last word. */
  lemma {:induction false} ZerosAreKept(regions: seq<Pending>, fileSize: nat, lba: nat)
    requires Usable(EMPTY, NOTHING) && fileSize <= 7000 && lba < 16
    requires BootMonFlush.FlushFile(EMPTY, NOTHING, regions, fileSize).Done?
    requires forall r :: r in regions ==> r.bytes == Zeros(|r.bytes|)
    requires LastBytes(lba, 512) + DESCRIPTION_SIZE <= (fileSize + 136) / 512 * 512 + 376
    requires forall i :: LastBytes(lba, 512) <= i < LastBytes(lba, 512) + DESCRIPTION_SIZE ==>
             IsKept(EMPTY, NOTHING, regions, i)
    ensures IsMedia(AfterAll(Zeros(8192), BootMonFlush.FlushFile(EMPTY, NOTHING, regions, fileSize).writes), 16, 512)
    ensures !ShowsImage(AfterAll(Zeros(8192), BootMonFlush.FlushFile(EMPTY, NOTHING, regions, fileSize).writes), 16,
                        512, lba)
  {
    hide Describe, FlushRegions, IsKept, Decode, IsImageValid, IsOutdated;
    var o := BootMonFlush.FlushFile(EMPTY, NOTHING, regions, fileSize);
    var after := AfterAll(Zeros(8192), o.writes);
    TailInMedia(lba, 16, 512);
    forall i | LastBytes(lba, 512) <= i < LastBytes(lba, 512) + DESCRIPTION_SIZE
      ensures after[i] == 0
    {
      var r := FlushRegions(EMPTY, NOTHING, regions);
      KeptIsOverlaid(EMPTY, NOTHING, regions, i, 0);
      ZeroData(regions, i);
      DescribedAt(r.mirror, fileSize);
      AfterAppend(r.writes, DescriptionWrite(Renewed(EMPTY, r.mirror, fileSize)), i, 0);
    }
    assert Tail(after, 16, 512, lba) == Zeros(DESCRIPTION_SIZE);
    ZerosAreNoImage(lba);
  }

  lemma {:induction false} KeptShowsNoImage(regions: seq<Pending>, fileSize: nat)
    requires Usable(EMPTY, NOTHING) && fileSize <= 7000 && AllWithin(regions, fileSize)
    requires BootMonFlush.FlushFile(EMPTY, NOTHING, regions, fileSize).Done?
    requires forall r :: r in regions ==> r.bytes == Zeros(|r.bytes|)
    requires forall lba: nat, i: nat :: lba * 512 + 376 < fileSize && InDescription(LastBytes(lba, 512), i)
                                        && !Describes(FlushRegions(EMPTY, NOTHING, regions).mirror, lba) ==>
               IsKept(EMPTY, NOTHING, regions, i)
    ensures LeavesNoImage(regions, fileSize)
  {
    hide Renewed, FlushRegions, BootMonFlush.FlushFile, IsKept, ShowsImage, Describes, AfterAll;
    ZerosShowNothing(0);
    forall lba: nat | lba < 16 && !IsPlaceFree(EMPTY, regions, LastBytes(lba, 512))
                      && !Describes(FlushRegions(EMPTY, NOTHING, regions).mirror, lba)
      ensures !ShowsImage(AfterAll(Zeros(8192), BootMonFlush.FlushFile(EMPTY, NOTHING, regions, fileSize).writes), 16,
                          512, lba)
    {
      var i :| LastBytes(lba, 512) <= i < LastBytes(lba, 512) + DESCRIPTION_SIZE && IsData(EMPTY, regions, i);
      DataEndsInFile(regions, fileSize, i);
      ZerosAreKept(regions, fileSize, lba);
    }
  }

  lemma DataEndsInFile(regions: seq<Pending>, fileSize: nat, i: nat)
    requires AllWithin(regions, fileSize) && IsData(EMPTY, regions, i)
    ensures i < fileSize
  {
    var writes := DataWrites(EMPTY, regions);
    var k :| 0 <= k < |writes| && Covers(writes[k], i);
    assert RegionEnd(regions[k]) <= fileSize;
  }

  lemma QueuedIsZeros(length: nat)
    ensures Queued(0, length).bytes == Zeros(|Queued(0, length).bytes|)
  {
  }

  lemma {:induction false} NoLandingOnTail(a: Pending, b: Pending, i: nat)
    requires Usable(EMPTY, NOTHING) && a.offset == b.offset == 0 && |a.bytes| == 1000 && |b.bytes| == 100
    requires 512 <= i < 1400
    ensures IsKept(EMPTY, NOTHING, [a, b], i)
  {
    hide Renewed, HasSpace, FlushRegions, IsAppend;
    ThreeRegions(a, b);
    assert [a, b][..1] == [a] == [a, b, a][..1] && [a, b][..0] == [] == [a, b, a][..0];
    forall n: nat | n < 2
      ensures IsRepaired(EMPTY, NOTHING, [a, b], n, i)
    {
      assert AddressBefore(EMPTY, NOTHING, [a, b], n) == AddressBefore(EMPTY, NOTHING, [a, b, a], n);
      DescribedAt(FlushRegions(EMPTY, NOTHING, [a, b][..n]).mirror, RegionEnd([a, b][n]));
    }
    KeptIffRepaired(EMPTY, NOTHING, [a, b], i);
  }

  /** 1000 bytes, and then 100 at the start of the same new file: a run, after which a mount finds the file
      twice, since the description for 100 bytes is still there. */
  lemma {:induction false} SeekBackFindsTwice()
    ensures var run := WrittenOnce([Queued(0, 1000), Queued(0, 100)], 1000);
            && Good(BLANK, BLANK_DISK) && IsRun(BLANK, run, BLANK_DISK)
            && !SafeThroughout(BLANK, run, BLANK_DISK) && !IntactThroughout(BLANK, run, BLANK_DISK)
  {
    hide Renewed, HasSpace, FlushRegions, BootMonFlush.FlushFile, Queued, IsKept, Good, IsRun, SafeThroughout,
         IntactThroughout, LeavesNoImage;
    EmptyIsUsable(1000);
    var a, b := Queued(0, 1000), Queued(0, 100);
    QueuedEnds(1000);
    QueuedEnds(100);
    QueuedIsZeros(1000);
    QueuedIsZeros(100);
    TwoRegions(a, b);
    WholeFlushIsDone([a, b], 1000);
    forall lba: nat, i: nat | lba * 512 + 376 < 1000 && InDescription(LastBytes(lba, 512), i)
                              && !Describes(FlushRegions(EMPTY, NOTHING, [a, b]).mirror, lba)
      ensures IsKept(EMPTY, NOTHING, [a, b], i)
    {
      NoLandingOnTail(a, b, i);
    }
    KeptShowsNoImage([a, b], 1000);
    WrittenOnceIsRun([a, b], 1000);
    assert [a, b][..1] == [a];
    RunKeepsVolume(BLANK, WrittenOnce([a, b], 1000), BLANK_DISK);
  }

  lemma {:induction false} TwoRegions(a: Pending, b: Pending)
    requires Usable(EMPTY, NOTHING) && a.offset == b.offset == 0 && |a.bytes| == 1000 && |b.bytes| == 100
    ensures var o := FlushRegions(EMPTY, NOTHING, [a, b]);
            o.Done? && o.mirror.address != 0 && o.mirror.description.blockEnd == 0
  {
    hide Renewed, HasSpace, FlushRegions;
    NoRegion();
    assert [] + [a] == [a] && [a] + [b] == [a, b];
    OneMore([], a);
    OneMore([a], b);
    DescribedAt(FlushRegions(EMPTY, NOTHING, [a]).mirror, 100);
  }

  /** 1000, 100 and 1000 bytes at the start: a run in which a description lands on data and all is well. */
  lemma {:induction false} CoveredLandingIsSafe()
    ensures var run := WrittenOnce([Queued(0, 1000), Queued(0, 100), Queued(0, 1000)], 1000);
            && Good(BLANK, BLANK_DISK) && IsRun(BLANK, run, BLANK_DISK)
            && SafeThroughout(BLANK, run, BLANK_DISK) && IntactThroughout(BLANK, run, BLANK_DISK)
  {
    hide Renewed, HasSpace, FlushRegions, BootMonFlush.FlushFile, Queued, IsKept, Good, IsRun, SafeThroughout,
         IntactThroughout, LeavesNoImage, IsRepaired;
    EmptyIsUsable(1000);
    var a, b := Queued(0, 1000), Queued(0, 100);
    QueuedEnds(1000);
    QueuedEnds(100);
    QueuedIsZeros(1000);
    QueuedIsZeros(100);
    ThreeRegions(a, b);
    WholeFlushIsDone([a, b, a], 1000);
    forall lba: nat, i: nat | lba * 512 + 376 < 1000 && InDescription(LastBytes(lba, 512), i)
      ensures IsKept(EMPTY, NOTHING, [a, b, a], i)
    {
      forall n: nat | n < 3
        ensures IsRepaired(EMPTY, NOTHING, [a, b, a], n, i)
      {
        LandingIsRepaired(a, b, n, i);
      }
      KeptIffRepaired(EMPTY, NOTHING, [a, b, a], i);
    }
    KeptShowsNoImage([a, b, a], 1000);
    WrittenOnceIsRun([a, b, a], 1000);
    RunKeepsVolume(BLANK, WrittenOnce([a, b, a], 1000), BLANK_DISK);
  }

  /** A file of 1000 bytes is truncated to 100: its old description stays on the media. */
  lemma {:induction false} TruncationLeavesBehind()
    ensures Usable(EMPTY, NOTHING)
    ensures var m := Renewed(EMPTY, NOTHING, 1000);
            var t := EMPTY.(fileEnd := 1000);
            Usable(t, m) && LeavesBehind(t, m, [], 100, m.description.blockEnd)
  {
    hide Renewed, FooterChecksum, IsImageValid;
    EmptyIsUsable(1000);
    var m := Renewed(EMPTY, NOTHING, 1000);
    var t := EMPTY.(fileEnd := 1000);
    RenewedIsConsistent(EMPTY, NOTHING, 1000);
    assert FlushRegions(t, m, []) == Done([], m);
    LeavesBehindIffBlocksDiffer(t, m, [], 100);
  }

  /** The description and 376 bytes fill a block, and two blocks are taken. A gap of one block is given to
      the file, which then lies on the next one. */
  lemma {:induction false} ExactFitOverlaps()
    ensures var files, size := [None, Some(Extent(512, 1024))], 376 + DESCRIPTION_SIZE;
            && FirstFit(files, 0, 0, size, 1024) == Before(1, 0) && BlocksTaken(376, 512) == 1024
            && Layout(files, 1024)
            && Possible(files, WriteNew(0, size, 1024), 1024)
            && !Layout(Changed(files, WriteNew(0, size, 1024), 1024), 1024)
  {
    var files, size := [None, Some(Extent(512, 1024))], 376 + DESCRIPTION_SIZE;
    SmallDifference(512, 0);
    assert FirstFit(files, 1, 0, size, 1024) == Before(1, 0);
    ChangeKeepsLayout(files, WriteNew(0, size, 1024), 1024);
  }

  lemma SmallDifference(a: nat, b: nat)
    requires b <= a < UINT64_SPAN
    ensures Sub64(a, b) == a - b
  {
  }

  // ---------- the layout ----------

  /** A new file is written behind another one while the list has it in front: the layout is lost, and the
      next new file is given the start of the media, where that other file lies. */
  lemma {:induction false} TailIsUnlinked()
    ensures var files := [None, Some(Extent(0, 1024))];
            && Layout(files, 4096) && FirstFit(files, 0, 0, 400, 4096) == AtEnd(1024)
            && !Layout(Changed(files, WriteNew(0, 400, 512), 4096), 4096)
            && FirstFit([None] + Changed(files, WriteNew(0, 400, 512), 4096), 0, 0, 1000, 4096) == Before(1, 0)
            && !IsFree([None] + Changed(files, WriteNew(0, 400, 512), 4096), 0, 1000, 4096)
  {
    var files := [None, Some(Extent(0, 1024))];
    SmallDifference(0, 0);
    SmallDifference(4096, 1024);
    assert FirstFit(files, 2, 1024, 400, 4096) == AtEnd(1024);
    assert FirstFit(files, 1, 0, 400, 4096) == AtEnd(1024);
    ChangeKeepsLayout(files, WriteNew(0, 400, 512), 4096);
    UnlinkedTailIsOverlooked(files, 0, 400, 512, 1000, 4096);
    assert files[1].Some? && files[1].value.from < 1000;
  }

  /** A flush that moves a new file between two others and is stopped before it is written there. */
  lemma {:induction false} StoppedFlushStandsBetween()
    ensures var files := [None, Some(Extent(1024, 1536)), Some(Extent(3072, 3584))];
            && Layout(files, 4096) && FirstFit(files, 0, 0, 1236, 4096) == Before(2, 1536)
            && Possible(files, Relink(0, 1236), 4096)
            && !Layout(Changed(files, Relink(0, 1236), 4096), 4096)
  {
    var files := [None, Some(Extent(1024, 1536)), Some(Extent(3072, 3584))];
    SmallDifference(1024, 0);
    SmallDifference(3072, 1536);
    assert FirstFit(files, 2, 1536, 1236, 4096) == Before(2, 1536);
    assert FirstFit(files, 1, 0, 1236, 4096) == Before(2, 1536);
    ChangeKeepsLayout(files, Relink(0, 1236), 4096);
  }

  // ---------- sizes and reads ----------

  /** A file of 100 bytes with a region waiting that ends at 150 is opened with a length of 250. */
  lemma {:induction false} LengthIsAdded()
    ensures var d := NO_DESCRIPTION.(regions := [Region(0, 100, 0, 0), NO_REGION, NO_REGION, NO_REGION]);
            ImageLength(d, [Queued(100, 50)]) == 250 && FurthestEnd(d, [Queued(100, 50)]) == 150
  {
    assert [Queued(100, 50)][..0] == [];
  }

  /** On media whose first aligned block is block 1, a file at block 0 is read from block 1. */
  lemma ReadsNextBlock()
    ensures !ReadsOwnBlocks(1, NO_DESCRIPTION, 512, 10, 0, 10, 4096)
  {
    ReadsOwnBlocksIffUnshifted(1, NO_DESCRIPTION, 512, 10, 0, 10, 4096);
  }

  // ---------- space ----------

  /** On an empty volume with two new files, ten bytes written to the first of them do not fit. */
  lemma {:induction false} EmptyVolumeIsFull()
    ensures Usable(Target(NAME, 0, 0, 0, 512), NOTHING)
    ensures TargetOf([NO_DESCRIPTION, NO_DESCRIPTION], 0, Info(NAME, 10, 0), 512, 8192)
            == Some(Target(NAME, 0, 0, 0, 512))
    ensures BootMonFlush.FlushFile(Target(NAME, 0, 0, 0, 512), NOTHING, [Queued(0, 10)], 10).Full?
  {
    var list := [NO_DESCRIPTION, NO_DESCRIPTION];
    var files := Extents(list, 512);
    SmallDifference(8192, 0);
    SkipsNewFiles(files, 0, 2, 146, 8192);
    SpaceBehindAll(list, 0, Info(NAME, 10, 0), 512, 8192);
    FirstDoesNotFit(Target(NAME, 0, 0, 0, 512), Queued(0, 10), 10);
  }

  lemma FirstDoesNotFit(t: Target, r: Pending, fileSize: nat)
    requires Usable(t, NOTHING) && IsAppend(t, r) && !HasSpace(t, NOTHING, RegionEnd(r))
    ensures BootMonFlush.FlushFile(t, NOTHING, [r], fileSize).Full?
  {
    hide HasSpace, Renewed;
    assert [r][..0] == [] && FlushRegions(t, NOTHING, []) == Done([], NOTHING);
    assert FlushRegions(t, NOTHING, [r]).Full?;
  }

  /** A file with a stopped first flush between itself and the next file on the media: its neighbour is not
      looked at, and it may grow over everything. */
  lemma {:induction false} GrowsWithoutEnd()
    ensures var t := Target(NAME, 1024, 1024, 4096, 512);
            var u := Target(NAME, 3072, 3072, 4096, 512);
            && Usable(t, NOTHING) && Usable(u, NOTHING)
            && var d, e := Renewed(t, NOTHING, 100).description, Renewed(u, NOTHING, 100).description;
               var list := [d, NO_DESCRIPTION, e];
               && Extents(list, 512) == [Some(Extent(1024, 1536)), None, Some(Extent(3072, 3584))]
               && TargetOf(list, 0, Info(NAME, 100, 0), 512, 4096).Some?
               && AcceptsAnySize(TargetOf(list, 0, Info(NAME, 100, 0), 512, 4096).value, Mirror(d, Place(d, 512)))
  {
    hide Renewed, Place, AcceptsAnySize, Consistent;
    var t, u := Target(NAME, 1024, 1024, 4096, 512), Target(NAME, 3072, 3072, 4096, 512);
    var r, q := Renewed(t, NOTHING, 100), Renewed(u, NOTHING, 100);
    OneBlock(t, r);
    OneBlock(u, q);
    var list := [r.description, NO_DESCRIPTION, q.description];
    var files := Extents(list, 512);
    assert files[0] == Some(Extent(1024, 1536)) && files[1] == None && files[2] == Some(Extent(3072, 3584));
    assert files == [Some(Extent(1024, 1536)), None, Some(Extent(3072, 3584))];
    SamePlace(TargetOf(list, 0, Info(NAME, 100, 0), 512, 4096).value, t, r);
    SpaceIsRunaway(list, 0, Info(NAME, 100, 0), 512, 4096);
  }

  lemma {:induction false} OneBlock(t: Target, r: Mirror)
    requires t.fileStart % 512 == 0 && t.fileStart < 8192 && t.blockSize == 512 && t.name == NAME
    ensures Usable(t, NOTHING)
    ensures r == Renewed(t, NOTHING, 100) ==>
              && Consistent(t, r) && r.description.regionCount == 1 && Shaped(r.description)
              && StartOf(r.description, 512) == t.fileStart
              && ExtentOf(r.description, 512) == Some(Extent(t.fileStart, t.fileStart + 512))
              && r.address == Place(r.description, 512)
  {
    hide Describe, FooterChecksum, IsImageValid;
    if r == Renewed(t, NOTHING, 100) {
      RenewedIsConsistent(t, NOTHING, 100);
      ConsistentExtent(t, r);
    }
  }

  lemma SamePlace(a: Target, b: Target, m: Mirror)
    requires a.blockSize == b.blockSize == 512 && a.fileStart == b.fileStart && Consistent(b, m)
    ensures Consistent(a, m) && m == Mirror(m.description, Place(m.description, 512))
  {
    hide FooterChecksum, IsImageValid;
  }

  // ---------- closing and mounting ----------

  lemma {:induction false} NoPlace(list: seq<Description>, k: nat, info: Info, blockSize: nat, total: nat)
    requires k < |list| && (forall i :: 0 <= i < |list| ==> list[i] == NO_DESCRIPTION)
    requires total < info.fileSize + DESCRIPTION_SIZE && total < UINT64_SPAN
    ensures Shaped(list[k]) && TargetOf(list, k, info, blockSize, total) == None
  {
    var files := Extents(list, blockSize);
    SkipsNewFiles(files, 0, |files|, info.fileSize + DESCRIPTION_SIZE, total);
  }

  // A file with 100 bytes waiting, on a volume of one block that cannot hold them.
  method NewFile(v: Volume, name: seq<Byte>) returns (file: File)
    requires v.Valid() && v.disk.MediaSize() == 137 && IsName(name) && name != [] && !IsTaken(name, v.files)
    modifies v`files
    ensures v.Valid() && fresh(file) && v.files == [file] + old(v.files)
    ensures file.EffectiveName() == name && file.description == NO_DESCRIPTION
    ensures file.info.Some? && file.info.value.fileSize == 100 && file.openMode == CreateReadWrite
  {
    hide StringIn;
    file := CreateFile(v, name, 0);
    var _, _ := file.WriteFile(Zeros(100), true);
  }

  // Closing it: there is no place, and the file is left without a name.
  method CloseWithoutPlace(v: Volume, file: File)
    requires v.Valid() && v.disk.MediaSize() == 137 && file in v.files
    requires forall f :: f in v.files ==> f.description == NO_DESCRIPTION
    requires file.info.Some? && file.info.value.fileSize == 100 && file.openMode == CreateReadWrite
    modifies v`files, file`info, file`description, file`address, file`pending, v.disk`requests, v.disk.data
    ensures v.Valid() && (forall f :: f in v.files <==> f in old(v.files))
    ensures file.info.None? && file.description == NO_DESCRIPTION && file.EffectiveName() == []
  {
    hide StringIn, Others;
    NoPlace(v.List(), v.IndexOf(file), file.info.value, v.disk.blockSize, v.disk.MediaSize());
    NoName();
    var status, flushed, named := CloseFile(v, file);
  }

  lemma NoName()
    ensures StringIn(NO_DESCRIPTION.filename) == []
  {
  }

  /** Two files with different names are closed with nothing on the media, and go by the same name. */
  method ClosedFilesCollide() returns (v: Volume)
    ensures !UniqueNames(v.files)
  {
    hide StringIn;
    var data := new Byte[137](i => 0);
    var disk := new Disk(data, 0, 137, n => true);
    v := new Volume(disk, 0);
    var a := NewFile(v, [0x61]);
    var b := NewFile(v, [0x62]);
    CloseWithoutPlace(v, a);
    CloseWithoutPlace(v, b);
    assert a in v.files && b in v.files && a.EffectiveName() == b.EffectiveName();
  }

  /** A string library that refuses sizes beyond a million characters: a file is renamed with success and
      keeps its name. */
  method RenameKeepsName() returns (status: BootMonVolume.Status, file: File)
    ensures status == Success && file.EffectiveName() == [0x61]
  {
    hide StringIn;
    var data := new Byte[137](i => 0);
    var disk := new Disk(data, 0, 137, n => true);
    var v := new Volume(disk, 0);
    file := NewFile(v, [0x61]);
    assert NameRoom(0) == 0x7FFF_FFFF_FFFF_FFD8;
    status := SetFileName(v, file, [0x62], room => room <= 1_000_000);
  }

  /** The only block of a media, with the description of an empty file at its end. */
  function OneFile(): (media: Media)
    ensures |media| == 512
  {
    Zeros(376) + Encode(Describe(NO_DESCRIPTION, NAME, 0, 0, 512))
  }

  lemma {:induction false} OneFileIsFound()
    ensures IsMedia(OneFile(), 1, 512) && |MountScan(OneFile(), 1, 512, 0, 0)| == 1
  {
    hide Describe, Encode, Decode;
    var d := Describe(NO_DESCRIPTION, NAME, 0, 0, 512);
    DescribeIsRecognised(NO_DESCRIPTION, NAME, 0, 0, 512, 0);
    assert Tail(OneFile(), 1, 512, 0) == Encode(d);
    assert Sub64(0, 0) == 0;
    assert ShowsShifted(OneFile(), 1, 512, 0, 0);
    assert MountScan(OneFile(), 1, 512, 0, 1) == [];
  }

  /** The disk refuses to read, and the mount reports success without the file. */
  method MountMissesFile() returns (v: Volume, status: BootMonVolume.Status)
    ensures status == Success && v.initialized && v.files == []
    ensures v.Valid() && |ScanOf(v, 0)| == 1
  {
    hide MountScan, Describe, Encode;
    var image := OneFile();
    OneFileIsFound();
    var data := new Byte[512](i requires 0 <= i < 512 => image[i]);
    assert data[..] == image;
    var disk := new Disk(data, 0, 512, n => false);
    v := new Volume(disk, 0);
    assert StopOf(v, 0, 0) == 0;
    status := Initialize(v, n => true);
    assert |Mounted(v, 0)| == 0;
  }
}
