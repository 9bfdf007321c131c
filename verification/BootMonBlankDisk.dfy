/** What happens to a blank disk on which one small file after another is written, with and without a mount in
    between. */
module BootMonBlankDisk {
  import opened Bytes
  import opened Options
  import opened BootMonFormat
  import opened BootMonAllocator
  import opened BootMonFlush
  import opened BootMonMount
  import opened BootMonRegions
  import opened BootMonVolume
  import opened BootMonRuns
  import opened BootMonRemount
  import opened BootMonVolumeRuns
  import opened BootMonContents
  import opened BootMonInterrupted
  import opened BootMonDepartures

  // Ten bytes are written to a file; its description is in the same block.
  type Ten = b: seq<Byte> | |b| == 10 witness Zeros(10)

  const DISK := BLANK_DISK

  /** The file at the head of the list gets ten bytes. */
  function Put(name: seq<Byte>, data: Ten): Operation {
    Flush(0, Info(name, 10, 0), [Pending(0, data)])
  }

  function Contents(data: Ten): Known {
    map j: nat | j < 10 :: data[j]
  }

  /** The extent of a file that takes block b and no other. */
  function OneBlock(b: nat): Option<Extent> {
    Some(Extent(b * 512, b * 512 + 512))
  }

  // ---------- one small file ----------

  /** A place for ten bytes at block b, whatever wraps around. */
  predicate IsPlaceAt(t: Target, name: seq<Byte>, b: nat) {
    && IsName(name) && name != [] && b < 15
    && t == Target(name, b * 512, b * 512, t.limit, 512)
    && (t.limit < b * 512 || b * 512 + 512 <= t.limit)
    && t.limit <= 8192
  }

  lemma {:induction false} TenBytesFit(t: Target, name: seq<Byte>, b: nat)
    requires IsPlaceAt(t, name, b)
    ensures Usable(t, NOTHING) && Small(t, 10) && HasSpace(t, NOTHING, 10) && BlockSpan(10, 512) == 0
    ensures BlocksTaken(10, 512) == 512
  {
    if t.limit < t.fileStart {
      assert Sub64(t.limit, t.fileStart) == 0x1_0000_0000_0000_0000 + t.limit - t.fileStart;
    } else {
      SmallDifference(t.limit, t.fileStart);
    }
  }

  lemma {:induction false} TenBytesFlushed(t: Target, name: seq<Byte>, b: nat, data: Ten)
    requires IsPlaceAt(t, name, b)
    ensures Usable(t, NOTHING) && Small(t, 10) && BlocksTaken(10, 512) == 512
    ensures var o := BootMonFlush.FlushFile(t, NOTHING, [Pending(0, data)], 10);
            && o.Done? && o.mirror == Renewed(t, NOTHING, 10)
            && o.mirror.address == b * 512 + 376
            && FlushRegions(t, NOTHING, [Pending(0, data)]).mirror == o.mirror
            && EndsWhereDescribed(t, NOTHING, [Pending(0, data)], 10)
  {
    hide Renewed, HasSpace;
    TenBytesFit(t, name, b);
    var r := Pending(0, data);
    assert [r][..0] == [] && FlushRegions(t, NOTHING, []) == Done([], NOTHING);
    RenewedPlace(t, NOTHING, 10);
  }

  /** The data is nowhere near the end of a block. */
  lemma {:induction false} TenBytesAreNoTail(t: Target, name: seq<Byte>, b: nat, data: Ten, lba: nat)
    requires IsPlaceAt(t, name, b)
    ensures IsPlaceFree(t, [Pending(0, data)], LastBytes(lba, 512))
  {
    var writes := DataWrites(t, [Pending(0, data)]);
    assert |writes| == 1 && writes[0] == Write(b * 512, data);
  }

  lemma {:induction false} TenBytesAreKept(t: Target, name: seq<Byte>, b: nat, data: Ten)
    requires IsPlaceAt(t, name, b) && Usable(t, NOTHING)
    ensures KnownAfter(t, NOTHING, [Pending(0, data)], 10, map[]) == Contents(data)
  {
    hide Renewed;
    var r := Pending(0, data);
    TenBytesFlushed(t, name, b, data);
    assert [r][..0] == [] && FlushRegions(t, NOTHING, []) == Done([], NOTHING);
    RenewedPlace(t, NOTHING, 10);
    forall j: nat | j < 10
      ensures IsSettled(t, NOTHING, [r], map[], j) && Overlay([r], j, 0) == data[j]
    {
      assert [r][0].offset <= j < RegionEnd([r][0]);
      assert Covers(DataWrite(t, r), t.fileStart + j);
      assert !DescriptionLands(t, NOTHING, [r], 0, t.fileStart + j);
    }
  }

  /** The description of ten bytes. */
  predicate IsTen(d: Description, name: seq<Byte>) {
    StringIn(d.filename) == name && |d.regions| > 0 && d.regions[0].size == 10
  }

  /** Writing a new small file at the head of the list: possible wherever its place is, and safe exactly if the
      block there is free. */
  lemma {:induction false} PutIsPossible(s: VolumeState, t: Target, name: seq<Byte>, b: nat, data: Ten)
    requires Good(s, DISK) && s.list != [] && s.list[0] == NO_DESCRIPTION && IsPlaceAt(t, name, b)
    requires TargetIn(s, Put(name, data), DISK) == Some(t)
    ensures Can(s, Put(name, data), DISK)
    ensures Safe(s, Put(name, data), DISK) <==> IsFree(Extents(s.list, 512)[0 := None], b * 512, 512, 8192)
    ensures var d := Flushed(s, Put(name, data), DISK).mirror.description;
            ExtentOf(d, 512) == OneBlock(b) && IsTen(d, name)
  {
    hide TargetIn, Mountable, AreApart, BootMonFlush.FlushFile, EndsWhereDescribed, Small, IsPlaceFree, IsTruthful,
         ShowsImage, AfterAll, FlushRegions, IsFree, Renewed;
    var op := Put(name, data);
    TenBytesFlushed(t, name, b, data);
    assert AllWithin(op.pending, 10);
    assert IsAimed(s, op, DISK);
    forall lba: nat
      ensures IsPlaceFree(t, op.pending, LastBytes(lba, 512))
    {
      TenBytesAreNoTail(t, name, b, data, lba);
    }
    assert Can(s, op, DISK);
    OwnBlocks(s, op, DISK);
    RenewedIsConsistent(t, NOTHING, 10);
  }

  // ---------- steps of a run ----------

  ghost function StateAfter(s: VolumeState, run: seq<Operation>): VolumeState
    requires Sane(s, DISK) && IsRun(s, run, DISK)
    decreases |run|
  {
    if run == [] then s
    else
      NextIsSane(s, run[0], DISK);
      StateAfter(Next(s, run[0], DISK), run[1..])
  }

  /** One operation more at the end of a safe run. */
  lemma {:induction false} OneMoreOperation(s: VolumeState, run: seq<Operation>, op: Operation)
    requires Good(s, DISK) && IsRun(s, run, DISK) && SafeThroughout(s, run, DISK)
    ensures Good(StateAfter(s, run), DISK)
    ensures Can(StateAfter(s, run), op, DISK) ==>
              && IsRun(s, run + [op], DISK)
              && StateAfter(s, run + [op]) == Next(StateAfter(s, run), op, DISK)
              && (SafeThroughout(s, run + [op], DISK) <==> Safe(StateAfter(s, run), op, DISK))
    decreases |run|
  {
    hide Can, Next, Safe, Mountable, AreApart, Sane;
    if run == [] {
      assert run + [op] == [op] && [op][1..] == [];
      if Can(s, op, DISK) {
        NextIsSane(s, op, DISK);
        assert IsRun(Next(s, op, DISK), [], DISK) && SafeThroughout(Next(s, op, DISK), [], DISK);
      }
    } else {
      OperationKeepsVolume(s, run[0], DISK);
      NextIsSane(s, run[0], DISK);
      OneMoreOperation(Next(s, run[0], DISK), run[1..], op);
      assert (run + [op])[1..] == run[1..] + [op] && (run + [op])[0] == run[0];
    }
  }

  /** A run that is safe so far, the volume it leads to, and what its files hold. */
  ghost predicate Reaches(run: seq<Operation>, s: VolumeState, known: seq<Known>) {
    && Good(BLANK, DISK) && IsRun(BLANK, run, DISK) && SafeThroughout(BLANK, run, DISK)
    && s == StateAfter(BLANK, run) && Good(s, DISK) && HoldsAll(s, known, DISK)
  }

  lemma {:induction false} ReachesMore(run: seq<Operation>, s: VolumeState, known: seq<Known>, op: Operation)
    requires Reaches(run, s, known) && Can(s, op, DISK) && Safe(s, op, DISK)
    ensures Reaches(run + [op], Next(s, op, DISK), KnownNext(s, op, DISK, known))
  {
    hide Can, Next, Good, HoldsAll, EndsWhereDescribed, Fits, KnownNext, SafeThroughout, StateAfter, IsRun;
    OneMoreOperation(BLANK, run, op);
    OperationKeepsVolume(s, op, DISK);
    OperationKeepsContents(s, op, DISK, known);
  }

  /** What is safe for the volume reached is safe for the run, and the other way round. */
  lemma {:induction false} UnsafeAfter(run: seq<Operation>, s: VolumeState, known: seq<Known>, op: Operation)
    requires Reaches(run, s, known) && Can(s, op, DISK) && !Safe(s, op, DISK)
    ensures IsRun(BLANK, run + [op], DISK) && !IntactThroughout(BLANK, run + [op], DISK)
    ensures StateAfter(BLANK, run + [op]) == Next(s, op, DISK)
  {
    hide Can, Next, Good, HoldsAll, Safe, SafeThroughout, IsRun, IntactThroughout, StateAfter;
    OneMoreOperation(BLANK, run, op);
    RunKeepsVolume(BLANK, run + [op], DISK);
  }

  lemma {:induction false} BlankIsReached()
    ensures Reaches([], BLANK, [])
  {
    hide Scan;
    ZerosShowNothing(0);
    EmptyIsGood(BLANK.media, DISK);
  }

  // ---------- a new file at the head of the list ----------

  /** Where a new file at the head of such a list is put. */
  function NewTarget(list: seq<Description>, name: seq<Byte>): Option<Target> {
    TargetOf([NO_DESCRIPTION] + list, 0, Info(name, 10, 0), 512, 8192)
  }

  lemma {:induction false} CreateReaches(run: seq<Operation>, s: VolumeState, known: seq<Known>)
    requires Reaches(run, s, known)
    ensures Reaches(run + [Operation.Create], VolumeState(s.media, [NO_DESCRIPTION] + s.list), [map[]] + known)
  {
    hide Mountable, AreApart, IsTruthful, IsRun, SafeThroughout, StateAfter, Holds;
    ReachesMore(run, s, known, Operation.Create);
  }

  lemma {:induction false} NewTargetIs(list: seq<Description>, name: seq<Byte>, space: Space)
    requires space == FirstFit([None] + Extents(list, 512), 0, 0, 10 + DESCRIPTION_SIZE, 8192) && !space.VolumeFull?
    ensures NewTarget(list, name) ==
            Some(Target(name, space.start, space.start,
                        if space.Before? then StartOf(list[space.index - 1], 512)
                        else if list == [] then 8192 else StartOf(list[0], 512), 512))
    ensures Extents([NO_DESCRIPTION] + list, 512) == [None] + Extents(list, 512)
  {
    hide FirstFit;
    assert Extents([NO_DESCRIPTION] + list, 512) == [None] + Extents(list, 512);
  }

  /** What writing a file behind all others makes of the list and of the contents: nothing is moved. */
  lemma {:induction false} PutInPlace(s: VolumeState, t: Target, name: seq<Byte>, b: nat, data: Ten,
                                      known: seq<Known>)
    requires Good(s, DISK) && s.list != [] && s.list[0] == NO_DESCRIPTION && IsPlaceAt(t, name, b)
    requires TargetIn(s, Put(name, data), DISK) == Some(t) && |known| == |s.list| && known[0] == map[]
    requires SpaceFor(s.list, 10, 512, 8192).AtEnd?
    requires Can(s, Put(name, data), DISK)
    ensures KnownNext(s, Put(name, data), DISK, known) == known[0 := Contents(data)]
    ensures Next(s, Put(name, data), DISK).list == s.list[0 := Flushed(s, Put(name, data), DISK).mirror.description]
  {
    hide Good, SpaceFor, KnownAfter, BootMonFlush.FlushFile, AfterAll, WritesNoImage, TargetOf, IsTruthful,
         IsPlaceAt, Contents;
    TenBytesFlushed(t, name, b, data);
    TenBytesAreKept(t, name, b, data);
  }

  /** A small file goes behind all others: it is there, the others are where they were, and all contents are kept. */
  lemma {:induction false} PutReaches(run: seq<Operation>, s: VolumeState, known: seq<Known>, t: Target,
                                      name: seq<Byte>, b: nat, data: Ten) returns (next: VolumeState)
    requires Reaches(run, s, known) && NewTarget(s.list, name) == Some(t) && IsPlaceAt(t, name, b)
    requires FirstFit([None] + Extents(s.list, 512), 0, 0, 10 + DESCRIPTION_SIZE, 8192).AtEnd?
    requires IsFree([None] + Extents(s.list, 512), b * 512, 512, 8192)
    ensures Reaches(run + [Operation.Create] + [Put(name, data)], next, [Contents(data)] + known)
    ensures Extents(next.list, 512) == [OneBlock(b)] + Extents(s.list, 512)
    ensures next.list == [next.list[0]] + s.list && IsTen(next.list[0], name)
  {
    hide Reaches, FirstFit, KnownNext, Flushed, IsFree, AfterAll, TargetOf, Next, IsPlaceAt, Contents, ExtentOf, Safe,
         Mountable, AreApart, WritesNoImage, IsTruthful;
    var created, op := VolumeState(s.media, [NO_DESCRIPTION] + s.list), Put(name, data);
    CreateReaches(run, s, known);
    ReachedIsGood(run + [Operation.Create], created, [map[]] + known);
    assert |known| == |s.list| && Good(created, DISK);
    NewTargetIs(s.list, name, FirstFit([None] + Extents(s.list, 512), 0, 0, 10 + DESCRIPTION_SIZE, 8192));
    assert ([None] + Extents(s.list, 512))[0 := None] == [None] + Extents(s.list, 512);
    PutIsPossible(created, t, name, b, data);
    PutInPlace(created, t, name, b, data, [map[]] + known);
    ReachesMore(run + [Operation.Create], created, [map[]] + known, op);
    next := Next(created, op, DISK);
    assert ([map[]] + known)[0 := Contents(data)] == [Contents(data)] + known;
    ghost var d := Flushed(created, op, DISK).mirror.description;
    assert next.list == [d] + s.list;
    assert Extents(next.list, 512) == [ExtentOf(d, 512)] + Extents(s.list, 512);
  }

  lemma ReachedIsGood(run: seq<Operation>, s: VolumeState, known: seq<Known>)
    requires Reaches(run, s, known)
    ensures Good(s, DISK) && |known| == |s.list|
  {
    hide Good, IsRun, SafeThroughout;
  }

  // ---------- two files, and a third ----------

  const A: seq<Byte> := [0x41]
  const B: seq<Byte> := [0x42]
  const C: seq<Byte> := [0x43]

  function OneFile(a: Ten): seq<Operation> {
    [] + [Operation.Create] + [Put(A, a)]
  }

  function TwoFiles(a: Ten, b: Ten): seq<Operation> {
    OneFile(a) + [Operation.Create] + [Put(B, b)]
  }

  /** Behind one file for each of the first blocks there is room. */
  lemma {:induction false} FitsBehind(b: nat, files: FileList)
    requires b == |files| < 15 && forall i: nat :: i < b ==> files[i] == OneBlock(i)
    ensures FirstFit([None] + files, 0, 0, 10 + DESCRIPTION_SIZE, 8192) == AtEnd(b * 512)
    ensures IsFree([None] + files, b * 512, 512, 8192)
  {
    hide FirstFit;
    var all := [None] + files;
    assert forall i: nat :: i < b ==> all[i + 1] == OneBlock(i);
    NewIsSkipped(all);
    PassedOver(b, 0, all);
  }

  lemma {:induction false} NewIsSkipped(all: FileList)
    requires |all| > 0 && all[0] == None
    ensures FirstFit(all, 0, 0, 10 + DESCRIPTION_SIZE, 8192) == FirstFit(all, 1, 0, 10 + DESCRIPTION_SIZE, 8192)
  {
  }

  lemma {:induction false} PassedOver(b: nat, k: nat, all: FileList)
    requires k <= b < 15 && |all| == b + 1 && forall i: nat :: i < b ==> all[i + 1] == OneBlock(i)
    ensures FirstFit(all, k + 1, k * 512, 10 + DESCRIPTION_SIZE, 8192) == AtEnd(b * 512)
    decreases b - k
  {
    if k < b {
      SmallDifference(k * 512, k * 512);
      PassedOver(b, k + 1, all);
      assert all[k + 1] == OneBlock(k);
    } else {
      SmallDifference(8192, b * 512);
    }
  }

  lemma {:induction false} OneFileReached(a: Ten) returns (s: VolumeState)
    ensures Reaches(OneFile(a), s, [Contents(a)]) && Extents(s.list, 512) == [OneBlock(0)]
    ensures IsTen(s.list[0], A)
  {
    hide Reaches, FirstFit, IsFree;
    BlankIsReached();
    FitsBehind(0, []);
    assert Extents([], 512) == [];
    NewTargetIs([], A, AtEnd(0));
    s := PutReaches([], BLANK, [], EMPTY, A, 0, a);
    assert [Contents(a)] + [] == [Contents(a)] && [OneBlock(0)] + [] == [OneBlock(0)];
  }

  lemma StartOfBlock(list: seq<Description>, i: nat, b: nat)
    requires i < |list| && Extents(list, 512)[i] == OneBlock(b)
    ensures list[i].regionCount != 0 && StartOf(list[i], 512) == b * 512 && list[i].blockEnd == b
  {
  }

  /** Create, flush, create, flush on a blank disk, with any contents: a safe run. Both files are on the media
      with their contents, apart from each other, and a mount finds both. The list has them in the wrong
      order. */
  lemma {:induction false} TwoFilesAreKept(a: Ten, b: Ten) returns (s: VolumeState)
    ensures Reaches(TwoFiles(a, b), s, [Contents(b), Contents(a)])
    ensures IntactThroughout(BLANK, TwoFiles(a, b), DISK)
    ensures Extents(s.list, 512) == [OneBlock(1), OneBlock(0)] && !Layout(Extents(s.list, 512), 8192)
    ensures IsTen(s.list[0], B) && IsTen(s.list[1], A)
  {
    hide Reaches, FirstFit, IsFree, IntactThroughout, Contents, SafeThroughout;
    var first := OneFileReached(a);
    FitsBehind(1, [OneBlock(0)]);
    NewTargetIs(first.list, B, AtEnd(512));
    StartOfBlock(first.list, 0, 0);
    s := PutReaches(OneFile(a), first, [Contents(a)], Target(B, 512, 512, 0, 512), B, 1, b);
    assert [Contents(b)] + [Contents(a)] == [Contents(b), Contents(a)];
    assert [OneBlock(1)] + [OneBlock(0)] == [OneBlock(1), OneBlock(0)];
    ReachedIsIntact(TwoFiles(a, b), s, [Contents(b), Contents(a)]);
    assert Extents(s.list, 512)[0].value.to > Extents(s.list, 512)[1].value.from;
  }

  /** The second file may then grow without end: the first one starts in front of it and follows it in the list. */
  lemma {:induction false} SecondGrowsWithoutEnd(a: Ten, b: Ten) returns (s: VolumeState)
    ensures Reaches(TwoFiles(a, b), s, [Contents(b), Contents(a)])
    ensures |s.list| == 2 && s.list[0].regionCount != 0 && Shaped(s.list[0])
    ensures AcceptsAnySize(TargetOf(s.list, 0, Info(B, 10, 0), 512, 8192).value, MirrorOf(s.list[0], 512))
  {
    hide Reaches, Contents, Mountable, AreApart, AcceptsAnySize, Place, IntactThroughout, IsTruthful, TargetOf;
    s := TwoFilesAreKept(a, b);
    ReachedIsGood(TwoFiles(a, b), s, [Contents(b), Contents(a)]);
    StartOfBlock(s.list, 0, 1);
    StartOfBlock(s.list, 1, 0);
    GrowsWithoutEndIff(s, DISK, 0, Info(B, 10, 0));
  }

  lemma ReachedIsIntact(run: seq<Operation>, s: VolumeState, known: seq<Known>)
    requires Reaches(run, s, known)
    ensures IntactThroughout(BLANK, run, DISK)
  {
    hide Good, IsRun, SafeThroughout, IntactThroughout, HoldsAll, StateAfter;
    RunKeepsVolume(BLANK, run, DISK);
  }

  /** A third file is put on top of the first: the run is possible, and afterwards the volume is not intact. The
      first file, last in the list, is not found any more. */
  lemma {:induction false} ThirdIsOnTop(a: Ten, b: Ten, c: Ten) returns (s: VolumeState)
    ensures var run := TwoFiles(a, b) + [Operation.Create] + [Put(C, c)];
            && Good(BLANK, DISK) && IsRun(BLANK, run, DISK) && s == StateAfter(BLANK, run)
            && !IntactThroughout(BLANK, run, DISK)
    ensures |s.list| == 3 && StringIn(s.list[2].filename) == A && |s.media| == 8192
    ensures s.list[2] !in Scan(s.media, 16, 512, 0)
  {
    hide Reaches, FirstFit, IsFree, IntactThroughout, Contents, SafeThroughout, IsRun, Mountable, AreApart, Safe, Can,
         Next, IsTruthful, Scan, StringIn, StateAfter;
    var two := TwoFilesAreKept(a, b);
    var run, known := TwoFiles(a, b), [Contents(b), Contents(a)];
    CreateReaches(run, two, known);
    var created := VolumeState(two.media, [NO_DESCRIPTION] + two.list);
    ReachedIsGood(run + [Operation.Create], created, [map[]] + known);
    TakenForFree(Extents(two.list, 512));
    NewTargetIs(two.list, C, Before(1, 0));
    StartOfBlock(two.list, 0, 1);
    StartOfBlock(two.list, 1, 0);
    assert ([None] + Extents(two.list, 512))[0 := None] == [None] + Extents(two.list, 512);
    PutIsPossible(created, Target(C, 0, 0, 512, 512), C, 0, c);
    UnsafeAfter(run + [Operation.Create], created, [map[]] + known, Put(C, c));
    BlankIsReached();
    ReachedIsGood([], BLANK, []);
    s := Next(created, Put(C, c), DISK);
    PutOnTop(created, Target(C, 0, 0, 512, 512), c);
  }

  lemma {:induction false} PutOnTop(s: VolumeState, t: Target, c: Ten)
    requires Good(s, DISK) && |s.list| == 3 && s.list[0] == NO_DESCRIPTION && IsPlaceAt(t, C, 0)
    requires TargetIn(s, Put(C, c), DISK) == Some(t) && SpaceFor(s.list, 10, 512, 8192) == Before(1, 0)
    requires Can(s, Put(C, c), DISK)
    requires s.list[2].blockEnd == 0 && StringIn(s.list[2].filename) == A
    ensures var next := Next(s, Put(C, c), DISK);
            && |next.list| == 3 && next.list[2] == s.list[2] && |next.media| == 8192
            && s.list[2] !in Scan(next.media, 16, 512, 0)
  {
    hide TargetOf, SpaceFor, Mountable, AreApart, BootMonFlush.FlushFile, AfterAll, IsTruthful, Scan, WritesNoImage,
         StringIn, GoodOnMedia, Renewed, FlushRegions, InOrder, Found, ShowsImage, IsImageValid, FooterChecksum;
    var next, m := Next(s, Put(C, c), DISK), Renewed(t, NOTHING, 10);
    TenBytesFlushed(t, C, 0, c);
    RenewedIsConsistent(t, NOTHING, 10);
    RenewedPlace(t, NOTHING, 10);
    FlushIsInOrder(s, Put(C, c), DISK);
    FlushedIsOnMedia(s.media, 16, t, NOTHING, [Pending(0, c)], 10);
    FileIsFound(next.media, 16, 512, m);
    ScanIsRising(next.media, 16, 512, 0);
  }

  lemma {:induction false} TakenForFree(files: FileList)
    requires files == [OneBlock(1), OneBlock(0)]
    ensures FirstFit([None] + files, 0, 0, 10 + DESCRIPTION_SIZE, 8192) == Before(1, 0)
    ensures !IsFree([None] + files, 0, 512, 8192)
  {
    var all := [None] + files;
    SmallDifference(512, 0);
    assert all[1] == files[0] && all[2] == files[1];
    assert FirstFit(all, 1, 0, 10 + DESCRIPTION_SIZE, 8192) == Before(1, 0);
  }

  // ---------- a mount in between ----------

  /** A mount puts the two files in order again. */
  lemma {:induction false} MountedInOrder(a: Ten, b: Ten) returns (s: VolumeState)
    ensures Reaches(TwoFiles(a, b) + [Operation.Mount], s, [Contents(a), Contents(b)])
    ensures Extents(s.list, 512) == [OneBlock(0), OneBlock(1)]
  {
    hide Reaches, IntactThroughout, Contents, Mountable, AreApart, IsTruthful, Scan, FindsExactly, ExtentOf, Layout;
    var two := TwoFilesAreKept(a, b);
    var run, known := TwoFiles(a, b), [Contents(b), Contents(a)];
    ReachedIsGood(run, two, known);
    MountRestoresOrder(two, DISK);
    ReachesMore(run, two, known, Operation.Mount);
    s := Next(two, Operation.Mount, DISK);
    GoodIsIntact(two, DISK);
    FoundIsListed(two, DISK);
    StartOfBlock(two.list, 0, 1);
    StartOfBlock(two.list, 1, 0);
    FoundIsRising(two);
    FoundInOneWay(s.list, [two.list[1], two.list[0]]);
    assert s.list == [two.list[1], two.list[0]];
    assert Extents(s.list, 512) == [Extents(two.list, 512)[1], Extents(two.list, 512)[0]];
    KnownOfTwo(two.list, known);
  }

  lemma FoundIsRising(s: VolumeState)
    requires Good(s, DISK)
    ensures IsRising(Scan(s.media, DISK.blocks, DISK.blockSize, 0))
  {
    hide Mountable, AreApart, Scan;
    ScanIsRising(s.media, DISK.blocks, DISK.blockSize, 0);
  }

  lemma KnownOfTwo(list: seq<Description>, known: seq<Known>)
    requires |list| == |known| == 2 && list[0] != list[1]
    ensures KnownFound([list[1], list[0]], list, known) == [known[1], known[0]]
  {
    assert KnownOf(list, known, list[1]) == KnownOf(list[1..], known[1..], list[1]) == known[1];
  }

  /** With a mount before it the third file goes behind the other two, and all is well. */
  lemma {:induction false} ThirdAfterMount(a: Ten, b: Ten, c: Ten) returns (s: VolumeState)
    ensures var run := TwoFiles(a, b) + [Operation.Mount] + [Operation.Create] + [Put(C, c)];
            && Reaches(run, s, [Contents(c), Contents(a), Contents(b)])
            && IntactThroughout(BLANK, run, DISK)
    ensures Extents(s.list, 512) == [OneBlock(2), OneBlock(0), OneBlock(1)]
  {
    hide Reaches, FirstFit, IsFree, IntactThroughout, Contents, SafeThroughout, IsRun;
    var two := MountedInOrder(a, b);
    FitsBehind(2, [OneBlock(0), OneBlock(1)]);
    NewTargetIs(two.list, C, AtEnd(1024));
    StartOfBlock(two.list, 0, 0);
    s := PutReaches(TwoFiles(a, b) + [Operation.Mount], two, [Contents(a), Contents(b)],
                    Target(C, 1024, 1024, 0, 512), C, 2, c);
    assert [Contents(c)] + [Contents(a), Contents(b)] == [Contents(c), Contents(a), Contents(b)];
    assert [OneBlock(2)] + [OneBlock(0), OneBlock(1)] == [OneBlock(2), OneBlock(0), OneBlock(1)];
    ReachedIsIntact(TwoFiles(a, b) + [Operation.Mount] + [Operation.Create] + [Put(C, c)], s,
                    [Contents(c), Contents(a), Contents(b)]);
  }

  // ---------- a read after a flush that failed ----------

  /** A second file waits to be written behind the first, and the disk refuses its first write. Reading it
      succeeds, and returns what the first file holds. */
  lemma {:induction false} ReadsOtherFile(a: Ten, b: Ten) returns (s: VolumeState, before: Snapshot)
    ensures Reaches(OneFile(a), s, [Contents(a)])
    ensures NewTarget(s.list, B) == Some(Target(B, 512, 512, 0, 512))
    ensures before == Snapshot(NOTHING, [Pending(0, b)], s.media)
    ensures Usable(Target(B, 512, 512, 0, 512), NOTHING)
    ensures Reflects(DeviceError, Target(B, 512, 512, 0, 512), 10, before, before)
    ensures IsRead(BootMonVolume.Success, a, s.media, StartOf(before.mirror.description, 512), 10, 0, 10)
  {
    hide Reaches, FirstFit, IsFree, BootMonFlush.FlushFile;
    s := OneFileReached(a);
    FitsBehind(1, [OneBlock(0)]);
    NewTargetIs(s.list, B, AtEnd(512));
    StartOfBlock(s.list, 0, 0);
    var t := Target(B, 512, 512, 0, 512);
    before := Snapshot(NOTHING, [Pending(0, b)], s.media);
    StopsAtOnce(t, before, b);
    FirstFileHolds(s, a);
  }

  lemma {:induction false} FirstFileHolds(s: VolumeState, a: Ten)
    requires Reaches(OneFile(a), s, [Contents(a)]) && Extents(s.list, 512) == [OneBlock(0)]
    ensures |s.media| == 8192 && s.media[0..10] == a
  {
    hide IsRun, SafeThroughout, StateAfter, Mountable, AreApart, IsTruthful;
    assert Holds(s.media, s.list[0], 512, Contents(a));
    StartOfBlock(s.list, 0, 0);
    assert forall j: nat :: j < 10 ==> j in Contents(a) && Contents(a)[j] == a[j];
  }

  lemma {:induction false} StopsAtOnce(t: Target, before: Snapshot, b: Ten)
    requires t == Target(B, 512, 512, 0, 512) && before == Snapshot(NOTHING, [Pending(0, b)], before.media)
    ensures Usable(t, NOTHING) && Reflects(DeviceError, t, 10, before, before)
  {
    hide Renewed, HasSpace;
    TenBytesFit(t, B, 1);
    var r := Pending(0, b);
    assert [r][..0] == [] && [r][..1] == [r] && FlushRegions(t, NOTHING, []) == Done([], NOTHING);
    AfterNothing(before.media);
    assert RegionWrites(t, NOTHING, r)[..0] == [];
    assert IsStoppedAt(t, before, 0, 0, before);
  }

  // ---------- a flush that stops in the middle ----------

  /** Ten bytes more for the first file, in the block that it has. */
  function More(b: Ten): Operation {
    Flush(0, Info(A, 20, 0), [Pending(10, b)])
  }

  /** The first file gets ten bytes more, and the disk refuses the write that follows the wipe of its description:
      the next mount finds nothing at all. */
  lemma {:induction false} StopLosesFile(a: Ten, b: Ten) returns (s: VolumeState)
    ensures Reaches(OneFile(a), s, [Contents(a)])
    ensures Sane(s, DISK) && CanStop(s, More(b), DISK, Stop(0, 1))
    ensures var after := AfterStop(s, More(b), DISK, Stop(0, 1));
            Good(after, DISK) && Scan(after.media, 16, 512, 0) == []
  {
    hide Reaches, Mountable, AreApart, IsTruthful, IsStop, TargetOf, Scan, DataIsNoImageAt, WritesUntil, LeftAt, Fits,
         AfterAll;
    s := OneFileReached(a);
    ReachedIsGood(OneFile(a), s, [Contents(a)]);
    StartOfBlock(s.list, 0, 0);
    MoreIsAimed(s, b);
    StopsAfterWipe(s, b);
    StopIsGood(s, More(b), DISK, Stop(0, 1));
    var after := AfterStop(s, More(b), DISK, Stop(0, 1));
    assert after.list == [];
    EmptyIsGood(after.media, DISK);
  }

  lemma {:induction false} MoreIsAimed(s: VolumeState, b: Ten)
    requires Good(s, DISK) && |s.list| == 1 && IsTen(s.list[0], A)
    requires s.list[0].regionCount != 0 && StartOf(s.list[0], 512) == 0
    ensures IsAimed(s, More(b), DISK) && Fits(s, More(b), DISK)
    ensures TargetIn(s, More(b), DISK) == Some(Target(A, 0, 10, 8192, 512))
  {
    hide Mountable, AreApart;
    assert BlocksTaken(20, 512) == 512;
    assert Extents(s.list, 512)[0 := None] == [None];
  }

  lemma {:induction false} StopsAfterWipe(s: VolumeState, b: Ten)
    requires Good(s, DISK) && |s.list| == 1 && IsTen(s.list[0], A) && IsAimed(s, More(b), DISK)
    requires s.list[0].regionCount != 0
    requires TargetIn(s, More(b), DISK) == Some(Target(A, 0, 10, 8192, 512))
    ensures CanStop(s, More(b), DISK, Stop(0, 1)) && Left(s, More(b), DISK, Stop(0, 1)).address == 0
  {
    hide Mountable, AreApart, TargetOf, Renewed, AfterAll, ShowsImage, IsPlaceFree, Place;
    var t, m, r := Target(A, 0, 10, 8192, 512), MirrorOf(s.list[0], 512), Pending(10, b);
    AimIsKnown(s, More(b), DISK);
    OwnOfMirror(s.list[0], 512);
    assert [r][..0] == [] && FlushRegions(t, m, []) == Done([], m);
    assert |RegionWrites(t, m, r)| == 3;
    forall lba: nat
      ensures IsPlaceFree(t, [r], LastBytes(lba, 512))
    {
      MoreIsNoTail(t, b, lba);
    }
  }

  lemma {:induction false} MoreIsNoTail(t: Target, b: Ten, lba: nat)
    requires t == Target(A, 0, 10, 8192, 512)
    ensures IsPlaceFree(t, [Pending(10, b)], LastBytes(lba, 512))
  {
    var writes := DataWrites(t, [Pending(10, b)]);
    assert |writes| == 1 && writes[0] == Write(10, b);
  }
}
