/** Runs of a volume: files created, flushed and deleted and the media mounted anew, in any order, with the
    place of the files and the next mount after every step. */
module BootMonVolumeRuns {
  import opened Bytes
  import opened Options
  import opened BootMonFormat
  import opened BootMonAllocator
  import opened BootMonFlush
  import opened BootMonMount
  import opened BootMonVolume
  import opened BootMonRuns
  import opened BootMonRemount
  import opened BootMonDirectory

  // What a volume is to a run: its media, and the descriptions of its files in list order.
  datatype VolumeState = VolumeState(media: Media, list: seq<Description>)

  // The number and size of its blocks.
  datatype Geometry = Geometry(blocks: nat, blockSize: nat) {
    function Total(): nat { blocks * blockSize }
  }

  // What is done to a volume: file k of the list is flushed with its name and size and what waits for it,
  // or the media is mounted anew.
  datatype Operation = Create | Flush(k: nat, info: Info, pending: seq<Pending>) | Delete(k: nat) | Mount

  /** The description of a file with its place, which is none for a file not written yet. */
  function MirrorOf(d: Description, blockSize: nat): Mirror
    requires blockSize >= DESCRIPTION_SIZE
  {
    Mirror(d, if d.regionCount != 0 then Place(d, blockSize) else 0)
  }

  /** The files on the media. */
  function FilesOf(list: seq<Description>, blockSize: nat): set<Mirror>
    requires blockSize >= DESCRIPTION_SIZE
  {
    set d | d in list && d.regionCount != 0 :: MirrorOf(d, blockSize)
  }

  lemma InRemoved<T>(list: seq<T>, k: nat, e: T)
    requires k < |list|
    ensures e in Remove(list, k) <==> exists l :: 0 <= l < |list| && l != k && list[l] == e
  {
    if l :| 0 <= l < |list| && l != k && list[l] == e {
      assert e == Remove(list, k)[if l < k then l else l - 1];
    }
  }

  lemma OwnOfMirror(d: Description, blockSize: nat)
    requires blockSize > DESCRIPTION_SIZE
    ensures Own(MirrorOf(d, blockSize)) == if d.regionCount != 0 then {MirrorOf(d, blockSize)} else {}
  {
  }

  lemma {:induction false} FilesBesides(list: seq<Description>, k: nat, blockSize: nat)
    requires blockSize > DESCRIPTION_SIZE && k < |list|
    ensures FilesOf(list, blockSize)
            == FilesOf(Remove(list, k), blockSize) + Own(MirrorOf(list[k], blockSize))
  {
    hide Remove, MirrorOf;
    OwnOfMirror(list[k], blockSize);
    forall e
      ensures e in list <==> e in Remove(list, k) || e == list[k]
    {
      InRemoved(list, k, e);
    }
  }

  /** The list after a flush has the new description and all the others. */
  lemma {:induction false} ListAfterHolds(list: seq<Description>, k: nat, d: Description, fileSize: nat,
                                          blockSize: nat, total: nat)
    requires k < |list|
    ensures forall e :: e in ListAfter(list, k, d, fileSize, blockSize, total) <==> e == d || e in Remove(list, k)
  {
    hide SpaceFor, MoveBefore, Remove;
    var changed, after := list[k := d], ListAfter(list, k, d, fileSize, blockSize, total);
    var space := SpaceFor(list, fileSize, blockSize, total);
    if list[k].regionCount == 0 && space.Before? {
      MovedIsPermutation(changed, k, space.index);
      assert forall e :: e in after <==> e in multiset(after);
      assert forall e :: e in changed <==> e in multiset(changed);
    }
    forall e
      ensures e in changed <==> e == d || e in Remove(list, k)
    {
      InRemoved(list, k, e);
      assert changed[k] == d;
      if l :| 0 <= l < |list| && l != k && list[l] == e {
        assert changed[l] == e;
      }
    }
  }

  lemma {:induction false} FilesAfterFlush(list: seq<Description>, k: nat, d: Description, fileSize: nat,
                                           blockSize: nat, total: nat)
    requires k < |list| && blockSize > DESCRIPTION_SIZE
    ensures FilesOf(ListAfter(list, k, d, fileSize, blockSize, total), blockSize)
            == FilesOf(Remove(list, k), blockSize) + Own(MirrorOf(d, blockSize))
  {
    hide ListAfter, Remove, MirrorOf;
    OwnOfMirror(d, blockSize);
    ListAfterHolds(list, k, d, fileSize, blockSize, total);
  }

  /** Nothing at all, or the truth about name, size and place. */
  predicate IsTruthful(d: Description, blockSize: nat)
    requires blockSize > DESCRIPTION_SIZE
  {
    Shaped(d) &&
    (d == NO_DESCRIPTION ||
     (&& d.regionCount == 1
      && d.blockEnd == d.blockStart + BlockSpan(d.regions[0].size, blockSize)
      && WithFooterChecksum(d) == d
      && IsImageValid(d, d.blockEnd)))
  }

  lemma TruthfulIsConsistent(t: Target, d: Description)
    requires t.blockSize > DESCRIPTION_SIZE && StartOf(d, t.blockSize) == t.fileStart
    ensures IsTruthful(d, t.blockSize) && d.regionCount != 0 <==> Consistent(t, MirrorOf(d, t.blockSize))
  {
    assert NO_DESCRIPTION.regionCount == 0;
  }

  ghost predicate Sane(s: VolumeState, g: Geometry) {
    && IsMedia(s.media, g.blocks, g.blockSize)
    && (forall i :: 0 <= i < |s.list| ==> IsTruthful(s.list[i], g.blockSize))
  }

  // ---------- one operation ----------

  function TargetIn(s: VolumeState, op: Operation, g: Geometry): Option<Target>
    requires op.Flush? && op.k < |s.list| && Shaped(s.list[op.k])
  {
    TargetOf(s.list, op.k, op.info, g.blockSize, g.Total())
  }

  /** A flush of a file there is, which has or finds a place and whose numbers fit 32 bits. */
  ghost predicate IsAimed(s: VolumeState, op: Operation, g: Geometry)
    requires op.Flush? && g.blockSize > DESCRIPTION_SIZE
  {
    && op.k < |s.list| && Shaped(s.list[op.k]) && IsName(op.info.name)
    && (s.list[op.k].regionCount == 0 ==> op.info.name != [])
    && AllWithin(op.pending, op.info.fileSize)
    && TargetIn(s, op, g).Some?
    && TargetIn(s, op, g).value.blockSize > 0
    && Small(TargetIn(s, op, g).value, op.info.fileSize)
  }

  /** The writes of a flush and the description it leaves. */
  ghost function Flushed(s: VolumeState, op: Operation, g: Geometry): Outcome
    requires op.Flush? && g.blockSize > DESCRIPTION_SIZE && IsAimed(s, op, g)
  {
    TargetIsNamed(s.list, op.k, op.info, g.blockSize, g.Total());
    BootMonFlush.FlushFile(TargetIn(s, op, g).value, MirrorOf(s.list[op.k], g.blockSize), op.pending, op.info.fileSize)
  }

  ghost predicate WritesNoImage(s: VolumeState, op: Operation, g: Geometry)
    requires IsMedia(s.media, g.blocks, g.blockSize) && op.Flush? && IsAimed(s, op, g)
  {
    TargetIsNamed(s.list, op.k, op.info, g.blockSize, g.Total());
    DataIsNoImage(AfterAll(s.media, Flushed(s, op, g).writes), g.blocks, TargetIn(s, op, g).value,
                  MirrorOf(s.list[op.k], g.blockSize), op.pending, op.info.fileSize)
  }

  /** An operation on a file there is. A flush finds a place, is not refused by the disk or for lack of
      space, has numbers that fit 32 bits, and writes no data that could be taken for a description. Its
      descriptions may land anywhere. What a mount finds is the truth about some file. */
  ghost predicate Can(s: VolumeState, op: Operation, g: Geometry)
    requires Sane(s, g)
  {
    match op
    case Create => true
    case Delete(k) => k < |s.list|
    case Flush(_, _, _) =>
      && IsAimed(s, op, g)
      && Flushed(s, op, g).Done?
      && WritesNoImage(s, op, g)
    case Mount => forall d :: d in Scan(s.media, g.blocks, g.blockSize, 0) ==> IsTruthful(d, g.blockSize)
  }

  ghost function Next(s: VolumeState, op: Operation, g: Geometry): VolumeState
    requires Sane(s, g) && Can(s, op, g)
  {
    match op
    case Create => VolumeState(s.media, [NO_DESCRIPTION] + s.list)
    case Delete(k) =>
      VolumeState(if s.list[k].regionCount == 0 then s.media
                  else AfterAll(s.media, [Write(Place(s.list[k], g.blockSize), Zeros(DESCRIPTION_SIZE))]),
                  Remove(s.list, k))
    case Flush(k, info, _) =>
      VolumeState(AfterAll(s.media, Flushed(s, op, g).writes),
                  ListAfter(s.list, k, Flushed(s, op, g).mirror.description, info.fileSize, g.blockSize, g.Total()))
    case Mount => VolumeState(s.media, Scan(s.media, g.blocks, g.blockSize, 0))
  }

  /** What the driver should keep: files apart and inside the media, and a mount that finds exactly the
      files on the media, with the descriptions the list has, each once and in disk order. */
  ghost predicate IsIntact(s: VolumeState, g: Geometry)
    requires IsMedia(s.media, g.blocks, g.blockSize)
  {
    && AreApart(Extents(s.list, g.blockSize), g.Total())
    && FindsExactly(Scan(s.media, g.blocks, g.blockSize, 0), FilesOf(s.list, g.blockSize))
  }

  /** The same, with every description on the media where its file says. The order of the list is free. */
  ghost predicate Good(s: VolumeState, g: Geometry) {
    && Sane(s, g)
    && AreApart(Extents(s.list, g.blockSize), g.Total())
    && Mountable(s.media, g.blocks, g.blockSize, FilesOf(s.list, g.blockSize))
  }

  lemma {:induction false} GoodIsIntact(s: VolumeState, g: Geometry)
    requires Good(s, g)
    ensures IsIntact(s, g)
  {
    hide NoGhosts, AllOnMedia, AreApart, FindsExactly;
    RemountIffNoGhosts(s.media, g.blocks, g.blockSize, FilesOf(s.list, g.blockSize));
  }

  /** The place of the file takes its final size: these blocks lie in the media and are no other file's. */
  ghost predicate Fits(s: VolumeState, op: Operation, g: Geometry)
    requires op.Flush? && op.k < |s.list| && Shaped(s.list[op.k]) && TargetIn(s, op, g).Some? && g.blockSize > 0
  {
    IsFree(Extents(s.list, g.blockSize)[op.k := None], TargetIn(s, op, g).value.fileStart,
           BlocksTaken(op.info.fileSize, g.blockSize), g.Total())
  }

  /** The condition on an operation, known from places, sizes and offsets before it is carried out. */
  ghost predicate Safe(s: VolumeState, op: Operation, g: Geometry)
    requires Sane(s, g) && Can(s, op, g)
  {
    op.Flush? ==>
      && Fits(s, op, g)
      && EndsWhereDescribed(TargetIn(s, op, g).value, MirrorOf(s.list[op.k], g.blockSize), op.pending, op.info.fileSize)
  }

  // ---------- what an operation leaves ----------

  lemma ConsistentIsTruthful(t: Target, m: Mirror)
    requires t.blockSize > DESCRIPTION_SIZE && Consistent(t, m)
    ensures m == MirrorOf(m.description, t.blockSize) && IsTruthful(m.description, t.blockSize) && m.address != 0
  {
    hide FooterChecksum, IsImageValid;
  }

  lemma {:induction false} AimIsKnown(s: VolumeState, op: Operation, g: Geometry)
    requires Sane(s, g) && op.Flush? && IsAimed(s, op, g)
    ensures var t := TargetIn(s, op, g).value;
            && Usable(t, MirrorOf(s.list[op.k], g.blockSize)) && IsKnown(t, MirrorOf(s.list[op.k], g.blockSize))
            && t.blockSize == g.blockSize
  {
    hide SpaceFor, FooterChecksum, IsImageValid, Consistent;
    var t := TargetIn(s, op, g).value;
    TargetIsNamed(s.list, op.k, op.info, g.blockSize, g.Total());
    if s.list[op.k].regionCount != 0 {
      TruthfulIsConsistent(t, s.list[op.k]);
    }
  }

  lemma {:induction false} FlushedIsTrue(s: VolumeState, op: Operation, g: Geometry)
    requires Sane(s, g) && op.Flush? && Can(s, op, g)
    ensures var t, r := TargetIn(s, op, g).value, Flushed(s, op, g).mirror;
            && Consistent(t, r) && r.description.regions[0].size == op.info.fileSize
            && r == MirrorOf(r.description, g.blockSize) && IsTruthful(r.description, g.blockSize) && r.address != 0
  {
    hide IsTruthful, MirrorOf, Consistent, IsKnown, Usable, TargetIn, BootMonFlush.FlushFile;
    AimIsKnown(s, op, g);
    FlushedIsConsistent(TargetIn(s, op, g).value, MirrorOf(s.list[op.k], g.blockSize), op.pending, op.info.fileSize);
    ConsistentIsTruthful(TargetIn(s, op, g).value, Flushed(s, op, g).mirror);
  }

  lemma {:induction false} NextIsSane(s: VolumeState, op: Operation, g: Geometry)
    requires Sane(s, g) && Can(s, op, g)
    ensures Sane(Next(s, op, g), g)
  {
    hide IsTruthful, TargetIn, WritesNoImage, ListAfter, AfterAll, Consistent, Place, BootMonFlush.FlushFile, Scan;
    NothingIsTruthful(g.blockSize);
    match op
    case Create =>
    case Delete(k) =>
      assert forall d :: d in Next(s, op, g).list ==> d in s.list;
    case Flush(k, info, _) =>
      FlushedIsTrue(s, op, g);
      ListAfterHolds(s.list, k, Flushed(s, op, g).mirror.description, info.fileSize, g.blockSize, g.Total());
      assert forall d :: d in Next(s, op, g).list ==> IsTruthful(d, g.blockSize);
    case Mount =>
  }

  lemma NothingIsTruthful(blockSize: nat)
    requires blockSize > DESCRIPTION_SIZE
    ensures IsTruthful(NO_DESCRIPTION, blockSize)
  {
  }

  // ---------- where a flush lies among the other files ----------

  lemma {:induction false} OwnBlocks(s: VolumeState, op: Operation, g: Geometry)
    requires Sane(s, g) && op.Flush? && Can(s, op, g)
    ensures var t, d := TargetIn(s, op, g).value, Flushed(s, op, g).mirror.description;
            && t.blockSize == g.blockSize && d.regionCount != 0 && StartOf(d, g.blockSize) == t.fileStart
            && BlockEndOf(d.blockEnd, g.blockSize) == t.fileStart + BlocksTaken(op.info.fileSize, g.blockSize)
            && ExtentOf(d, g.blockSize)
               == Some(Extent(t.fileStart, t.fileStart + BlocksTaken(op.info.fileSize, g.blockSize)))
  {
    hide TargetIn, WritesNoImage, Flushed, IsTruthful, FooterChecksum, IsImageValid, BlocksTaken;
    AimIsKnown(s, op, g);
    FlushedIsTrue(s, op, g);
    ConsistentExtent(TargetIn(s, op, g).value, Flushed(s, op, g).mirror);
  }

  /** The files after a flush are apart if the new place of the file is free of all others. */
  lemma {:induction false} ListAfterIsApart(list: seq<Description>, k: nat, d: Description, fileSize: nat, g: Geometry)
    requires k < |list|
    ensures AreApart(Extents(ListAfter(list, k, d, fileSize, g.blockSize, g.Total()), g.blockSize), g.Total())
            <==> AreApart(Extents(list, g.blockSize)[k := ExtentOf(d, g.blockSize)], g.Total())
  {
    hide SpaceFor, MoveBefore, AreApart, ExtentOf;
    var changed := list[k := d];
    var space := SpaceFor(list, fileSize, g.blockSize, g.Total());
    assert Extents(changed, g.blockSize) == Extents(list, g.blockSize)[k := ExtentOf(d, g.blockSize)];
    if list[k].regionCount == 0 && space.Before? {
      ExtentsOfMoved(changed, k, space.index, g.blockSize);
      MovedStaysApart(Extents(changed, g.blockSize), k, space.index, g.Total());
    }
  }

  lemma {:induction false} ApartAfterFlush(s: VolumeState, op: Operation, g: Geometry)
    requires Sane(s, g) && op.Flush? && Can(s, op, g) && AreApart(Extents(s.list, g.blockSize), g.Total())
    ensures AreApart(Extents(Next(s, op, g).list, g.blockSize), g.Total()) <==> Fits(s, op, g)
  {
    hide AreApart, ListAfter, TargetIn, WritesNoImage, Flushed, AfterAll, IsTruthful, BlocksTaken, IsFree, ExtentOf;
    var start := TargetIn(s, op, g).value.fileStart;
    var length := BlocksTaken(op.info.fileSize, g.blockSize);
    OwnBlocks(s, op, g);
    ListAfterIsApart(s.list, op.k, Flushed(s, op, g).mirror.description, op.info.fileSize, g);
    WrittenStaysApart(Extents(s.list, g.blockSize), op.k, Extent(start, start + length), g.Total());
  }

  /** A flush that fits does not write to the blocks of any other file. */
  lemma {:induction false} FlushSparesOther(s: VolumeState, op: Operation, g: Geometry, l: nat)
    requires Sane(s, g) && AreApart(Extents(s.list, g.blockSize), g.Total())
    requires op.Flush? && IsAimed(s, op, g) && Fits(s, op, g)
    requires l < |s.list| && l != op.k && s.list[l].regionCount != 0
    ensures TargetIn(s, op, g).value.blockSize == g.blockSize
    ensures var t, m := TargetIn(s, op, g).value, MirrorOf(s.list[op.k], g.blockSize);
            || BlockEndOf(s.list[l].blockEnd, g.blockSize) <= t.fileStart
            || OwnEnd(t, m, op.info.fileSize) <= StartOf(s.list[l], g.blockSize)
  {
    hide IsTruthful, SpaceFor, StartOf, BlockEndOf;
    var files := Extents(s.list, g.blockSize);
    assert files[op.k := None][l] == files[l] == ExtentOf(s.list[l], g.blockSize);
    AimIsKnown(s, op, g);
    if s.list[op.k].regionCount != 0 {
      assert files[op.k] == ExtentOf(s.list[op.k], g.blockSize);
    }
  }

  /** All blocks that a flush may write to lie in the media, away from the other files. */
  lemma {:induction false} FlushIsApart(s: VolumeState, op: Operation, g: Geometry)
    requires Sane(s, g) && AreApart(Extents(s.list, g.blockSize), g.Total())
    requires op.Flush? && IsAimed(s, op, g) && Fits(s, op, g)
    ensures var t, m := TargetIn(s, op, g).value, MirrorOf(s.list[op.k], g.blockSize);
            && t.blockSize == g.blockSize
            && OwnEnd(t, m, op.info.fileSize) <= g.Total()
            && Apart(FilesOf(Remove(s.list, op.k), g.blockSize), t.fileStart, OwnEnd(t, m, op.info.fileSize),
                     g.blockSize)
  {
    hide IsTruthful, TargetIn, OwnEnd, BlockEndOf, StartOf, Fits, AreApart, Place;
    var t, m := TargetIn(s, op, g).value, MirrorOf(s.list[op.k], g.blockSize);
    AimIsKnown(s, op, g);
    OwnEndInMedia(s, op, g);
    forall f | f in FilesOf(Remove(s.list, op.k), g.blockSize)
      ensures BlockEndOf(f.description.blockEnd, g.blockSize) <= t.fileStart
              || OwnEnd(t, m, op.info.fileSize) <= StartOf(f.description, g.blockSize)
    {
      InRemoved(s.list, op.k, f.description);
      var l :| 0 <= l < |s.list| && l != op.k && s.list[l] == f.description;
      FlushSparesOther(s, op, g, l);
    }
  }

  lemma {:induction false} OwnEndInMedia(s: VolumeState, op: Operation, g: Geometry)
    requires Sane(s, g) && AreApart(Extents(s.list, g.blockSize), g.Total())
    requires op.Flush? && IsAimed(s, op, g) && Fits(s, op, g)
    ensures TargetIn(s, op, g).value.blockSize == g.blockSize
    ensures OwnEnd(TargetIn(s, op, g).value, MirrorOf(s.list[op.k], g.blockSize), op.info.fileSize) <= g.Total()
  {
    hide IsTruthful, SpaceFor, StartOf, BlockEndOf;
    var files := Extents(s.list, g.blockSize);
    AimIsKnown(s, op, g);
    if s.list[op.k].regionCount != 0 {
      assert files[op.k] == ExtentOf(s.list[op.k], g.blockSize);
    }
  }

  /** The old description of a file is on the media and tells the truth. */
  lemma {:induction false} OldIsGood(s: VolumeState, g: Geometry, k: nat)
    requires Good(s, g) && k < |s.list|
    ensures var m := MirrorOf(s.list[k], g.blockSize);
            && OnMedia(s.media, g.blocks, g.blockSize, m)
            && (m.address != 0 ==> GoodOnMedia(s.media, g.blocks, g.blockSize, m))
  {
    hide NoGhosts, AreApart, IsTruthful, OnMedia, FooterChecksum, Place;
    if s.list[k].regionCount != 0 {
      assert MirrorOf(s.list[k], g.blockSize) in FilesOf(s.list, g.blockSize);
    } else {
      NowhereIsOnMedia(s, g, MirrorOf(s.list[k], g.blockSize));
    }
  }

  lemma NowhereIsOnMedia(s: VolumeState, g: Geometry, m: Mirror)
    requires IsMedia(s.media, g.blocks, g.blockSize) && m.address == 0
    ensures OnMedia(s.media, g.blocks, g.blockSize, m)
  {
  }

  lemma {:induction false} EndsInMedia(d: Description, g: Geometry)
    requires g.blockSize > DESCRIPTION_SIZE && BlockEndOf(d.blockEnd, g.blockSize) <= g.Total()
    ensures d.blockEnd < g.blocks
  {
    FactorIsSmaller(d.blockEnd + 1, g.blocks, g.blockSize);
  }

  lemma FactorIsSmaller(a: nat, b: nat, y: nat)
    requires y > 0 && a * y <= b * y
    ensures a <= b
  {
    if a > b {
      ProductGrows(b + 1, a, y);
    }
  }

  /** Every description that the regions leave is inside the media. */
  lemma {:induction false} RegionsEndInMedia(t: Target, m: Mirror, pending: seq<Pending>, fileSize: nat, g: Geometry)
    requires Usable(t, m) && Small(t, fileSize) && AllWithin(pending, fileSize) && IsKnown(t, m)
    requires t.blockSize == g.blockSize && OwnEnd(t, m, fileSize) <= g.Total()
    ensures FlushRegions(t, m, pending).mirror.description.blockEnd < g.blocks
  {
    hide FlushRegions, Renewed, FooterChecksum, IsImageValid, Small;
    var r := FlushRegions(t, m, pending).mirror;
    if m.address != 0 {
      PlacedBehindData(t, m);
    }
    RegionsKeepConsistent(t, m, pending, fileSize);
    RegionsStayInside(t, m, pending, fileSize);
    if r.address != 0 {
      EndsInMedia(r.description, g);
    } else {
      EndsInMedia(NO_DESCRIPTION, g);
    }
  }

  lemma {:induction false} FlushIsInOrder(s: VolumeState, op: Operation, g: Geometry)
    requires Good(s, g) && op.Flush? && Can(s, op, g)
    requires OwnEnd(TargetIn(s, op, g).value, MirrorOf(s.list[op.k], g.blockSize), op.info.fileSize) <= g.Total()
    ensures TargetIn(s, op, g).value.blockSize == g.blockSize
    ensures InOrder(s.media, g.blocks, TargetIn(s, op, g).value, MirrorOf(s.list[op.k], g.blockSize), op.pending,
                    op.info.fileSize)
  {
    hide Mountable, TargetOf, WritesNoImage, Flushed, IsTruthful, FooterChecksum, IsImageValid, AreApart, FilesOf,
         Small, OnMedia, FlushRegions, InOrder, BlocksTaken, GoodOnMedia, OwnEnd, Consistent, BlockEndOf,
         Place;
    var t, m := TargetIn(s, op, g).value, MirrorOf(s.list[op.k], g.blockSize);
    AimIsKnown(s, op, g);
    FlushedIsTrue(s, op, g);
    OwnBlocks(s, op, g);
    FinalIsOwn(t, m, op.info.fileSize);
    EndsInMedia(Flushed(s, op, g).mirror.description, g);
    RegionsEndInMedia(t, m, op.pending, op.info.fileSize, g);
    OldIsGood(s, g, op.k);
    TargetStart(s, op, g);
    FlushedIsFlush(s, op, g);
    KnownIsInOrder(s.media, g.blocks, t, m, op.pending, op.info.fileSize);
  }

  lemma FinalIsOwn(t: Target, m: Mirror, fileSize: nat)
    requires t.blockSize > DESCRIPTION_SIZE
    ensures t.fileStart + BlocksTaken(fileSize, t.blockSize) <= OwnEnd(t, m, fileSize)
  {
  }

  lemma FlushedIsFlush(s: VolumeState, op: Operation, g: Geometry)
    requires op.Flush? && g.blockSize > DESCRIPTION_SIZE && IsAimed(s, op, g)
    requires Usable(TargetIn(s, op, g).value, MirrorOf(s.list[op.k], g.blockSize))
    ensures Flushed(s, op, g) == BootMonFlush.FlushFile(TargetIn(s, op, g).value, MirrorOf(s.list[op.k], g.blockSize),
                                                        op.pending, op.info.fileSize)
  {
  }

  lemma TargetStart(s: VolumeState, op: Operation, g: Geometry)
    requires op.Flush? && op.k < |s.list| && Shaped(s.list[op.k]) && TargetIn(s, op, g).Some?
    ensures var t := TargetIn(s, op, g).value; t.fileEnd == t.fileStart + s.list[op.k].regions[0].size
  {
    hide SpaceFor;
  }

  // ---------- what one operation keeps ----------

  /** After a flush that fits all files are on the media, and the next mount finds exactly these if and only
      if the file ends where its last description is. */
  lemma {:induction false} FlushKeepsMount(s: VolumeState, op: Operation, g: Geometry)
    requires Good(s, g) && op.Flush? && Can(s, op, g) && Fits(s, op, g)
    ensures var next, t, m := Next(s, op, g), TargetIn(s, op, g).value, MirrorOf(s.list[op.k], g.blockSize);
            && t.blockSize == g.blockSize && IsMedia(next.media, g.blocks, g.blockSize)
            && AllOnMedia(next.media, g.blocks, g.blockSize, FilesOf(next.list, g.blockSize))
            && (Mountable(next.media, g.blocks, g.blockSize, FilesOf(next.list, g.blockSize)) <==>
                EndsWhereDescribed(t, m, op.pending, op.info.fileSize))
  {
    hide AreApart, Fits, Mountable, AllOnMedia, InOrder, DataIsNoImage, TargetOf, ListAfter, FilesOf, AfterAll,
         BootMonFlush.FlushFile, EndsWhereDescribed, IsTruthful, IsKnown, Consistent, OwnEnd, Apart, Place,
         FooterChecksum, GoodOnMedia, OnMedia, Remove;
    var t, m, r := TargetIn(s, op, g).value, MirrorOf(s.list[op.k], g.blockSize), Flushed(s, op, g).mirror;
    var others := FilesOf(Remove(s.list, op.k), g.blockSize);
    AimIsKnown(s, op, g);
    FlushedIsTrue(s, op, g);
    FlushedIsFlush(s, op, g);
    FlushIsApart(s, op, g);
    FlushIsInOrder(s, op, g);
    OldIsGood(s, g, op.k);
    GoodHasChecksum(s, g, m);
    FilesBesides(s.list, op.k, g.blockSize);
    FilesAfterFlush(s.list, op.k, r.description, op.info.fileSize, g.blockSize, g.Total());
    FlushKeepsMountable(s.media, g.blocks, t, m, op.pending, op.info.fileSize, others);
  }

  lemma GoodHasChecksum(s: VolumeState, g: Geometry, m: Mirror)
    requires IsMedia(s.media, g.blocks, g.blockSize)
    ensures GoodOnMedia(s.media, g.blocks, g.blockSize, m) ==> WithFooterChecksum(m.description) == m.description
  {
  }

  /** Files that are apart are not one and the same. */
  lemma {:induction false} OwnIsNotOther(s: VolumeState, g: Geometry, k: nat)
    requires AreApart(Extents(s.list, g.blockSize), g.Total()) && g.blockSize >= DESCRIPTION_SIZE
    requires k < |s.list| && s.list[k].regionCount != 0
    ensures MirrorOf(s.list[k], g.blockSize) !in FilesOf(Remove(s.list, k), g.blockSize)
  {
    hide Remove, Place, StartOf, BlockEndOf;
    var files := Extents(s.list, g.blockSize);
    InRemoved(s.list, k, s.list[k]);
    forall l | 0 <= l < |s.list| && l != k
      ensures s.list[l] != s.list[k]
    {
      assert files[l] == ExtentOf(s.list[l], g.blockSize) && files[k] == ExtentOf(s.list[k], g.blockSize);
    }
  }

  lemma {:induction false} DeleteKeepsMount(s: VolumeState, op: Operation, g: Geometry)
    requires Good(s, g) && op.Delete? && Can(s, op, g)
    ensures var next := Next(s, op, g);
            && IsMedia(next.media, g.blocks, g.blockSize)
            && Mountable(next.media, g.blocks, g.blockSize, FilesOf(next.list, g.blockSize))
  {
    hide AreApart, Mountable, FilesOf, AfterAll, IsTruthful, Place, OnMedia, GoodOnMedia, Remove;
    FilesBesides(s.list, op.k, g.blockSize);
    OwnOfMirror(s.list[op.k], g.blockSize);
    if s.list[op.k].regionCount == 0 {
      assert FilesOf(s.list, g.blockSize) == FilesOf(Remove(s.list, op.k), g.blockSize);
    } else {
      OldIsGood(s, g, op.k);
      OwnIsNotOther(s, g, op.k);
      RemoveKeepsMountable(s.media, g.blocks, g.blockSize, MirrorOf(s.list[op.k], g.blockSize),
                           FilesOf(Remove(s.list, op.k), g.blockSize));
    }
  }

  lemma DeletedIsApart(s: VolumeState, g: Geometry, k: nat)
    requires k < |s.list| && AreApart(Extents(s.list, g.blockSize), g.Total())
    ensures AreApart(Extents(Remove(s.list, k), g.blockSize), g.Total())
  {
    hide ExtentOf;
    var files, after := Extents(s.list, g.blockSize), Extents(Remove(s.list, k), g.blockSize);
    assert forall a :: 0 <= a < |after| ==> after[a] == files[if a < k then a else a + 1];
  }

  lemma {:induction false} CreateKeepsVolume(s: VolumeState, g: Geometry)
    requires Good(s, g)
    ensures Good(Next(s, Operation.Create, g), g)
  {
    hide Mountable, IsTruthful, MirrorOf;
    NextIsSane(s, Operation.Create, g);
    var list := Next(s, Operation.Create, g).list;
    assert Extents(list, g.blockSize) == [None] + Extents(s.list, g.blockSize);
    assert FilesOf(list, g.blockSize) == FilesOf(s.list, g.blockSize);
  }

  // ---------- mounting ----------

  /** What a mount finds are the files on the media. */
  lemma {:induction false} FoundIsListed(s: VolumeState, g: Geometry)
    requires IsMedia(s.media, g.blocks, g.blockSize) && IsIntact(s, g)
    ensures forall d :: d in Scan(s.media, g.blocks, g.blockSize, 0) <==> d in s.list && d.regionCount != 0
  {
    hide AreApart, Scan, Place;
    var scan := Scan(s.media, g.blocks, g.blockSize, 0);
    forall d | d in s.list && d.regionCount != 0
      ensures d in scan
    {
      assert MirrorOf(d, g.blockSize) in FilesOf(s.list, g.blockSize);
      assert MirrorOf(d, g.blockSize).description in Descriptions(FilesOf(s.list, g.blockSize));
    }
  }

  /** A mount finds the files apart, and in the order in which they lie on the media. */
  lemma {:induction false} FoundIsInOrder(s: VolumeState, g: Geometry)
    requires IsMedia(s.media, g.blocks, g.blockSize) && IsIntact(s, g)
    ensures var scan := Scan(s.media, g.blocks, g.blockSize, 0);
            AreApart(Extents(scan, g.blockSize), g.Total()) && Layout(Extents(scan, g.blockSize), g.Total())
  {
    hide Scan, StartOf, BlockEndOf, Layout;
    var scan := Scan(s.media, g.blocks, g.blockSize, 0);
    FoundIsListed(s, g);
    var found, files := Extents(scan, g.blockSize), Extents(s.list, g.blockSize);
    forall i, j | 0 <= i < |scan| && 0 <= j < |scan| && i != j
      ensures found[i].Some? && found[i].value.from < found[i].value.to <= g.Total()
      ensures found[i].value.to <= found[j].value.from || found[j].value.to <= found[i].value.from
    {
      assert scan[i] in s.list && scan[j] in s.list && scan[i] != scan[j];
      var a, b :| 0 <= a < |s.list| && 0 <= b < |s.list| && s.list[a] == scan[i] && s.list[b] == scan[j];
      assert files[a] == found[i] && files[b] == found[j];
    }
    forall i | 0 <= i < |scan|
      ensures found[i].Some? && found[i].value.from < found[i].value.to <= g.Total()
    {
      assert scan[i] in s.list;
      var a :| 0 <= a < |s.list| && s.list[a] == scan[i];
      assert files[a] == found[i];
    }
    RisingIsInOrder(scan, g);
  }

  /** Files that are apart are in disk order if their last blocks are. */
  lemma {:induction false} RisingIsInOrder(list: seq<Description>, g: Geometry)
    requires AreApart(Extents(list, g.blockSize), g.Total()) && IsRising(list)
    requires forall i :: 0 <= i < |list| ==> list[i].regionCount != 0
    ensures Layout(Extents(list, g.blockSize), g.Total())
  {
    hide StartOf, BlockEndOf;
    var files := Extents(list, g.blockSize);
    forall i, j | 0 <= i < j < |files|
      ensures files[i].value.to <= files[j].value.from
    {
      LaterBlocksEndLater(list[i].blockEnd, list[j].blockEnd, g.blockSize);
    }
  }

  lemma LaterBlocksEndLater(a: nat, b: nat, blockSize: nat)
    requires a < b
    ensures BlockEndOf(a, blockSize) <= BlockEndOf(b, blockSize)
  {
    ProductGrows(a + 1, b + 1, blockSize);
  }

  /** A mount is possible after every safe run, and puts the list in disk order again. */
  lemma {:induction false} MountRestoresOrder(s: VolumeState, g: Geometry)
    requires Good(s, g)
    ensures Can(s, Operation.Mount, g)
    ensures var next := Next(s, Operation.Mount, g); Good(next, g) && Layout(Extents(next.list, g.blockSize), g.Total())
  {
    hide AreApart, Layout, Mountable, IsTruthful, MirrorOf, Scan, FindsExactly;
    GoodIsIntact(s, g);
    FoundIsListed(s, g);
    FoundIsInOrder(s, g);
    var scan := Scan(s.media, g.blocks, g.blockSize, 0);
    assert forall d :: d in s.list ==> IsTruthful(d, g.blockSize);
    assert FilesOf(scan, g.blockSize) == FilesOf(s.list, g.blockSize);
  }

  lemma {:induction false} FlushKeepsVolume(s: VolumeState, op: Operation, g: Geometry)
    requires Good(s, g) && op.Flush? && Can(s, op, g)
    ensures IsMedia(Next(s, op, g).media, g.blocks, g.blockSize)
    ensures IsIntact(Next(s, op, g), g) <==> Safe(s, op, g)
    ensures Safe(s, op, g) ==> Good(Next(s, op, g), g)
  {
    var next := Next(s, op, g);
    NextIsSane(s, op, g);
    ApartAfterFlush(s, op, g);
    hide Can, Next, AreApart, Fits, AllOnMedia, NoGhosts, EndsWhereDescribed, Flushed, TargetIn, FilesOf, FindsExactly,
         Scan;
    if Fits(s, op, g) {
      FlushKeepsMount(s, op, g);
      RemountIffNoGhosts(next.media, g.blocks, g.blockSize, FilesOf(next.list, g.blockSize));
    }
  }

  /** After an operation the files are apart and a mount finds exactly these, if and only if the operation is
      safe. */
  lemma {:induction false} OperationKeepsVolume(s: VolumeState, op: Operation, g: Geometry)
    requires Good(s, g) && Can(s, op, g)
    ensures IsMedia(Next(s, op, g).media, g.blocks, g.blockSize)
    ensures IsIntact(Next(s, op, g), g) <==> Safe(s, op, g)
    ensures Safe(s, op, g) ==> Good(Next(s, op, g), g)
  {
    hide AreApart, Mountable, IsIntact, Scan, IsTruthful, FilesOf, Layout;
    match op
    case Flush(_, _, _) =>
      FlushKeepsVolume(s, op, g);
    case Create =>
      CreateKeepsVolume(s, g);
      GoodIsIntact(Next(s, op, g), g);
    case Delete(k) =>
      NextIsSane(s, op, g);
      DeletedIsApart(s, g, k);
      DeleteKeepsMount(s, op, g);
      GoodIsIntact(Next(s, op, g), g);
    case Mount =>
      MountRestoresOrder(s, g);
      GoodIsIntact(Next(s, op, g), g);
  }

  // ---------- runs ----------

  ghost predicate IsRun(s: VolumeState, run: seq<Operation>, g: Geometry)
    requires Sane(s, g)
    decreases |run|
  {
    run != [] ==>
      && Can(s, run[0], g)
      && (NextIsSane(s, run[0], g); IsRun(Next(s, run[0], g), run[1..], g))
  }

  ghost predicate IntactThroughout(s: VolumeState, run: seq<Operation>, g: Geometry)
    requires Sane(s, g) && IsRun(s, run, g)
    decreases |run|
  {
    && IsIntact(s, g)
    && (run != [] ==> (NextIsSane(s, run[0], g); IntactThroughout(Next(s, run[0], g), run[1..], g)))
  }

  ghost predicate SafeThroughout(s: VolumeState, run: seq<Operation>, g: Geometry)
    requires Sane(s, g) && IsRun(s, run, g)
    decreases |run|
  {
    run != [] ==>
      && Safe(s, run[0], g)
      && (NextIsSane(s, run[0], g); SafeThroughout(Next(s, run[0], g), run[1..], g))
  }

  /** Files are created, flushed and deleted and the media mounted anew, in any order. After every step the
      files lie apart and a mount gives back exactly those on the media, if and only if every flush went to a
      place that takes its final size and ended where its last description was. */
  lemma {:induction false} RunKeepsVolume(s: VolumeState, run: seq<Operation>, g: Geometry)
    requires Good(s, g) && IsRun(s, run, g)
    ensures IntactThroughout(s, run, g) <==> SafeThroughout(s, run, g)
    decreases |run|
  {
    hide Can, Next, Safe, IsIntact;
    GoodIsIntact(s, g);
    if run != [] {
      OperationKeepsVolume(s, run[0], g);
      NextIsSane(s, run[0], g);
      if Safe(s, run[0], g) {
        RunKeepsVolume(Next(s, run[0], g), run[1..], g);
      }
    }
  }

  /** A volume without files, on media that shows no description, is where a run can start. */
  lemma {:induction false} EmptyIsGood(media: Media, g: Geometry)
    requires IsMedia(media, g.blocks, g.blockSize)
    ensures Good(VolumeState(media, []), g) <==> Scan(media, g.blocks, g.blockSize, 0) == []
  {
    hide ShowsImage, Scan;
    RemountIffNoGhosts(media, g.blocks, g.blockSize, {});
    assert FilesOf([], g.blockSize) == {};
    var scan := Scan(media, g.blocks, g.blockSize, 0);
    assert Descriptions({}) == {};
    assert scan != [] ==> scan[0] in scan;
  }

  // ---------- the order of the list ----------

  /** The size fits the space that was found, without filling it to the byte, or the room up to the next file. */
  predicate HasRoom(s: VolumeState, op: Operation, g: Geometry)
    requires op.Flush? && op.k < |s.list| && g.blockSize > 0
    requires s.list[op.k].regionCount == 0 ==> !SpaceFor(s.list, op.info.fileSize, g.blockSize, g.Total()).VolumeFull?
  {
    if s.list[op.k].regionCount == 0 then
      op.info.fileSize + DESCRIPTION_SIZE != RoomFor(s.list, op.info.fileSize, g.blockSize, g.Total())
    else
      StartOf(s.list[op.k], g.blockSize) + BlocksTaken(op.info.fileSize, g.blockSize)
      <= RoomEnd(Extents(s.list, g.blockSize), op.k, g.Total())
  }

  lemma AimHasSpace(s: VolumeState, op: Operation, g: Geometry)
    requires op.Flush? && g.blockSize > DESCRIPTION_SIZE && IsAimed(s, op, g)
    ensures s.list[op.k].regionCount == 0 ==> !SpaceFor(s.list, op.info.fileSize, g.blockSize, g.Total()).VolumeFull?
    ensures s.list[op.k].regionCount == 0 ==>
              TargetIn(s, op, g).value.fileStart == SpaceFor(s.list, op.info.fileSize, g.blockSize, g.Total()).start
    ensures s.list[op.k].regionCount != 0 ==> TargetIn(s, op, g).value.fileStart == StartOf(s.list[op.k], g.blockSize)
  {
    hide FirstFit;
  }

  /** While the list is in disk order, every place the driver finds takes the file, as long as there is room
      for its size. This holds for a new file anywhere in the list. */
  lemma {:induction false} InOrderFitsIffRoom(s: VolumeState, op: Operation, g: Geometry)
    requires op.Flush? && g.blockSize > DESCRIPTION_SIZE && IsAimed(s, op, g) && g.Total() < UINT64_SPAN
    requires Layout(Extents(s.list, g.blockSize), g.Total())
    requires s.list[op.k].regionCount == 0 ==> !SpaceFor(s.list, op.info.fileSize, g.blockSize, g.Total()).VolumeFull?
    ensures Fits(s, op, g) <==> HasRoom(s, op, g)
  {
    hide Layout, FirstFit, IsFree, EndOf, RoomEnd, BlocksTaken, TargetIn, Small, StartOf, BlockEndOf;
    var files, length := Extents(s.list, g.blockSize), BlocksTaken(op.info.fileSize, g.blockSize);
    AimHasSpace(s, op, g);
    if s.list[op.k].regionCount == 0 {
      assert files[op.k := None] == files;
      SpaceIsFree(files, op.info.fileSize + DESCRIPTION_SIZE, length, g.Total());
      NewFileFits(s.list, op.info.fileSize, g.blockSize, g.blocks);
    } else {
      assert files[op.k] == ExtentOf(s.list[op.k], g.blockSize);
      RoomIsFree(files, op.k, length, g.Total());
    }
  }

  function Start(s: VolumeState, op: Operation, g: Geometry): Snapshot
    requires op.Flush? && op.k < |s.list| && g.blockSize >= DESCRIPTION_SIZE
  {
    Snapshot(MirrorOf(s.list[op.k], g.blockSize), op.pending, s.media)
  }

  ghost function End(s: VolumeState, op: Operation, g: Geometry): Snapshot
    requires op.Flush? && g.blockSize > DESCRIPTION_SIZE && IsAimed(s, op, g)
  {
    Snapshot(Flushed(s, op, g).mirror, [], AfterAll(s.media, Flushed(s, op, g).writes))
  }

  /** The order of the list is a matter of its own: it is lost by a new file that goes behind all others
      without having been last in the list, even if it fits. */
  lemma {:induction false} LayoutAfterFlush(s: VolumeState, op: Operation, g: Geometry)
    requires Sane(s, g) && op.Flush? && Can(s, op, g) && Layout(Extents(s.list, g.blockSize), g.Total())
    requires s.list[op.k].regionCount == 0 ==> !SpaceFor(s.list, op.info.fileSize, g.blockSize, g.Total()).VolumeFull?
    ensures Layout(Extents(Next(s, op, g).list, g.blockSize), g.Total()) <==>
            && HasRoom(s, op, g)
            && (s.list[op.k].regionCount == 0 ==>
                  SpaceFor(s.list, op.info.fileSize, g.blockSize, g.Total()).Before? || op.k == |s.list| - 1)
  {
    hide Layout, ListAfter, TargetOf, WritesNoImage, BootMonFlush.FlushFile, AfterAll, Consistent, Small, SpaceFor;
    AimIsKnown(s, op, g);
    assert Reflects(Success, TargetIn(s, op, g).value, op.info.fileSize, Start(s, op, g), End(s, op, g));
    hide Reflects;
    if s.list[op.k].regionCount == 0 {
      FirstFlushKeepsLayout(s.list, op.k, op.info, g.blockSize, g.blocks, Start(s, op, g), End(s, op, g));
    } else {
      LaterFlushKeepsLayout(s.list, op.k, op.info, g.blockSize, g.Total(), Start(s, op, g), End(s, op, g));
    }
  }

  /** In any state of a run the check for space lets a file on the media grow without end exactly if the next
      file of the list starts before it, or is not on the media. */
  lemma {:induction false} GrowsWithoutEndIff(s: VolumeState, g: Geometry, k: nat, info: Info)
    requires Sane(s, g) && AreApart(Extents(s.list, g.blockSize), g.Total())
    requires k < |s.list| && s.list[k].regionCount != 0
    ensures Shaped(s.list[k])
    ensures AcceptsAnySize(TargetOf(s.list, k, info, g.blockSize, g.Total()).value, MirrorOf(s.list[k], g.blockSize))
            <==> k + 1 < |s.list| && StartOf(s.list[k + 1], g.blockSize) < StartOf(s.list[k], g.blockSize)
  {
    hide AreApart, AcceptsAnySize, Place, Consistent, FooterChecksum, IsImageValid;
    var t := TargetOf(s.list, k, info, g.blockSize, g.Total()).value;
    TruthfulIsConsistent(t, s.list[k]);
    SpaceIsRunaway(s.list, k, info, g.blockSize, g.Total());
  }

  // ---------- the driver and the next mount ----------

  ghost function StateOf(v: Volume): VolumeState
    reads v`files, v.files, v.disk.data
  {
    VolumeState(v.disk.data[..], v.List())
  }

  function GeometryOf(disk: Disk): Geometry {
    Geometry(disk.lastBlock + 1, disk.blockSize)
  }

  /** Every file of the volume keeps the address of its description where its description says. */
  ghost predicate IsAddressed(v: Volume)
    requires v.disk.Valid()
    reads v`files, v.files
  {
    forall f :: f in v.files ==> f.Mirror() == MirrorOf(f.description, v.disk.blockSize)
  }

  lemma RenewedIsAddressed(t: Target, m: Mirror, dataSize: nat)
    requires Usable(t, m)
    ensures Renewed(t, m, dataSize) == MirrorOf(Renewed(t, m, dataSize).description, t.blockSize)
  {
    hide Place, FooterChecksum, StringCopy, LastBlockOf;
  }

  lemma {:induction false} RegionsKeepAddress(t: Target, m: Mirror, pending: seq<Pending>)
    requires Usable(t, m) && m == MirrorOf(m.description, t.blockSize)
    ensures var r := FlushRegions(t, m, pending).mirror; r == MirrorOf(r.description, t.blockSize)
    decreases |pending|
  {
    hide Renewed, MirrorOf;
    if pending != [] {
      RegionsKeepAddress(t, m, pending[..|pending| - 1]);
      RenewedIsAddressed(t, FlushRegions(t, m, pending[..|pending| - 1]).mirror, RegionEnd(pending[|pending| - 1]));
    }
  }

  /** However a flush ends, the address kept for the description is that of the description in memory. */
  lemma {:induction false} OutcomeIsAddressed(status: Status, t: Target, fileSize: nat, before: Snapshot,
                                              after: Snapshot)
    requires Usable(t, before.mirror) && before.mirror == MirrorOf(before.mirror.description, t.blockSize)
    requires Reflects(status, t, fileSize, before, after)
    ensures after.mirror == MirrorOf(after.mirror.description, t.blockSize)
  {
    hide Renewed, MirrorOf, FlushRegions, AfterAll, RegionWrites;
    RegionsKeepAddress(t, before.mirror, before.pending);
    RenewedIsAddressed(t, FlushRegions(t, before.mirror, before.pending).mirror, fileSize);
    if status == DeviceError && IsStopped(t, before, after) {
      var k: nat, done: nat :| IsStoppedAt(t, before, k, done, after);
      RegionsKeepAddress(t, before.mirror, before.pending[..k]);
      RenewedIsAddressed(t, FlushRegions(t, before.mirror, before.pending[..k]).mirror, RegionEnd(before.pending[k]));
    }
  }

  /** One state comes after another by an operation of a run. */
  ghost predicate Follows(s: VolumeState, op: Operation, g: Geometry, next: VolumeState) {
    Sane(s, g) && Can(s, op, g) ==> next == Next(s, op, g)
  }

  /** The operation that a flush of a file is. */
  ghost function FlushOf(v: Volume, file: File): Operation
    requires v.Valid() && file in v.files && file.info.Some?
    reads v`files, v.files
  {
    Flush(v.IndexOf(file), file.info.value, file.pending)
  }

  lemma {:induction false} NextAfterFlush(s: VolumeState, op: Operation, g: Geometry, after: Snapshot)
    requires Sane(s, g) && op.Flush? && Can(s, op, g)
    requires Usable(TargetIn(s, op, g).value, MirrorOf(s.list[op.k], g.blockSize))
    requires Reflects(Success, TargetIn(s, op, g).value, op.info.fileSize, Start(s, op, g), after)
    ensures Next(s, op, g) ==
            VolumeState(after.media, ListAfter(s.list, op.k, after.mirror.description, op.info.fileSize, g.blockSize,
                                               g.Total()))
  {
    hide BootMonFlush.FlushFile, ListAfter, TargetOf;
  }

  /** A flush that succeeds is the operation Flush of a run. However it ends, the addresses stay right. */
  method FlushInRun(v: Volume, file: File) returns (status: Status)
    requires v.Valid() && file in v.files && file.info.Some? && file.openMode != ReadOnly && IsAddressed(v)
    modifies v`files, file`description, file`address, file`pending, v.disk`requests, v.disk.data
    ensures v.Valid() && IsAddressed(v)
    ensures status == Success ==>
              Follows(old(StateOf(v)), old(FlushOf(v, file)), GeometryOf(v.disk), StateOf(v))
  {
    ghost var aim, s, op, g := v.Aim(file), StateOf(v), FlushOf(v, file), GeometryOf(v.disk);
    TargetIsNamed(v.List(), v.IndexOf(file), file.info.value, v.disk.blockSize, v.disk.MediaSize());
    hide Follows, MirrorOf, TargetOf, v.IndexOf, v.WasFlushed, Shaped, StringIn;
    status := v.FlushFile(file);
    FlushedFollows(v, file, status, old(v.files), aim, op, s, old(v.Seen(file)));
  }

  /** What FlushFile promises about a volume, said as an operation of a run. */
  lemma {:induction false} FlushedFollows(v: Volume, file: File, status: BootMonVolume.Status, before: seq<File>,
                                          aim: Option<Target>, op: Operation, s: VolumeState, seen: Snapshot)
    requires v.Valid() && file.info.Some? && file.openMode != ReadOnly && |before| == |s.list|
    requires op.Flush? && op.k < |s.list| && before[op.k] == file && op.info == file.info.value
    requires Shaped(s.list[op.k]) && aim == TargetIn(s, op, GeometryOf(v.disk))
    requires aim.Some? ==> Usable(aim.value, seen.mirror) && aim.value.blockSize == v.disk.blockSize
    requires seen == Snapshot(MirrorOf(s.list[op.k], v.disk.blockSize), op.pending, s.media)
    requires v.WasFlushed(status, file, before, s.list, aim, op.k, seen)
    requires forall i :: 0 <= i < |before| && i != op.k ==> before[i].description == s.list[i]
    ensures file.Mirror() == MirrorOf(file.description, v.disk.blockSize)
    ensures status == Success ==> Follows(s, op, GeometryOf(v.disk), StateOf(v))
  {
    hide Can, Sane, Next, Place, TargetOf, Reflects, Relinked, ListAfter, DescriptionsOf;
    if aim.Some? {
      OutcomeIsAddressed(status, aim.value, file.info.value.fileSize, seen, v.Seen(file));
    }
    if status == Success && Sane(s, GeometryOf(v.disk)) && Can(s, op, GeometryOf(v.disk)) {
      ListFollowsFiles(v, file, file.info.value.fileSize, before, s.list, op.k);
      NextAfterFlush(s, op, GeometryOf(v.disk), v.Seen(file));
    }
  }

  /** Creating a file is the operation Create. */
  method CreateInRun(v: Volume, name: seq<Byte>, attributes: bv64) returns (file: File)
    requires v.Valid() && IsName(name) && !IsTaken(name, v.files) && IsAddressed(v)
    requires Sane(StateOf(v), GeometryOf(v.disk))
    modifies v`files
    ensures v.Valid() && IsAddressed(v)
    ensures StateOf(v) == old(Next(StateOf(v), Operation.Create, GeometryOf(v.disk)))
  {
    hide StringIn, IsTruthful;
    file := CreateFile(v, name, attributes);
    assert v.List() == [NO_DESCRIPTION] + old(v.List());
  }

  /** Deleting a file is the operation Delete. */
  method DeleteInRun(v: Volume, file: File) returns (status: Status)
    requires v.Valid() && file in v.files && IsAddressed(v)
    requires Sane(StateOf(v), GeometryOf(v.disk))
    modifies v`files, file`pending, v.disk`requests, v.disk.data
    ensures v.Valid() && IsAddressed(v)
    ensures status == Success ==>
            StateOf(v) == old(Next(StateOf(v), Operation.Delete(v.IndexOf(file)), GeometryOf(v.disk)))
  {
    hide StringIn, IsTruthful, Place, AfterAll;
    ghost var k := v.IndexOf(file);
    status := BootMonDirectory.Delete(v, file);
    if status == Success {
      assert v.List() == Remove(old(v.List()), k);
    }
  }

  /** A fresh volume on the disk is mounted: that is the operation Mount. If the disk holds what a run has
      kept, exactly the files on the media come back, with their descriptions and in disk order, and the run
      can go on with them. */
  method MountAgain(disk: Disk, ghost s: VolumeState) returns (v: Volume)
    requires disk.Valid() && (forall n :: n >= disk.requests ==> disk.works(n)) && s.media == disk.data[..]
    modifies disk`requests
    ensures fresh(v) && v.Valid() && v.disk == disk && v.initialized && v.lowestAlignedLba == 0
    ensures v.List() == Scan(disk.data[..], disk.lastBlock + 1, disk.blockSize, 0)
    ensures IsIntact(s, GeometryOf(disk)) ==>
              && FindsExactly(v.List(), FilesOf(s.list, disk.blockSize)) && IsAddressed(v)
              && Layout(Extents(v.List(), disk.blockSize), disk.MediaSize())
    ensures Good(s, GeometryOf(disk)) ==>
              && Can(s, Operation.Mount, GeometryOf(disk)) && StateOf(v) == Next(s, Operation.Mount, GeometryOf(disk))
              && Good(StateOf(v), GeometryOf(disk))
    ensures disk.data[..] == old(disk.data[..])
  {
    hide Layout, AreApart, Mountable, MountScan, Scan, IsTruthful, FirstRefused, DescriptionsOf, FindsExactly, FilesOf;
    v := new Volume(disk, 0);
    ghost var n := disk.requests;
    var status := Initialize(v, n => true);
    assert StopOf(v, n, 0) == disk.lastBlock + 1;
    NothingBehind(v);
    UnshiftedScan(disk.data[..], disk.lastBlock + 1, disk.blockSize, 0);
    assert v.List()[0..] == v.List();
    if IsIntact(s, GeometryOf(disk)) {
      FoundIsListed(s, GeometryOf(disk));
      FoundIsInOrder(s, GeometryOf(disk));
      MountedIsAddressed(v);
    }
    if Good(s, GeometryOf(disk)) {
      MountRestoresOrder(s, GeometryOf(disk));
    }
  }

  lemma NothingBehind(v: Volume)
    requires v.disk.Valid()
    ensures ScanOf(v, v.disk.lastBlock + 1) == []
  {
  }

  lemma {:induction false} MountedIsAddressed(v: Volume)
    requires v.Valid() && v.lowestAlignedLba == 0
    requires forall d :: d in v.List() ==> d.regionCount != 0
    requires forall i :: 0 <= i < |v.files| ==> IsMounted(v, v.files[i])
    ensures IsAddressed(v)
  {
    hide Place;
    forall i | 0 <= i < |v.files|
      ensures v.files[i].Mirror() == MirrorOf(v.files[i].description, v.disk.blockSize)
    {
      assert v.List()[i] in v.List();
    }
  }
}
