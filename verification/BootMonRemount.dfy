/** What a flush or a deletion means for the next mount: when it finds exactly the files of the volume, in
    whatever order the list has them. */
module BootMonRemount {
  import opened Bytes
  import opened BootMonFormat
  import opened BootMonFlush
  import opened BootMonMount
  import opened BootMonVolume
  import opened BootMonRuns

  /** Every file has its description on the media, and nothing else looks like one. */
  ghost predicate Mountable(media: Media, blocks: nat, blockSize: nat, files: set<Mirror>)
    requires IsMedia(media, blocks, blockSize)
  {
    AllOnMedia(media, blocks, blockSize, files) && NoGhosts(media, blocks, blockSize, LastBlocks(files))
  }

  /** A file as one of the files on the media, if it is there. */
  function Own(m: Mirror): set<Mirror> {
    if m.address != 0 then {m} else {}
  }

  /** The other files lie elsewhere on the media, from their first block to their last. */
  ghost predicate Apart(others: set<Mirror>, from: nat, to: nat, blockSize: nat) {
    forall f :: f in others ==>
      BlockEndOf(f.description.blockEnd, blockSize) <= from || to <= StartOf(f.description, blockSize)
  }

  lemma {:induction false} TailIsBehindStart(d: Description, blockSize: nat)
    requires blockSize >= DESCRIPTION_SIZE && d.blockStart <= d.blockEnd
    ensures StartOf(d, blockSize) <= LastBytes(d.blockEnd, blockSize)
  {
    ProductGrows(d.blockStart, d.blockEnd, blockSize);
    assert (d.blockEnd + 1) * blockSize == d.blockEnd * blockSize + blockSize;
  }

  /** A flush is in order when its description is where the driver keeps it and the ones it writes are
      inside the media. */
  lemma {:induction false} KnownIsInOrder(media: Media, blocks: nat, t: Target, m: Mirror, pending: seq<Pending>,
                                          fileSize: nat)
    requires IsMedia(media, blocks, t.blockSize)
    requires Usable(t, m) && Small(t, fileSize) && AllWithin(pending, fileSize) && IsKnown(t, m)
    requires OnMedia(media, blocks, t.blockSize, m)
    requires t.fileEnd == t.fileStart + m.description.regions[0].size
    requires BootMonFlush.FlushFile(t, m, pending, fileSize).Done?
    requires BootMonFlush.FlushFile(t, m, pending, fileSize).mirror.description.blockEnd < blocks
    requires FlushRegions(t, m, pending).mirror.description.blockEnd < blocks
    ensures InOrder(media, blocks, t, m, pending, fileSize)
  {
    hide Renewed, FlushRegions, Tail, FooterChecksum, IsImageValid;
    FlushedIsConsistent(t, m, pending, fileSize);
    PlacedBehindData(t, BootMonFlush.FlushFile(t, m, pending, fileSize).mirror);
    if m.address != 0 {
      PlacedBehindData(t, m);
    }
  }

  lemma {:induction false} PlacedBehindData(t: Target, m: Mirror)
    requires t.blockSize > DESCRIPTION_SIZE && Consistent(t, m)
    ensures t.fileStart + m.description.regions[0].size < m.address
  {
    hide FooterChecksum, IsImageValid;
    ConsistentExtent(t, m);
    LengthIsEnough(m.description.regions[0].size, t.blockSize);
  }

  // ---------- the files that a flush does not concern ----------

  lemma {:induction false} TailUntouched(media: Media, blocks: nat, blockSize: nat, writes: seq<Write>, lba: nat,
                                         from: nat, to: nat)
    requires IsMedia(media, blocks, blockSize) && lba < blocks
    requires forall w :: w in writes ==> IsInside(w, from, to)
    requires LastBytes(lba, blockSize) + DESCRIPTION_SIZE <= from || to <= LastBytes(lba, blockSize)
    ensures Tail(AfterAll(media, writes), blocks, blockSize, lba) == Tail(media, blocks, blockSize, lba)
  {
    TailInMedia(lba, blocks, blockSize);
    var at := LastBytes(lba, blockSize);
    forall i | at <= i < at + DESCRIPTION_SIZE
      ensures AfterAll(media, writes)[i] == media[i]
    {
      forall k | 0 <= k < |writes|
        ensures !Covers(writes[k], i)
      {
        assert writes[k] in writes;
      }
      AfterUntouched(writes, i, media[i]);
    }
    assert Tail(AfterAll(media, writes), blocks, blockSize, lba) == Tail(media, blocks, blockSize, lba);
  }

  // ---------- flushing ----------

  /** The description that a flush leaves is on the media, at its place. */
  lemma {:induction false} FlushedIsOnMedia(media: Media, blocks: nat, t: Target, m: Mirror, pending: seq<Pending>,
                                            fileSize: nat)
    requires IsMedia(media, blocks, t.blockSize)
    requires InOrder(media, blocks, t, m, pending, fileSize)
    requires m.address != 0 ==> WithFooterChecksum(m.description) == m.description
    ensures var o := BootMonFlush.FlushFile(t, m, pending, fileSize);
            GoodOnMedia(AfterAll(media, o.writes), blocks, t.blockSize, o.mirror)
  {
    hide Renewed, Tail, Decode, FooterChecksum, IsImageValid, FlushRegions, AfterAll, IsPlaceFree, OnMedia;
    RegionsKeepGood(t, m, pending, fileSize);
    RenewedIsConsistent(t, FlushRegions(t, m, pending).mirror, fileSize);
    FlushShowsLast(media, blocks, t, m, pending, fileSize);
  }

  lemma {:induction false} RegionsKeepGood(t: Target, m: Mirror, pending: seq<Pending>, fileSize: nat)
    requires Usable(t, m) && Small(t, fileSize) && AllWithin(pending, fileSize)
    requires m.address != 0 ==> WithFooterChecksum(m.description) == m.description
    ensures var r := FlushRegions(t, m, pending).mirror;
            r.address != 0 ==> WithFooterChecksum(r.description) == r.description
  {
    hide Renewed, FooterChecksum, FlushRegions;
    RegionsKeepConsistent(t, m, pending, fileSize);
  }

  lemma {:induction false} OtherStaysGood(media: Media, blocks: nat, t: Target, m: Mirror, pending: seq<Pending>,
                                          fileSize: nat, f: Mirror)
    requires IsMedia(media, blocks, t.blockSize)
    requires InOrder(media, blocks, t, m, pending, fileSize)
    requires GoodOnMedia(media, blocks, t.blockSize, f)
    requires BlockEndOf(f.description.blockEnd, t.blockSize) <= t.fileStart
             || OwnEnd(t, m, fileSize) <= LastBytes(f.description.blockEnd, t.blockSize)
    ensures GoodOnMedia(AfterAll(media, BootMonFlush.FlushFile(t, m, pending, fileSize).writes), blocks, t.blockSize, f)
  {
    hide Renewed, Tail, FlushRegions, AfterAll, IsPlaceFree, FooterChecksum, IsImageValid, OwnEnd,
         BootMonFlush.FlushFile;
    FlushStaysInside(t, m, pending, fileSize);
    TailUntouched(media, blocks, t.blockSize, BootMonFlush.FlushFile(t, m, pending, fileSize).writes,
                  f.description.blockEnd, t.fileStart, OwnEnd(t, m, fileSize));
  }

  lemma {:induction false} FlushIsKnown(media: Media, blocks: nat, t: Target, m: Mirror, pending: seq<Pending>,
                                        fileSize: nat)
    requires IsMedia(media, blocks, t.blockSize)
    requires InOrder(media, blocks, t, m, pending, fileSize) && IsKnown(t, m)
    ensures var r := BootMonFlush.FlushFile(t, m, pending, fileSize).mirror;
            Consistent(t, r) && r.description.regions[0].size == fileSize && Own(r) == {r}
  {
    FlushedIsConsistent(t, m, pending, fileSize);
  }

  /** The file is on the media after its flush, and the others still are. */
  lemma {:induction false} FlushKeepsFiles(media: Media, blocks: nat, t: Target, m: Mirror, pending: seq<Pending>,
                                           fileSize: nat, others: set<Mirror>)
    requires IsMedia(media, blocks, t.blockSize)
    requires InOrder(media, blocks, t, m, pending, fileSize) && IsKnown(t, m)
    requires m.address != 0 ==> WithFooterChecksum(m.description) == m.description
    requires Apart(others, t.fileStart, OwnEnd(t, m, fileSize), t.blockSize)
    requires AllOnMedia(media, blocks, t.blockSize, others)
    ensures var o := BootMonFlush.FlushFile(t, m, pending, fileSize);
            AllOnMedia(AfterAll(media, o.writes), blocks, t.blockSize, others + {o.mirror})
  {
    hide IsKnown, GoodOnMedia, BootMonFlush.FlushFile, AfterAll, OwnEnd, OnMedia, IsPlaceFree, FlushRegions,
         IsImageValid, Small, FooterChecksum, LastBytes, BlockEndOf, StartOf;
    var o := BootMonFlush.FlushFile(t, m, pending, fileSize);
    FlushedIsOnMedia(media, blocks, t, m, pending, fileSize);
    forall f | f in others
      ensures GoodOnMedia(AfterAll(media, o.writes), blocks, t.blockSize, f)
    {
      OtherIsOutside(media, blocks, t.blockSize, f, t.fileStart, OwnEnd(t, m, fileSize));
      OtherStaysGood(media, blocks, t, m, pending, fileSize, f);
    }
  }

  /** Neither the description of such a file nor anything in front of it is where a flush writes. */
  lemma {:induction false} OtherIsOutside(media: Media, blocks: nat, blockSize: nat, f: Mirror, from: nat, to: nat)
    requires IsMedia(media, blocks, blockSize) && GoodOnMedia(media, blocks, blockSize, f)
    requires BlockEndOf(f.description.blockEnd, blockSize) <= from || to <= StartOf(f.description, blockSize)
    ensures BlockEndOf(f.description.blockEnd, blockSize) <= from || to <= LastBytes(f.description.blockEnd, blockSize)
  {
    hide FooterChecksum, BlockEndOf, StartOf, LastBytes, OnMedia;
    TailIsBehindStart(f.description, blockSize);
  }

  /** A flush keeps the volume mountable exactly if the file ends in the block of the description
      before the final one; otherwise that description stays, and the file would be found twice. */
  lemma {:induction false} FlushKeepsMountable(media: Media, blocks: nat, t: Target, m: Mirror, pending: seq<Pending>,
                                               fileSize: nat, others: set<Mirror>)
    requires IsMedia(media, blocks, t.blockSize)
    requires InOrder(media, blocks, t, m, pending, fileSize) && IsKnown(t, m)
    requires m.address != 0 ==> WithFooterChecksum(m.description) == m.description
    requires DataIsNoImage(AfterAll(media, BootMonFlush.FlushFile(t, m, pending, fileSize).writes), blocks, t, m,
                           pending, fileSize)
    requires Apart(others, t.fileStart, OwnEnd(t, m, fileSize), t.blockSize)
    requires Mountable(media, blocks, t.blockSize, others + Own(m))
    ensures var o := BootMonFlush.FlushFile(t, m, pending, fileSize);
            && AllOnMedia(AfterAll(media, o.writes), blocks, t.blockSize, others + Own(o.mirror))
            && (Mountable(AfterAll(media, o.writes), blocks, t.blockSize, others + Own(o.mirror)) <==>
                EndsWhereDescribed(t, m, pending, fileSize))
  {
    hide IsKnown, NoGhosts, LeavesBehind, FlushRegions, DescribedSize, AfterAll, DataIsNoImage, OwnEnd, LastBlocks,
         IsPlaceFree, IsImageValid, OnMedia, Small, FooterChecksum, Consistent, BootMonFlush.FlushFile, GoodOnMedia,
         EndsWhereDescribed, Apart;
    var o := BootMonFlush.FlushFile(t, m, pending, fileSize);
    assert AllOnMedia(media, blocks, t.blockSize, others);
    FlushKeepsFiles(media, blocks, t, m, pending, fileSize, others);
    FlushIsKnown(media, blocks, t, m, pending, fileSize);
    OthersAreOutside(media, blocks, t.blockSize, others, t.fileStart, OwnEnd(t, m, fileSize));
    LastBlocksOfBoth(others, Own(m));
    LastBlocksOfBoth(others, Own(o.mirror));
    OneLastBlock(m);
    OneLastBlock(o.mirror);
    FlushKeepsNoGhosts(media, blocks, t, m, pending, fileSize, LastBlocks(others));
    LeavesBehindIffBlocksDiffer(t, m, pending, fileSize);
  }

  lemma OneLastBlock(m: Mirror)
    ensures LastBlocks(Own(m)) == OwnBlock(m)
  {
    if m.address != 0 {
      assert m in Own(m);
    }
  }

  lemma {:induction false} OthersAreOutside(media: Media, blocks: nat, blockSize: nat, others: set<Mirror>, from: nat,
                                            to: nat)
    requires IsMedia(media, blocks, blockSize) && AllOnMedia(media, blocks, blockSize, others)
    requires Apart(others, from, to, blockSize)
    ensures forall lba :: lba in LastBlocks(others) ==> !(from <= LastBytes(lba, blockSize) < to)
  {
    hide GoodOnMedia, StartOf;
    forall lba | lba in LastBlocks(others)
      ensures !(from <= LastBytes(lba, blockSize) < to)
    {
      var f :| f in others && f.description.blockEnd == lba;
      OtherIsOutside(media, blocks, blockSize, f, from, to);
    }
  }

  // ---------- deleting ----------

  lemma {:induction false} TailAfterWipe(media: Media, blocks: nat, blockSize: nat, m: Mirror, lba: nat)
    requires IsMedia(media, blocks, blockSize) && lba < blocks
    requires m.address == Place(m.description, blockSize)
    ensures Tail(AfterAll(media, [Write(m.address, Zeros(DESCRIPTION_SIZE))]), blocks, blockSize, lba) ==
            if m.description.blockEnd == lba then Zeros(DESCRIPTION_SIZE) else Tail(media, blocks, blockSize, lba)
  {
    hide AfterAll;
    TailInMedia(lba, blocks, blockSize);
    if m.description.blockEnd != lba {
      TailsAreApart(m.description.blockEnd, lba, blockSize);
    }
    SliceAfterWrite(media, Write(m.address, Zeros(DESCRIPTION_SIZE)), LastBytes(lba, blockSize));
  }

  lemma {:induction false} WipedKeepsFile(media: Media, blocks: nat, blockSize: nat, m: Mirror, f: Mirror)
    requires IsMedia(media, blocks, blockSize) && f != m
    requires GoodOnMedia(media, blocks, blockSize, m) && GoodOnMedia(media, blocks, blockSize, f)
    ensures GoodOnMedia(AfterAll(media, [Write(m.address, Zeros(DESCRIPTION_SIZE))]), blocks, blockSize, f)
  {
    hide Tail, AfterAll, Decode, FooterChecksum, IsImageValid;
    if f.description.blockEnd == m.description.blockEnd {
      SameBlockSameFile(media, blocks, blockSize, f, m);
    }
    TailAfterWipe(media, blocks, blockSize, m, f.description.blockEnd);
  }

  /** Deleting a file keeps the volume mountable. */
  lemma {:induction false} RemoveKeepsMountable(media: Media, blocks: nat, blockSize: nat, m: Mirror,
                                                others: set<Mirror>)
    requires IsMedia(media, blocks, blockSize) && m.address != 0 && m !in others
    requires Mountable(media, blocks, blockSize, others + {m})
    ensures var wiped := AfterAll(media, [Write(m.address, Zeros(DESCRIPTION_SIZE))]);
            Mountable(wiped, blocks, blockSize, others)
  {
    hide Tail, AfterAll, Decode, FooterChecksum, IsImageValid, LastBlocks, GoodOnMedia;
    var wiped := AfterAll(media, [Write(m.address, Zeros(DESCRIPTION_SIZE))]);
    assert m in others + {m} && Own(m) == {m};
    forall f | f in others
      ensures GoodOnMedia(wiped, blocks, blockSize, f)
    {
      WipedKeepsFile(media, blocks, blockSize, m, f);
    }
    LastBlocksOfBoth(others, {m});
    OneLastBlock(m);
    forall lba: nat | lba < blocks && ShowsImage(wiped, blocks, blockSize, lba)
      ensures lba in LastBlocks(others)
    {
      WipedShowsOthers(media, blocks, blockSize, m, lba);
      assert lba in LastBlocks(others + {m});
    }
  }

  lemma {:induction false} WipedShowsOthers(media: Media, blocks: nat, blockSize: nat, m: Mirror, lba: nat)
    requires IsMedia(media, blocks, blockSize) && GoodOnMedia(media, blocks, blockSize, m) && lba < blocks
    requires ShowsImage(AfterAll(media, [Write(m.address, Zeros(DESCRIPTION_SIZE))]), blocks, blockSize, lba)
    ensures ShowsImage(media, blocks, blockSize, lba) && m.description.blockEnd != lba
  {
    hide Tail, AfterAll, Decode, FooterChecksum, IsImageValid;
    TailAfterWipe(media, blocks, blockSize, m, lba);
    ZerosAreNoImage(lba);
  }
}
