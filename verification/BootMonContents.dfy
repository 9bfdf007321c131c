/** What the files of a volume hold: over runs, across a mount, and as it is read. */
module BootMonContents {
  import opened Bytes
  import opened Options
  import opened BootMonFormat
  import opened BootMonAllocator
  import opened BootMonFlush
  import opened BootMonMount
  import opened BootMonRegions
  import opened BootMonVolume
  import opened BootMonRuns
  import opened BootMonRemount
  import opened BootMonVolumeRuns

  // The bytes of a file that are settled, by their position in the file. Bytes in a gap left by seeking
  // past the end, and bytes that a description spoilt, are not among them.
  type Known = map<nat, Byte>

  predicate IsQueued(pending: seq<Pending>, j: nat) {
    exists k :: 0 <= k < |pending| && pending[k].offset <= j < RegionEnd(pending[k])
  }

  /** A byte that was settled or is written, and that no description or wipe has the last word on. */
  predicate IsSettled(t: Target, m: Mirror, pending: seq<Pending>, known: Known, j: nat)
    requires Usable(t, m)
  {
    IsKept(t, m, pending, t.fileStart + j) && (j in known || IsQueued(pending, j))
  }

  /** What a flush should leave: what was there, overlaid by what was queued, up to the size. */
  function KnownAfter(t: Target, m: Mirror, pending: seq<Pending>, fileSize: nat, known: Known): Known
    requires Usable(t, m)
  {
    map j: nat | j < fileSize && IsSettled(t, m, pending, known, j) ::
        Overlay(pending, j, if j in known then known[j] else 0)
  }

  /** No byte of the file is lost exactly if everything that lands on data is covered. */
  lemma {:induction false} NothingIsLostIffCovered(t: Target, m: Mirror, pending: seq<Pending>, fileSize: nat,
                                                   known: Known)
    requires Usable(t, m) && t.fileStart <= t.fileEnd
    requires forall j :: j in known <==> 0 <= j < t.fileEnd - t.fileStart
    ensures (forall j: nat :: j < fileSize && (j in known || IsQueued(pending, j)) ==>
               j in KnownAfter(t, m, pending, fileSize, known))
            <==> LandingsCovered(t, m, pending, fileSize)
  {
    hide IsKept, IsRepaired, IsData, Overlay, IsQueued;
    if LandingsCovered(t, m, pending, fileSize) {
      forall j: nat | j < fileSize && (j in known || IsQueued(pending, j))
        ensures j in KnownAfter(t, m, pending, fileSize, known)
      {
        DataIsQueued(t, pending, j);
        KeptIffRepaired(t, m, pending, t.fileStart + j);
      }
    } else {
      var n: nat, i: nat :| n < |pending| && IsData(t, pending, i) && i < t.fileStart + fileSize
                            && !IsRepaired(t, m, pending, n, i);
      DataIsBehindStart(t, pending, i);
      var j := i - t.fileStart;
      DataIsQueued(t, pending, j);
      KeptIffRepaired(t, m, pending, i);
      assert j !in KnownAfter(t, m, pending, fileSize, known);
    }
  }

  lemma DataIsBehindStart(t: Target, pending: seq<Pending>, i: nat)
    requires IsData(t, pending, i)
    ensures t.fileStart <= i
  {
  }

  lemma DataIsQueued(t: Target, pending: seq<Pending>, j: nat)
    ensures IsData(t, pending, t.fileStart + j) <==> t.fileStart + j < t.fileEnd || IsQueued(pending, j)
  {
    var writes := DataWrites(t, pending);
    assert forall k :: 0 <= k < |pending| ==>
        (Covers(writes[k], t.fileStart + j) <==> pending[k].offset <= j < RegionEnd(pending[k]));
  }

  lemma {:induction false} QueuedDecides(pending: seq<Pending>, j: nat, a: Byte, b: Byte)
    requires IsQueued(pending, j)
    ensures Overlay(pending, j, a) == Overlay(pending, j, b)
  {
    var last := |pending| - 1;
    if !(pending[last].offset <= j < RegionEnd(pending[last])) {
      var k :| 0 <= k < |pending| && pending[k].offset <= j < RegionEnd(pending[k]);
      assert pending[..last][k] == pending[k];
      QueuedDecides(pending[..last], j, a, b);
    }
  }

  /** A settled byte of a file after its flush. */
  lemma {:induction false} SettledByte(t: Target, m: Mirror, pending: seq<Pending>, fileSize: nat, known: Known, j: nat,
                                       before: Byte)
    requires Usable(t, m) && Small(t, fileSize) && BootMonFlush.FlushFile(t, m, pending, fileSize).Done?
    requires j in KnownAfter(t, m, pending, fileSize, known) && (j in known ==> before == known[j])
    ensures After(BootMonFlush.FlushFile(t, m, pending, fileSize).writes, t.fileStart + j, before)
            == KnownAfter(t, m, pending, fileSize, known)[j]
  {
    hide IsKept, Overlay, After, BootMonFlush.FlushFile, FlushRegions;
    RegionsAreDone(t, m, pending, fileSize);
    FinalIsBehind(t, m, pending, fileSize, t.fileStart + j, before);
    KeptIsOverlaid(t, m, pending, t.fileStart + j, before);
    OverlayIsData(t, pending, j, before);
    if j !in known {
      QueuedDecides(pending, j, before, 0);
    }
  }

  // ---------- the files of a volume ----------

  /** The settled bytes of a file are on the media, at the place its description tells. */
  predicate Holds(media: Media, d: Description, blockSize: nat, known: Known) {
    forall j :: j in known ==>
      && d.regionCount != 0 && |d.regions| > 0 && j < d.regions[0].size
      && StartOf(d, blockSize) + j < |media| && media[StartOf(d, blockSize) + j] == known[j]
  }

  ghost predicate HoldsAll(s: VolumeState, known: seq<Known>, g: Geometry) {
    |known| == |s.list| && forall i :: 0 <= i < |s.list| ==> Holds(s.media, s.list[i], g.blockSize, known[i])
  }

  /** The contents of the file with some description; nothing is known of a description that is not listed. */
  function KnownOf(list: seq<Description>, known: seq<Known>, d: Description): Known
    requires |known| == |list|
  {
    if list == [] then map[]
    else if list[0] == d then known[0]
    else KnownOf(list[1..], known[1..], d)
  }

  /** The contents of the files that a mount finds, in the order in which it finds them. */
  function KnownFound(scan: seq<Description>, list: seq<Description>, known: seq<Known>): (found: seq<Known>)
    requires |known| == |list|
    ensures |found| == |scan|
  {
    seq(|scan|, i requires 0 <= i < |scan| => KnownOf(list, known, scan[i]))
  }

  /** What an operation should make of the contents of all files: nothing but the file flushed changes. */
  ghost function KnownNext(s: VolumeState, op: Operation, g: Geometry, known: seq<Known>): (next: seq<Known>)
    requires Sane(s, g) && Can(s, op, g) && |known| == |s.list|
    ensures |next| == |Next(s, op, g).list|
  {
    match op
    case Create => [map[]] + known
    case Delete(k) => Remove(known, k)
    case Flush(k, info, pending) =>
      AimIsKnown(s, op, g);
      var flushed := KnownAfter(TargetIn(s, op, g).value, MirrorOf(s.list[k], g.blockSize), pending, info.fileSize,
                                known[k]);
      Relinked(known[k := flushed], s.list, k, info.fileSize, g.blockSize, g.Total())
    case Mount => KnownFound(Scan(s.media, g.blocks, g.blockSize, 0), s.list, known)
  }

  // ---------- one operation ----------

  /** A byte of a file lies inside its blocks, and the blocks in the media. */
  lemma {:induction false} ByteIsInBlocks(s: VolumeState, g: Geometry, l: nat, j: nat)
    requires Sane(s, g) && AreApart(Extents(s.list, g.blockSize), g.Total())
    requires l < |s.list| && s.list[l].regionCount != 0 && j < s.list[l].regions[0].size
    ensures StartOf(s.list[l], g.blockSize) + j < Place(s.list[l], g.blockSize)
    ensures BlockEndOf(s.list[l].blockEnd, g.blockSize) <= |s.media|
  {
    hide FooterChecksum, IsImageValid;
    var d := s.list[l];
    assert Extents(s.list, g.blockSize)[l] == ExtentOf(d, g.blockSize);
    var t := Target([], StartOf(d, g.blockSize), 0, 0, g.blockSize);
    TruthfulIsConsistent(t, d);
    PlacedBehindData(t, MirrorOf(d, g.blockSize));
  }

  lemma {:induction false} OutsideIsUntouched(writes: seq<Write>, from: nat, to: nat, i: nat, before: Byte)
    requires forall w :: w in writes ==> IsInside(w, from, to)
    requires i < from || to <= i
    ensures After(writes, i, before) == before
  {
    forall k | 0 <= k < |writes|
      ensures !Covers(writes[k], i)
    {
      assert writes[k] in writes;
    }
    AfterUntouched(writes, i, before);
  }

  /** No byte of any other file changes in a flush that fits, wherever its descriptions land and in whatever
      order the list has the files. */
  lemma {:induction false} OthersKeepBytes(s: VolumeState, op: Operation, g: Geometry, l: nat, j: nat)
    requires Sane(s, g) && AreApart(Extents(s.list, g.blockSize), g.Total())
    requires op.Flush? && Can(s, op, g) && Fits(s, op, g)
    requires l < |s.list| && l != op.k && s.list[l].regionCount != 0 && j < s.list[l].regions[0].size
    ensures StartOf(s.list[l], g.blockSize) + j < |s.media|
    ensures var i := StartOf(s.list[l], g.blockSize) + j; Next(s, op, g).media[i] == s.media[i]
  {
    hide AreApart, Fits, WritesNoImage, TargetOf, ListAfter, IsTruthful, OwnEnd, BootMonFlush.FlushFile, After,
         Consistent;
    var t, m := TargetIn(s, op, g).value, MirrorOf(s.list[op.k], g.blockSize);
    var i := StartOf(s.list[l], g.blockSize) + j;
    ByteIsInBlocks(s, g, l, j);
    FlushSparesOther(s, op, g, l);
    AimIsKnown(s, op, g);
    FlushedIsFlush(s, op, g);
    KnownIsBehind(t, m);
    FlushStaysInside(t, m, op.pending, op.info.fileSize);
    OutsideIsUntouched(Flushed(s, op, g).writes, t.fileStart, OwnEnd(t, m, op.info.fileSize), i, s.media[i]);
  }

  lemma KnownIsBehind(t: Target, m: Mirror)
    requires Usable(t, m) && IsKnown(t, m)
    ensures m.address != 0 ==> t.fileStart <= m.address
  {
    hide FooterChecksum, IsImageValid;
    if m.address != 0 {
      PlacedBehindData(t, m);
    }
  }

  /** A settled byte of the file flushed. */
  lemma {:induction false} OwnBytesAreFlushed(s: VolumeState, op: Operation, g: Geometry, known: Known, j: nat)
    requires Good(s, g) && op.Flush? && Can(s, op, g) && Fits(s, op, g)
    requires Holds(s.media, s.list[op.k], g.blockSize, known)
    requires Usable(TargetIn(s, op, g).value, MirrorOf(s.list[op.k], g.blockSize))
    requires j in KnownAfter(TargetIn(s, op, g).value, MirrorOf(s.list[op.k], g.blockSize), op.pending,
                             op.info.fileSize, known)
    ensures var t, d := TargetIn(s, op, g).value, Flushed(s, op, g).mirror.description;
            && d.regionCount != 0 && |d.regions| > 0 && j < d.regions[0].size
            && StartOf(d, g.blockSize) == t.fileStart && t.fileStart + j < |s.media|
            && AfterAll(s.media, Flushed(s, op, g).writes)[t.fileStart + j]
               == KnownAfter(t, MirrorOf(s.list[op.k], g.blockSize), op.pending, op.info.fileSize, known)[j]
  {
    hide AreApart, Fits, Mountable, WritesNoImage, ListAfter, IsTruthful, OwnEnd, BootMonFlush.FlushFile,
         After, IsSettled, SpaceFor, FooterChecksum, IsImageValid, IsKnown;
    var t, m := TargetIn(s, op, g).value, MirrorOf(s.list[op.k], g.blockSize);
    AimIsKnown(s, op, g);
    FlushedIsTrue(s, op, g);
    FlushedIsFlush(s, op, g);
    OwnBlocks(s, op, g);
    OwnEndInMedia(s, op, g);
    FinalIsOwn(t, m, op.info.fileSize);
    SpanBounds(op.info.fileSize, g.blockSize);
    SettledByte(t, m, op.pending, op.info.fileSize, known, j, s.media[t.fileStart + j]);
  }

  /** An entry of a list after a flush, and of the contents: both come from the same place. */
  lemma {:induction false} SameOrigin<T>(s: seq<T>, list: seq<Description>, k: nat, d: Description, fileSize: nat,
                                         blockSize: nat, total: nat, a: nat) returns (l: nat)
    requires |s| == |list| && k < |list| && a < |list|
    ensures l < |list|
    ensures ListAfter(list, k, d, fileSize, blockSize, total)[a] == if l == k then d else list[l]
    ensures Relinked(s, list, k, fileSize, blockSize, total)[a] == s[l]
  {
    hide SpaceFor, MoveBefore;
    var space := SpaceFor(list, fileSize, blockSize, total);
    l := a;
    if list[k].regionCount == 0 && space.Before? {
      MovedAt(s, k, space.index, a);
      MovedAt(list[k := d], k, space.index, a);
      l := Origin(k, space.index, a);
    }
  }

  lemma {:induction false} FlushKeepsContents(s: VolumeState, op: Operation, g: Geometry, known: seq<Known>)
    requires Good(s, g) && op.Flush? && Can(s, op, g) && Fits(s, op, g)
    requires HoldsAll(s, known, g)
    ensures HoldsAll(Next(s, op, g), KnownNext(s, op, g, known), g)
  {
    hide Mountable, AreApart, WritesNoImage, KnownAfter, TargetOf, ListAfter, Relinked, MirrorOf, Flushed, AfterAll,
         Fits, IsTruthful, Holds;
    AimIsKnown(s, op, g);
    var t, m, d := TargetIn(s, op, g).value, MirrorOf(s.list[op.k], g.blockSize), Flushed(s, op, g).mirror.description;
    var own := KnownAfter(t, m, op.pending, op.info.fileSize, known[op.k]);
    var next, after := Next(s, op, g), KnownNext(s, op, g, known);
    assert after == Relinked(known[op.k := own], s.list, op.k, op.info.fileSize, g.blockSize, g.Total());
    forall a | 0 <= a < |next.list|
      ensures Holds(next.media, next.list[a], g.blockSize, after[a])
    {
      var l := SameOrigin(known[op.k := own], s.list, op.k, d, op.info.fileSize, g.blockSize, g.Total(), a);
      if l == op.k {
        OwnContents(s, op, g, known[op.k]);
      } else {
        OtherContents(s, op, g, l, known[l]);
      }
    }
  }

  lemma {:induction false} OwnContents(s: VolumeState, op: Operation, g: Geometry, known: Known)
    requires Good(s, g) && op.Flush? && Can(s, op, g) && Fits(s, op, g)
    requires Holds(s.media, s.list[op.k], g.blockSize, known)
    requires Usable(TargetIn(s, op, g).value, MirrorOf(s.list[op.k], g.blockSize))
    ensures Holds(Next(s, op, g).media, Flushed(s, op, g).mirror.description, g.blockSize,
                  KnownAfter(TargetIn(s, op, g).value, MirrorOf(s.list[op.k], g.blockSize), op.pending,
                             op.info.fileSize, known))
  {
    hide Mountable, AreApart, WritesNoImage, KnownAfter, TargetOf, ListAfter, Flushed, Fits,
         IsTruthful, After, MirrorOf;
    var after := KnownAfter(TargetIn(s, op, g).value, MirrorOf(s.list[op.k], g.blockSize), op.pending,
                            op.info.fileSize, known);
    forall j | j in after
      ensures var d, media := Flushed(s, op, g).mirror.description, Next(s, op, g).media;
              && d.regionCount != 0 && |d.regions| > 0 && j < d.regions[0].size
              && StartOf(d, g.blockSize) + j < |media| && media[StartOf(d, g.blockSize) + j] == after[j]
    {
      OwnBytesAreFlushed(s, op, g, known, j);
    }
  }

  lemma {:induction false} OtherContents(s: VolumeState, op: Operation, g: Geometry, l: nat, known: Known)
    requires Good(s, g) && op.Flush? && Can(s, op, g) && Fits(s, op, g)
    requires l < |s.list| && l != op.k && Holds(s.media, s.list[l], g.blockSize, known)
    ensures Holds(Next(s, op, g).media, s.list[l], g.blockSize, known)
  {
    hide Mountable, AreApart, WritesNoImage, TargetIn, ListAfter, Flushed, Fits, IsTruthful,
         AfterAll, IsAimed;
    forall j | j in known
      ensures Next(s, op, g).media[StartOf(s.list[l], g.blockSize) + j] == known[j]
    {
      OthersKeepBytes(s, op, g, l, j);
    }
  }

  lemma {:induction false} DeleteKeepsContents(s: VolumeState, op: Operation, g: Geometry, known: seq<Known>)
    requires Good(s, g) && op.Delete? && Can(s, op, g)
    requires HoldsAll(s, known, g)
    ensures HoldsAll(Next(s, op, g), KnownNext(s, op, g, known), g)
  {
    hide Mountable, AreApart, IsTruthful, AfterAll, Place, Holds;
    var next, after := Next(s, op, g), KnownNext(s, op, g, known);
    forall a | 0 <= a < |next.list|
      ensures Holds(next.media, next.list[a], g.blockSize, after[a])
    {
      var l := if a < op.k then a else a + 1;
      assert next.list[a] == s.list[l] && after[a] == known[l];
      if s.list[op.k].regionCount != 0 {
        WipeSparesContents(s, g, op.k, l, known[l]);
      }
    }
  }

  lemma {:induction false} WipeSparesContents(s: VolumeState, g: Geometry, k: nat, l: nat, known: Known)
    requires Good(s, g) && k < |s.list| && s.list[k].regionCount != 0
    requires l < |s.list| && l != k && Holds(s.media, s.list[l], g.blockSize, known)
    ensures Holds(AfterAll(s.media, [Write(Place(s.list[k], g.blockSize), Zeros(DESCRIPTION_SIZE))]), s.list[l],
                  g.blockSize, known)
  {
    hide Mountable, AreApart, IsTruthful, AfterAll, Place, StartOf;
    var after := AfterAll(s.media, [Write(Place(s.list[k], g.blockSize), Zeros(DESCRIPTION_SIZE))]);
    forall j | j in known
      ensures after[StartOf(s.list[l], g.blockSize) + j] == known[j]
    {
      WipeSparesByte(s, g, k, l, j);
    }
  }

  lemma {:induction false} WipeSparesByte(s: VolumeState, g: Geometry, k: nat, l: nat, j: nat)
    requires Good(s, g) && k < |s.list| && s.list[k].regionCount != 0
    requires l < |s.list| && l != k && s.list[l].regionCount != 0 && j < s.list[l].regions[0].size
    ensures StartOf(s.list[l], g.blockSize) + j < |s.media|
    ensures var i := StartOf(s.list[l], g.blockSize) + j;
            AfterAll(s.media, [Write(Place(s.list[k], g.blockSize), Zeros(DESCRIPTION_SIZE))])[i] == s.media[i]
  {
    hide Mountable, IsTruthful, After, StartOf, BlockEndOf;
    var files := Extents(s.list, g.blockSize);
    assert files[k] == ExtentOf(s.list[k], g.blockSize) && files[l] == ExtentOf(s.list[l], g.blockSize);
    ByteIsInBlocks(s, g, l, j);
    StartIsBeforePlace(s, g, k);
    OneWrite(s.media, Write(Place(s.list[k], g.blockSize), Zeros(DESCRIPTION_SIZE)));
  }

  lemma StartIsBeforePlace(s: VolumeState, g: Geometry, k: nat)
    requires Sane(s, g) && k < |s.list| && s.list[k].regionCount != 0
    ensures StartOf(s.list[k], g.blockSize) <= Place(s.list[k], g.blockSize)
    ensures Place(s.list[k], g.blockSize) + DESCRIPTION_SIZE == BlockEndOf(s.list[k].blockEnd, g.blockSize)
  {
    hide FooterChecksum;
    TailIsBehindStart(s.list[k], g.blockSize);
  }

  lemma {:induction false} KnownIsHeld(media: Media, list: seq<Description>, known: seq<Known>, g: Geometry,
                                       d: Description)
    requires HoldsAll(VolumeState(media, list), known, g)
    ensures Holds(media, d, g.blockSize, KnownOf(list, known, d))
  {
    hide Holds;
    if list == [] {
      NothingHolds(media, d, g.blockSize);
    } else if list[0] != d {
      assert forall i :: 0 <= i < |list| - 1 ==> list[1..][i] == list[i + 1] && known[1..][i] == known[i + 1];
      assert forall i :: 0 <= i < |list| - 1 ==> Holds(media, list[1..][i], g.blockSize, known[1..][i]);
      KnownIsHeld(media, list[1..], known[1..], g, d);
    }
  }

  /** What a mount finds holds what the files held. */
  lemma {:induction false} MountHoldsAll(s: VolumeState, g: Geometry, known: seq<Known>)
    requires IsMedia(s.media, g.blocks, g.blockSize) && HoldsAll(s, known, g)
    ensures var scan := Scan(s.media, g.blocks, g.blockSize, 0);
            HoldsAll(VolumeState(s.media, scan), KnownFound(scan, s.list, known), g)
  {
    hide Holds, Scan, KnownOf;
    var scan := Scan(s.media, g.blocks, g.blockSize, 0);
    forall i | 0 <= i < |scan|
      ensures Holds(s.media, scan[i], g.blockSize, KnownFound(scan, s.list, known)[i])
    {
      KnownIsHeld(s.media, s.list, known, g, scan[i]);
    }
  }

  /** Every operation that fits does to the contents of the files what it should and nothing else. */
  lemma {:induction false} OperationKeepsContents(s: VolumeState, op: Operation, g: Geometry, known: seq<Known>)
    requires Good(s, g) && Can(s, op, g) && (op.Flush? ==> Fits(s, op, g))
    requires HoldsAll(s, known, g)
    ensures HoldsAll(Next(s, op, g), KnownNext(s, op, g, known), g)
  {
    hide Mountable, AreApart, IsTruthful, Holds, Scan, KnownFound, Fits;
    match op
    case Create =>
      NothingHolds(s.media, NO_DESCRIPTION, g.blockSize);
    case Delete(_) =>
      DeleteKeepsContents(s, op, g, known);
    case Flush(_, _, _) =>
      FlushKeepsContents(s, op, g, known);
    case Mount =>
      MountHoldsAll(s, g, known);
  }

  lemma NothingHolds(media: Media, d: Description, blockSize: nat)
    ensures Holds(media, d, blockSize, map[])
  {
  }

  // ---------- runs ----------

  /** The contents of all files are what the operations so far should have made of them, after every step. */
  ghost predicate HoldsThroughout(s: VolumeState, run: seq<Operation>, g: Geometry, known: seq<Known>)
    requires Sane(s, g) && IsRun(s, run, g)
    decreases |run|
  {
    && HoldsAll(s, known, g)
    && (run != [] ==>
          (NextIsSane(s, run[0], g); HoldsThroughout(Next(s, run[0], g), run[1..], g, KnownNext(s, run[0], g, known))))
  }

  /** Read-after-write over runs: after every step of a safe run every file holds its old bytes overlaid by
      what its own flushes wrote, whatever was done to the other files in between, and however often the
      media was mounted anew. */
  lemma {:induction false} RunKeepsContents(s: VolumeState, run: seq<Operation>, g: Geometry, known: seq<Known>)
    requires Good(s, g) && IsRun(s, run, g) && SafeThroughout(s, run, g)
    requires HoldsAll(s, known, g)
    ensures HoldsThroughout(s, run, g, known)
    decreases |run|
  {
    hide Can, Next, Fits, Mountable, AreApart, IsTruthful, Holds, KnownNext, EndsWhereDescribed;
    if run != [] {
      OperationKeepsVolume(s, run[0], g);
      OperationKeepsContents(s, run[0], g, known);
      NextIsSane(s, run[0], g);
      RunKeepsContents(Next(s, run[0], g), run[1..], g, KnownNext(s, run[0], g, known));
    }
  }

  // ---------- the next mount ----------

  /** A fresh volume on the disk of a run holds what the files on the media held: the contents come back
      with the descriptions. */
  method MountWithContents(disk: Disk, ghost s: VolumeState, ghost known: seq<Known>) returns (v: Volume)
    requires disk.Valid() && (forall n :: n >= disk.requests ==> disk.works(n)) && s.media == disk.data[..]
    requires IsIntact(s, GeometryOf(disk)) && HoldsAll(s, known, GeometryOf(disk))
    modifies disk`requests
    ensures fresh(v) && v.Valid() && v.disk == disk && v.initialized && IsAddressed(v) && v.lowestAlignedLba == 0
    ensures FindsExactly(v.List(), FilesOf(s.list, disk.blockSize))
    ensures HoldsAll(StateOf(v), KnownFound(v.List(), s.list, known), GeometryOf(disk))
    ensures disk.data[..] == old(disk.data[..])
  {
    MountHoldsAll(s, GeometryOf(disk), known);
    hide IsIntact, HoldsAll, Scan, FindsExactly, KnownFound, Layout;
    v := MountAgain(disk, s);
  }

  // ---------- reading ----------

  /** What a read returns of a file that holds something. */
  lemma {:induction false} ReadsWhatIsHeld(media: Media, d: Description, blockSize: nat, known: Known, fileSize: nat,
                                           position: nat, length: nat, bytes: seq<Byte>)
    requires Holds(media, d, blockSize, known)
    requires IsRead(BootMonVolume.Success, bytes, media, ShiftedStart(0, d, blockSize), fileSize, position, length)
    ensures forall j :: 0 <= j < |bytes| && position + j in known ==> bytes[j] == known[position + j]
  {
  }

  /** What the file holds once it was flushed for a read; a file opened for reading only is not. */
  ghost function KnownBeforeRead(v: Volume, file: File, known: seq<Known>): Known
    requires v.Valid() && file in v.files && file.info.Some? && |known| == |v.files|
    requires Sane(StateOf(v), GeometryOf(v.disk))
    requires file.openMode == ReadOnly || Can(StateOf(v), FlushOf(v, file), GeometryOf(v.disk))
    reads v`files, v.files, v.disk.data
  {
    var k := v.IndexOf(file);
    if file.openMode == ReadOnly then known[k]
    else
      AimIsKnown(StateOf(v), FlushOf(v, file), GeometryOf(v.disk));
      KnownAfter(TargetIn(StateOf(v), FlushOf(v, file), GeometryOf(v.disk)).value,
                 MirrorOf(v.List()[k], v.disk.blockSize), file.pending, file.info.value.fileSize, known[k])
  }

  // What a read works on, as it was before.
  datatype Setting = Setting(s: VolumeState, op: Operation, aim: Option<Target>, seen: Snapshot, mode: OpenMode,
                             known: Known, settled: Known)

  ghost predicate IsSet(x: Setting, g: Geometry) {
    && Good(x.s, g) && x.op.Flush? && x.op.k < |x.s.list| && Shaped(x.s.list[x.op.k])
    && x.aim == TargetIn(x.s, x.op, g)
    && (x.aim.Some? ==> Usable(x.aim.value, x.seen.mirror) && x.aim.value.blockSize == g.blockSize)
    && x.seen == Snapshot(MirrorOf(x.s.list[x.op.k], g.blockSize), x.op.pending, x.s.media)
    && Holds(x.s.media, x.s.list[x.op.k], g.blockSize, x.known)
    && (if x.mode == ReadOnly then x.settled == x.known
        else && Can(x.s, x.op, g) && Fits(x.s, x.op, g)
             && x.settled == KnownAfter(x.aim.value, x.seen.mirror, x.op.pending, x.op.info.fileSize, x.known))
  }

  ghost function SettingOf(v: Volume, file: File, known: seq<Known>): (x: Setting)
    requires v.Valid() && file in v.files && file.info.Some? && |known| == |v.files|
    requires Sane(StateOf(v), GeometryOf(v.disk))
    requires file.openMode == ReadOnly || Can(StateOf(v), FlushOf(v, file), GeometryOf(v.disk))
    reads v`files, v.files, v.disk.data
  {
    Setting(StateOf(v), FlushOf(v, file), v.Aim(file), v.Seen(file), file.openMode, known[v.IndexOf(file)],
            KnownBeforeRead(v, file, known))
  }

  /** Every file that is open while a volume is in order, with room for what waits, can be read like this. */
  lemma SettingIsSet(v: Volume, file: File, known: seq<Known>)
    requires v.Valid() && file in v.files && file.info.Some? && IsAddressed(v)
    requires Good(StateOf(v), GeometryOf(v.disk)) && HoldsAll(StateOf(v), known, GeometryOf(v.disk))
    requires file.openMode != ReadOnly ==>
               && Can(StateOf(v), FlushOf(v, file), GeometryOf(v.disk))
               && Fits(StateOf(v), FlushOf(v, file), GeometryOf(v.disk))
    ensures IsSet(SettingOf(v, file, known), GeometryOf(v.disk))
  {
    hide TargetOf, KnownAfter, WritesNoImage, Place, Mountable, AreApart, IsTruthful, Fits;
    TargetIsNamed(v.List(), v.IndexOf(file), file.info.value, v.disk.blockSize, v.disk.MediaSize());
  }

  /** A read in a run, in the middle of it or after a mount: whatever is settled of the file is returned. */
  method ReadInRun(v: Volume, file: File, length: nat, ghost x: Setting)
      returns (status: BootMonVolume.Status, bytes: seq<Byte>, ghost flushed: BootMonVolume.Status)
    requires v.Valid() && file in v.files && file.info.Some? && IsAddressed(v) && v.lowestAlignedLba == 0
    requires IsSet(x, GeometryOf(v.disk)) && x.s == StateOf(v) && x.op == FlushOf(v, file)
    requires x.aim == v.Aim(file) && x.seen == v.Seen(file) && x.mode == file.openMode
    modifies v`files, file`description, file`address, file`pending, file`position, v.disk`requests, v.disk.data
    ensures v.Valid() && IsAddressed(v)
    ensures file.openMode != ReadOnly && flushed == BootMonVolume.Success ==>
              Follows(x.s, x.op, GeometryOf(v.disk), StateOf(v))
    ensures status == Success && flushed in {BootMonVolume.Success, AccessDenied} ==>
              forall j :: 0 <= j < |bytes| && old(file.position) + j in x.settled ==>
                bytes[j] == x.settled[old(file.position) + j]
  {
    hide IsSet, v.WasFlushed, StringIn, Follows, MirrorOf, v.IndexOf, v.ReadStart, IsRead, TargetOf;
    ghost var position := file.position;
    status, bytes, flushed := v.ReadFile(file, length);
    ReadFollows(v, file, status, bytes, flushed, old(v.files), x, position, length);
  }

  lemma {:induction false} ReadFollows(v: Volume, file: File, status: BootMonVolume.Status, bytes: seq<Byte>,
                                       flushed: BootMonVolume.Status, before: seq<File>, x: Setting, position: nat,
                                           length: nat)
    requires v.Valid() && v.lowestAlignedLba == 0 && file.info.Some? && file.openMode == x.mode
    requires |before| == |x.s.list|
    requires IsSet(x, GeometryOf(v.disk)) && before[x.op.k] == file && x.op.info == file.info.value
    requires v.WasFlushed(flushed, file, before, x.s.list, x.aim, x.op.k, x.seen)
    requires forall i :: 0 <= i < |before| && i != x.op.k ==> before[i].description == x.s.list[i]
    requires IsRead(status, bytes, v.disk.data[..], v.ReadStart(file), file.info.value.fileSize, position, length)
    ensures file.Mirror() == MirrorOf(file.description, v.disk.blockSize)
    ensures file.openMode != ReadOnly && flushed == BootMonVolume.Success ==>
              Follows(x.s, x.op, GeometryOf(v.disk), StateOf(v))
    ensures status == BootMonVolume.Success && flushed in {BootMonVolume.Success, AccessDenied} ==>
              forall j :: 0 <= j < |bytes| && position + j in x.settled ==> bytes[j] == x.settled[position + j]
  {
    hide Fits, Mountable, AreApart, IsTruthful, KnownAfter, v.WasFlushed, Follows, Place, TargetOf, Holds,
         WritesNoImage;
    if file.openMode == ReadOnly {
      ReadOnlyIsHeld(v, file, flushed, before, x.s, x.op.k, x.aim, x.seen, x.known);
    } else {
      FlushedFollows(v, file, flushed, before, x.aim, x.op, x.s, x.seen);
      FlushedIsHeld(v, file, flushed, before, x.s, x.op, x.aim, x.seen, x.known);
    }
    if status == BootMonVolume.Success && flushed in {BootMonVolume.Success, AccessDenied} {
      ReadsWhatIsHeld(v.disk.data[..], file.description, v.disk.blockSize, x.settled, file.info.value.fileSize,
                      position, length, bytes);
    }
  }

  lemma {:induction false} ReadOnlyIsHeld(v: Volume, file: File, flushed: BootMonVolume.Status, before: seq<File>,
                                          s: VolumeState, k: nat, aim: Option<Target>, seen: Snapshot, known: Known)
    requires file.info.Some? && file.openMode == ReadOnly && |before| == |s.list| && k < |s.list|
    requires aim.Some? ==> Usable(aim.value, seen.mirror)
    requires seen.media == s.media && seen.mirror.description == s.list[k]
    requires v.WasFlushed(flushed, file, before, s.list, aim, k, seen)
    requires Holds(s.media, s.list[k], v.disk.blockSize, known)
    ensures flushed == AccessDenied && Holds(v.disk.data[..], file.description, v.disk.blockSize, known)
    ensures file.Mirror() == seen.mirror
  {
  }

  lemma {:induction false} FlushedIsHeld(v: Volume, file: File, flushed: BootMonVolume.Status, before: seq<File>,
                                         s: VolumeState, op: Operation, aim: Option<Target>, seen: Snapshot,
                                         known: Known)
    requires v.Valid() && Good(s, GeometryOf(v.disk)) && op.Flush? && Can(s, op, GeometryOf(v.disk))
    requires Fits(s, op, GeometryOf(v.disk))
    requires file.info.Some? && file.openMode != ReadOnly && |before| == |s.list| && op.info == file.info.value
    requires aim == TargetIn(s, op, GeometryOf(v.disk)) && (aim.Some? ==> Usable(aim.value, seen.mirror))
    requires seen == Snapshot(MirrorOf(s.list[op.k], v.disk.blockSize), op.pending, s.media)
    requires v.WasFlushed(flushed, file, before, s.list, aim, op.k, seen)
    requires Holds(s.media, s.list[op.k], v.disk.blockSize, known)
    ensures flushed != AccessDenied
    ensures flushed == BootMonVolume.Success ==>
              Holds(v.disk.data[..], file.description, v.disk.blockSize,
                    KnownAfter(aim.value, seen.mirror, op.pending, op.info.fileSize, known))
  {
    hide Mountable, AreApart, WritesNoImage, KnownAfter, TargetOf, ListAfter, Fits, IsTruthful, AfterAll, Holds,
         BootMonFlush.FlushFile, MirrorOf;
    if flushed == BootMonVolume.Success {
      OwnContents(s, op, GeometryOf(v.disk), known);
    }
  }
}
