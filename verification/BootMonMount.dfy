/** What the media holds after a flush, and what a mount finds on it. */
module BootMonMount {
  import opened Bytes
  import opened BootMonFormat
  import opened BootMonFlush

  type Media = seq<Byte>

  /** The media after some writes. */
  function AfterAll(media: Media, writes: seq<Write>): (r: Media)
    ensures |r| == |media|
  {
    seq(|media|, i requires 0 <= i < |media| => After(writes, i, media[i]))
  }

  lemma {:induction false} AfterAllConcat(media: Media, a: seq<Write>, b: seq<Write>)
    ensures AfterAll(media, a + b) == AfterAll(AfterAll(media, a), b)
  {
    forall i | 0 <= i < |media|
      ensures AfterAll(media, a + b)[i] == AfterAll(AfterAll(media, a), b)[i]
    {
      AfterConcat(a, b, i, media[i]);
    }
  }

  lemma {:induction false} OneWrite(media: Media, w: Write)
    ensures forall i :: 0 <= i < |media| ==>
              AfterAll(media, [w])[i] == if Covers(w, i) then w.bytes[i - w.at] else media[i]
  {
    forall i | 0 <= i < |media|
      ensures AfterAll(media, [w])[i] == if Covers(w, i) then w.bytes[i - w.at] else media[i]
    {
      AfterAppend([], w, i, media[i]);
      assert [] + [w] == [w];
    }
  }

  /** Whole blocks, each long enough for a description. */
  predicate IsMedia(media: Media, blocks: nat, blockSize: nat) {
    blockSize > DESCRIPTION_SIZE && |media| == blocks * blockSize && |media| < 0x1_0000_0000
  }

  function Slice(media: Media, at: nat): (b: seq<Byte>)
    requires at + DESCRIPTION_SIZE <= |media|
    ensures |b| == DESCRIPTION_SIZE
  {
    media[at..at + DESCRIPTION_SIZE]
  }

  lemma TailInMedia(lba: nat, blocks: nat, blockSize: nat)
    requires lba < blocks && blockSize >= DESCRIPTION_SIZE
    ensures LastBytes(lba, blockSize) + DESCRIPTION_SIZE <= blocks * blockSize
  {
    ProductGrows(lba + 1, blocks, blockSize);
  }

  /** The last bytes of a block, where a description may be. */
  function Tail(media: Media, blocks: nat, blockSize: nat, lba: nat): (b: seq<Byte>)
    requires IsMedia(media, blocks, blockSize) && lba < blocks
    ensures |b| == DESCRIPTION_SIZE
  {
    TailInMedia(lba, blocks, blockSize);
    Slice(media, LastBytes(lba, blockSize))
  }

  lemma {:induction false} TailsAreApart(a: nat, b: nat, blockSize: nat)
    requires blockSize >= DESCRIPTION_SIZE && a != b
    ensures LastBytes(a, blockSize) + DESCRIPTION_SIZE <= LastBytes(b, blockSize)
            || LastBytes(b, blockSize) + DESCRIPTION_SIZE <= LastBytes(a, blockSize)
  {
    if a < b {
      ProductGrows(a + 2, b + 1, blockSize);
      assert (a + 2) * blockSize == (a + 1) * blockSize + blockSize;
    } else {
      ProductGrows(b + 2, a + 1, blockSize);
      assert (b + 2) * blockSize == (b + 1) * blockSize + blockSize;
    }
  }

  // ---------- descriptions on the media during a flush ----------

  /** The address kept for a description is the end of its last block. */
  predicate IsPlaced(m: Mirror, blockSize: nat)
    requires blockSize >= DESCRIPTION_SIZE
  {
    m.address != 0 ==> m.address == Place(m.description, blockSize)
  }

  ghost predicate TouchesTail(w: Write, lba: nat, blockSize: nat)
    requires blockSize >= DESCRIPTION_SIZE
  {
    exists i :: LastBytes(lba, blockSize) <= i < LastBytes(lba, blockSize) + DESCRIPTION_SIZE && Covers(w, i)
  }

  lemma {:induction false} TailByteAfterRegion(t: Target, m: Mirror, r: Pending, lba: nat, j: nat, before: Byte)
    requires Usable(t, m) && IsPlaced(m, t.blockSize) && j < DESCRIPTION_SIZE
    requires !Covers(DataWrite(t, r), LastBytes(lba, t.blockSize) + j)
    ensures var next := Renewed(t, m, RegionEnd(r));
            After(RegionWrites(t, m, r), LastBytes(lba, t.blockSize) + j, before) ==
            if IsAppend(t, r) && next.description.blockEnd == lba then Encode(next.description)[j]
            else if IsAppend(t, r) && m.address != 0 && m.description.blockEnd == lba then 0
            else before
  {
    var next := Renewed(t, m, RegionEnd(r));
    AfterRegion(t, m, r, LastBytes(lba, t.blockSize) + j, before);
    if next.description.blockEnd != lba {
      TailsAreApart(next.description.blockEnd, lba, t.blockSize);
      if m.description.blockEnd != lba {
        TailsAreApart(m.description.blockEnd, lba, t.blockSize);
      }
    }
  }

  /** One region seen from the end of a block its data does not reach: the new description
      appears there, or the old one is wiped, or nothing happens. */
  lemma {:induction false} TailAfterRegion(media: Media, blocks: nat, t: Target, m: Mirror, r: Pending, lba: nat)
    requires IsMedia(media, blocks, t.blockSize) && lba < blocks
    requires Usable(t, m) && IsPlaced(m, t.blockSize)
    requires !TouchesTail(DataWrite(t, r), lba, t.blockSize)
    ensures Tail(AfterAll(media, RegionWrites(t, m, r)), blocks, t.blockSize, lba) ==
            TailAfter(t, m, r, lba, Tail(media, blocks, t.blockSize, lba))
  {
    TailInMedia(lba, blocks, t.blockSize);
    var at, tail := LastBytes(lba, t.blockSize), Tail(media, blocks, t.blockSize, lba);
    var writes := RegionWrites(t, m, r);
    forall j | 0 <= j < DESCRIPTION_SIZE
      ensures AfterAll(media, writes)[at + j] == TailAfter(t, m, r, lba, tail)[j]
    {
      assert !Covers(DataWrite(t, r), at + j);
      TailByteAfterRegion(t, m, r, lba, j, media[at + j]);
    }
    assert Tail(AfterAll(media, writes), blocks, t.blockSize, lba) == TailAfter(t, m, r, lba, tail);
  }

  function TailAfter(t: Target, m: Mirror, r: Pending, lba: nat, tail: seq<Byte>): (b: seq<Byte>)
    requires Usable(t, m) && |tail| == DESCRIPTION_SIZE
    ensures |b| == DESCRIPTION_SIZE
  {
    var next := Renewed(t, m, RegionEnd(r)).description;
    if IsAppend(t, r) && next.blockEnd == lba then Encode(next)
    else if IsAppend(t, r) && m.address != 0 && m.description.blockEnd == lba then Zeros(DESCRIPTION_SIZE)
    else tail
  }

  /** A written description is on the media where its address says. */
  predicate OnMedia(media: Media, blocks: nat, blockSize: nat, m: Mirror)
    requires IsMedia(media, blocks, blockSize)
  {
    m.address != 0 ==>
      && Shaped(m.description)
      && IsPlaced(m, blockSize)
      && m.description.blockEnd < blocks
      && Tail(media, blocks, blockSize, m.description.blockEnd) == Encode(m.description)
  }

  predicate Describes(m: Mirror, lba: nat) {
    m.address != 0 && m.description.blockEnd == lba
  }

  /** A block end that no region reaches shows the current description, or zeros where an
      earlier one was, or what it showed before. */
  predicate Shows(current: Mirror, previous: Mirror, lba: nat, before: seq<Byte>, after: seq<Byte>)
    requires Shaped(current.description)
  {
    if Describes(current, lba) then after == Encode(current.description)
    else after == Zeros(DESCRIPTION_SIZE) || (after == before && !Describes(previous, lba))
  }

  lemma {:induction false} TailAfterRegions(media: Media, blocks: nat, t: Target, m: Mirror, pending: seq<Pending>,
                                            lba: nat)
    requires IsMedia(media, blocks, t.blockSize) && lba < blocks
    requires Usable(t, m) && OnMedia(media, blocks, t.blockSize, m)
    requires FlushRegions(t, m, pending).Done?
    requires IsPlaceFree(t, pending, LastBytes(lba, t.blockSize))
    ensures var o := FlushRegions(t, m, pending);
            && IsPlaced(o.mirror, t.blockSize)
            && Shows(o.mirror, m, lba, Tail(media, blocks, t.blockSize, lba),
                     Tail(AfterAll(media, o.writes), blocks, t.blockSize, lba))
    decreases |pending|
  {
    if pending == [] {
      assert AfterAll(media, []) == media;
    } else {
      var n := |pending| - 1;
      var r, o := pending[n], FlushRegions(t, m, pending[..n]);
      LastRegionIsElsewhere(t, pending, lba);
      TailAfterRegions(media, blocks, t, m, pending[..n], lba);
      TailAfterRegion(AfterAll(media, o.writes), blocks, t, o.mirror, r, lba);
      AfterAllConcat(media, o.writes, RegionWrites(t, o.mirror, r));
      ShowsNext(t, m, o.mirror, r, lba, Tail(media, blocks, t.blockSize, lba),
                Tail(AfterAll(media, o.writes), blocks, t.blockSize, lba));
    }
  }

  lemma {:induction false} LastRegionIsElsewhere(t: Target, pending: seq<Pending>, lba: nat)
    requires t.blockSize >= DESCRIPTION_SIZE && pending != []
    requires IsPlaceFree(t, pending, LastBytes(lba, t.blockSize))
    ensures IsPlaceFree(t, pending[..|pending| - 1], LastBytes(lba, t.blockSize))
    ensures !TouchesTail(DataWrite(t, pending[|pending| - 1]), lba, t.blockSize)
  {
    var at, p, w := LastBytes(lba, t.blockSize), pending[..|pending| - 1], DataWrite(t, pending[|pending| - 1]);
    forall i | at <= i < at + DESCRIPTION_SIZE
      ensures !IsData(t, p, i)
    {
      DataSnoc(t, pending, i);
    }
    forall i | at <= i < at + DESCRIPTION_SIZE
      ensures !Covers(w, i)
    {
      DataSnoc(t, pending, i);
    }
  }

  lemma {:induction false} ShowsNext(t: Target, m: Mirror, current: Mirror, r: Pending, lba: nat,
                                     before: seq<Byte>, after: seq<Byte>)
    requires Usable(t, current) && |after| == DESCRIPTION_SIZE
    requires Shows(current, m, lba, before, after)
    ensures var next := if IsAppend(t, r) then Renewed(t, current, RegionEnd(r)) else current;
            Shows(next, m, lba, before, TailAfter(t, current, r, lba, after))
  {
  }

  /** The block that still shows a description the flush left behind: the final rewrite goes
      to another block without wiping the description written before. */
  predicate LeavesBehind(t: Target, m: Mirror, pending: seq<Pending>, fileSize: nat, lba: nat)
    requires Usable(t, m)
  {
    && FlushRegions(t, m, pending).Done?
    && Describes(FlushRegions(t, m, pending).mirror, lba)
    && FlushFile(t, m, pending, fileSize).mirror.description.blockEnd != lba
  }

  lemma {:induction false} TailAfterFlush(media: Media, blocks: nat, t: Target, m: Mirror, pending: seq<Pending>,
                                          fileSize: nat, lba: nat)
    requires IsMedia(media, blocks, t.blockSize) && lba < blocks
    requires Usable(t, m) && OnMedia(media, blocks, t.blockSize, m)
    requires FlushFile(t, m, pending, fileSize).Done?
    requires IsPlaceFree(t, pending, LastBytes(lba, t.blockSize))
    ensures var o := FlushFile(t, m, pending, fileSize);
            var after := Tail(AfterAll(media, o.writes), blocks, t.blockSize, lba);
            if Describes(o.mirror, lba) then after == Encode(o.mirror.description)
            else if LeavesBehind(t, m, pending, fileSize, lba) then
              after == Encode(FlushRegions(t, m, pending).mirror.description)
            else
              || after == Zeros(DESCRIPTION_SIZE)
              || (after == Tail(media, blocks, t.blockSize, lba) && !Describes(m, lba))
  {
    var o := FlushRegions(t, m, pending);
    TailAfterRegions(media, blocks, t, m, pending, lba);
    if IsOutdated(t, o.mirror, fileSize) {
      var next := Renewed(t, o.mirror, fileSize);
      AfterAllConcat(media, o.writes, [DescriptionWrite(next)]);
      TailAfterDescription(AfterAll(media, o.writes), blocks, t.blockSize, next, lba);
    }
  }

  lemma {:induction false} SliceAfterWrite(media: Media, w: Write, at: nat)
    requires at + DESCRIPTION_SIZE <= |media| && |w.bytes| == DESCRIPTION_SIZE
    requires w.at == at || w.at + DESCRIPTION_SIZE <= at || at + DESCRIPTION_SIZE <= w.at
    ensures Slice(AfterAll(media, [w]), at) == if w.at == at then w.bytes else Slice(media, at)
  {
    OneWrite(media, w);
  }

  lemma {:induction false} TailAfterDescription(media: Media, blocks: nat, blockSize: nat, m: Mirror, lba: nat)
    requires IsMedia(media, blocks, blockSize) && lba < blocks
    requires Shaped(m.description) && m.address == Place(m.description, blockSize)
    ensures Tail(AfterAll(media, [DescriptionWrite(m)]), blocks, blockSize, lba) ==
            if m.description.blockEnd == lba then Encode(m.description) else Tail(media, blocks, blockSize, lba)
  {
    TailInMedia(lba, blocks, blockSize);
    if m.description.blockEnd != lba {
      TailsAreApart(m.description.blockEnd, lba, blockSize);
    }
    SliceAfterWrite(media, DescriptionWrite(m), LastBytes(lba, blockSize));
  }

  /** The block ends where a mount would find something. */
  predicate ShowsImage(media: Media, blocks: nat, blockSize: nat, lba: nat)
    requires IsMedia(media, blocks, blockSize) && lba < blocks
  {
    IsImageValid(Decode(Tail(media, blocks, blockSize, lba)), lba)
  }

  /** Nothing on the media looks like a description except at the last blocks of files. */
  ghost predicate NoGhosts(media: Media, blocks: nat, blockSize: nat, lastBlocks: set<nat>)
    requires IsMedia(media, blocks, blockSize)
  {
    forall lba :: 0 <= lba < blocks && ShowsImage(media, blocks, blockSize, lba) ==> lba in lastBlocks
  }

  /** No block end that data of the file reaches looks like a description afterwards, apart from where
      the regions and the whole flush leave one. */
  ghost predicate DataIsNoImage(media: Media, blocks: nat, t: Target, m: Mirror, pending: seq<Pending>, fileSize: nat)
    requires IsMedia(media, blocks, t.blockSize) && Usable(t, m)
  {
    forall lba :: 0 <= lba < blocks && !IsPlaceFree(t, pending, LastBytes(lba, t.blockSize))
                  && !Describes(FlushRegions(t, m, pending).mirror, lba)
                  && !Describes(FlushFile(t, m, pending, fileSize).mirror, lba) ==>
      !ShowsImage(media, blocks, t.blockSize, lba)
  }

  /** A flush of a file in good order: its description is where it should be, behind its data, and no
      description is going to be written outside the media. */
  ghost predicate InOrder(media: Media, blocks: nat, t: Target, m: Mirror, pending: seq<Pending>, fileSize: nat)
    requires IsMedia(media, blocks, t.blockSize)
  {
    && Usable(t, m) && Small(t, fileSize) && AllWithin(pending, fileSize)
    && OnMedia(media, blocks, t.blockSize, m)
    && IsBehindData(t, m)
    && FlushFile(t, m, pending, fileSize).Done?
    && FlushFile(t, m, pending, fileSize).mirror.address != 0
    && FlushFile(t, m, pending, fileSize).mirror.description.blockEnd < blocks
    && FlushRegions(t, m, pending).mirror.description.blockEnd < blocks
  }

  predicate IsBehindData(t: Target, m: Mirror) {
    m.address != 0 ==>
      t.fileStart <= m.address && t.fileEnd <= m.address && IsImageValid(m.description, m.description.blockEnd)
  }

  function OwnBlock(m: Mirror): set<nat> {
    if m.address != 0 then {m.description.blockEnd as nat} else {}
  }

  /** A flush keeps the media free of ghosts exactly if its final description goes where the
      one before it was. Truncating a file into an earlier block does not do that: the old
      description stays valid, and the next mount finds the file twice. */
  lemma {:induction false} FlushKeepsNoGhosts(media: Media, blocks: nat, t: Target, m: Mirror, pending: seq<Pending>,
                                              fileSize: nat, others: set<nat>)
    requires IsMedia(media, blocks, t.blockSize)
    requires InOrder(media, blocks, t, m, pending, fileSize)
    requires DataIsNoImage(AfterAll(media, FlushFile(t, m, pending, fileSize).writes), blocks, t, m, pending, fileSize)
    requires NoGhosts(media, blocks, t.blockSize, others + OwnBlock(m))
    requires forall lba :: lba in others ==> !(t.fileStart <= LastBytes(lba, t.blockSize) < OwnEnd(t, m, fileSize))
    ensures var o := FlushFile(t, m, pending, fileSize);
            NoGhosts(AfterAll(media, o.writes), blocks, t.blockSize, others + OwnBlock(o.mirror))
            <==> !LeavesBehind(t, m, pending, fileSize, FlushRegions(t, m, pending).mirror.description.blockEnd)
  {
    if LeavesBehind(t, m, pending, fileSize, FlushRegions(t, m, pending).mirror.description.blockEnd) {
      RegionsStayInside(t, m, pending, fileSize);
      LeftBehindIsGhost(media, blocks, t, m, pending, fileSize);
    } else {
      NothingLeftBehind(media, blocks, t, m, pending, fileSize, others);
    }
  }

  lemma {:induction false} ShownIsOwned(media: Media, blocks: nat, t: Target, m: Mirror, pending: seq<Pending>,
                                        fileSize: nat, lba: nat)
    requires IsMedia(media, blocks, t.blockSize) && lba < blocks
    requires InOrder(media, blocks, t, m, pending, fileSize)
    requires DataIsNoImage(AfterAll(media, FlushFile(t, m, pending, fileSize).writes), blocks, t, m, pending, fileSize)
    requires !LeavesBehind(t, m, pending, fileSize, lba)
    requires ShowsImage(AfterAll(media, FlushFile(t, m, pending, fileSize).writes), blocks, t.blockSize, lba)
    ensures Describes(FlushFile(t, m, pending, fileSize).mirror, lba)
            || (ShowsImage(media, blocks, t.blockSize, lba) && !Describes(m, lba))
  {
    if !Describes(FlushFile(t, m, pending, fileSize).mirror, lba) {
      assert IsPlaceFree(t, pending, LastBytes(lba, t.blockSize));
      TailAfterFlush(media, blocks, t, m, pending, fileSize, lba);
      ZerosAreNoImage(lba);
    }
  }

  lemma {:induction false} NothingLeftBehind(media: Media, blocks: nat, t: Target, m: Mirror, pending: seq<Pending>,
                                             fileSize: nat, others: set<nat>)
    requires IsMedia(media, blocks, t.blockSize)
    requires InOrder(media, blocks, t, m, pending, fileSize)
    requires DataIsNoImage(AfterAll(media, FlushFile(t, m, pending, fileSize).writes), blocks, t, m, pending, fileSize)
    requires NoGhosts(media, blocks, t.blockSize, others + OwnBlock(m))
    requires !LeavesBehind(t, m, pending, fileSize, FlushRegions(t, m, pending).mirror.description.blockEnd)
    ensures var o := FlushFile(t, m, pending, fileSize);
            NoGhosts(AfterAll(media, o.writes), blocks, t.blockSize, others + OwnBlock(o.mirror))
  {
    var o := FlushFile(t, m, pending, fileSize);
    var after := AfterAll(media, o.writes);
    forall lba | 0 <= lba < blocks && ShowsImage(after, blocks, t.blockSize, lba)
      ensures lba in others + OwnBlock(o.mirror)
    {
      ShownIsOwned(media, blocks, t, m, pending, fileSize, lba);
    }
  }

  /** A description on the media stays through a region that ends before it and does not append. */
  lemma {:induction false} RegionKeepsDescription(media: Media, blocks: nat, t: Target, m: Mirror, r: Pending)
    requires IsMedia(media, blocks, t.blockSize) && Usable(t, m) && OnMedia(media, blocks, t.blockSize, m)
    requires !IsAppend(t, r) && t.fileEnd <= m.address
    ensures OnMedia(AfterAll(media, RegionWrites(t, m, r)), blocks, t.blockSize, m)
  {
    hide Encode, Describe, RegionWrites;
    if m.address != 0 {
      var lba := m.description.blockEnd;
      var after := AfterAll(media, RegionWrites(t, m, r));
      TailInMedia(lba, blocks, t.blockSize);
      forall i | m.address <= i < m.address + DESCRIPTION_SIZE
        ensures after[i] == media[i]
      {
        AfterRegion(t, m, r, i, media[i]);
      }
      assert Tail(after, blocks, t.blockSize, lba) == Tail(media, blocks, t.blockSize, lba);
    }
  }

  /** An appending region ends with its description on the media. */
  lemma {:induction false} RegionShowsDescription(media: Media, blocks: nat, t: Target, m: Mirror, r: Pending)
    requires IsMedia(media, blocks, t.blockSize) && Usable(t, m) && IsAppend(t, r)
    requires Renewed(t, m, RegionEnd(r)).description.blockEnd < blocks
    ensures OnMedia(AfterAll(media, RegionWrites(t, m, r)), blocks, t.blockSize, Renewed(t, m, RegionEnd(r)))
  {
    hide Encode, Describe, RegionWrites;
    var next := Renewed(t, m, RegionEnd(r));
    var lba := next.description.blockEnd;
    var after := AfterAll(media, RegionWrites(t, m, r));
    TailInMedia(lba, blocks, t.blockSize);
    forall j | 0 <= j < DESCRIPTION_SIZE
      ensures after[next.address + j] == Encode(next.description)[j]
    {
      AfterRegion(t, m, r, next.address + j, media[next.address + j]);
    }
    assert Tail(after, blocks, t.blockSize, lba) == Encode(next.description);
  }

  /** Wherever descriptions landed on the way, the one the regions leave is on the media: those that come
      later than the last append end before it. */
  lemma {:induction false} RegionsShowLast(media: Media, blocks: nat, t: Target, m: Mirror, pending: seq<Pending>,
                                           fileSize: nat)
    requires IsMedia(media, blocks, t.blockSize)
    requires Usable(t, m) && Small(t, fileSize) && AllWithin(pending, fileSize)
    requires OnMedia(media, blocks, t.blockSize, m) && IsBehindData(t, m)
    requires FlushRegions(t, m, pending).Done?
    requires FlushRegions(t, m, pending).mirror.description.blockEnd < blocks
    ensures var o := FlushRegions(t, m, pending);
            OnMedia(AfterAll(media, o.writes), blocks, t.blockSize, o.mirror) && IsBehindData(t, o.mirror)
    decreases |pending|
  {
    hide Encode, Describe, RegionWrites, Tail, IsImageValid, HasSpace, IsPlaced;
    if pending == [] {
      assert AfterAll(media, []) == media;
    } else {
      var r, o := pending[|pending| - 1], FlushRegions(t, m, pending[..|pending| - 1]);
      AfterAllConcat(media, o.writes, RegionWrites(t, o.mirror, r));
      if IsAppend(t, r) {
        RegionShowsDescription(AfterAll(media, o.writes), blocks, t, o.mirror, r);
        RenewedPlace(t, o.mirror, RegionEnd(r));
      } else {
        RegionsShowLast(media, blocks, t, m, pending[..|pending| - 1], fileSize);
        if o.mirror.address != 0 {
          RegionKeepsDescription(AfterAll(media, o.writes), blocks, t, o.mirror, r);
        }
      }
    }
  }

  /** After the flush the final description is on the media, and so is the one that the regions left if
      the final one went to another block. */
  lemma {:induction false} FlushShowsLast(media: Media, blocks: nat, t: Target, m: Mirror, pending: seq<Pending>,
                                          fileSize: nat)
    requires IsMedia(media, blocks, t.blockSize)
    requires InOrder(media, blocks, t, m, pending, fileSize)
    ensures var o, r := FlushFile(t, m, pending, fileSize), FlushRegions(t, m, pending).mirror;
            && OnMedia(AfterAll(media, o.writes), blocks, t.blockSize, o.mirror) && IsBehindData(t, r)
            && (LeavesBehind(t, m, pending, fileSize, r.description.blockEnd) ==>
                  OnMedia(AfterAll(media, o.writes), blocks, t.blockSize, r))
  {
    hide Encode, Describe, Tail, IsImageValid, FlushRegions;
    var o := FlushRegions(t, m, pending);
    RegionsShowLast(media, blocks, t, m, pending, fileSize);
    if IsOutdated(t, o.mirror, fileSize) {
      var next := Renewed(t, o.mirror, fileSize);
      AfterAllConcat(media, o.writes, [DescriptionWrite(next)]);
      TailAfterDescription(AfterAll(media, o.writes), blocks, t.blockSize, next, next.description.blockEnd);
      TailAfterDescription(AfterAll(media, o.writes), blocks, t.blockSize, next, o.mirror.description.blockEnd);
    }
  }

  lemma {:induction false} LeftBehindIsGhost(media: Media, blocks: nat, t: Target, m: Mirror, pending: seq<Pending>,
                                             fileSize: nat)
    requires IsMedia(media, blocks, t.blockSize)
    requires InOrder(media, blocks, t, m, pending, fileSize)
    requires LeavesBehind(t, m, pending, fileSize, FlushRegions(t, m, pending).mirror.description.blockEnd)
    ensures var r := FlushRegions(t, m, pending).mirror;
            && ShowsImage(AfterAll(media, FlushFile(t, m, pending, fileSize).writes), blocks, t.blockSize,
                          r.description.blockEnd)
            && r.address == LastBytes(r.description.blockEnd, t.blockSize)
  {
    hide Encode, Describe, Decode, FlushFile, FlushRegions;
    FlushShowsLast(media, blocks, t, m, pending, fileSize);
    DescriptionRoundTrip(FlushRegions(t, m, pending).mirror.description);
  }

  // ---------- the mount scan ----------

  function Found(media: Media, blocks: nat, blockSize: nat, lba: nat): Description
    requires IsMedia(media, blocks, blockSize) && lba < blocks
  {
    WithFooterChecksum(Decode(Tail(media, blocks, blockSize, lba)))
  }

  /** The descriptions a mount finds from some block on, in disk order. */
  function Scan(media: Media, blocks: nat, blockSize: nat, lba: nat): seq<Description>
    requires IsMedia(media, blocks, blockSize)
    decreases blocks - lba
  {
    if lba >= blocks then []
    else if ShowsImage(media, blocks, blockSize, lba) then
      [Found(media, blocks, blockSize, lba)] + Scan(media, blocks, blockSize, lba + 1)
    else Scan(media, blocks, blockSize, lba + 1)
  }

  function Descriptions(files: set<Mirror>): set<Description> {
    set f | f in files :: f.description
  }

  function LastBlocks(files: set<Mirror>): set<nat> {
    set f | f in files :: f.description.blockEnd as nat
  }

  lemma LastBlocksOfBoth(a: set<Mirror>, b: set<Mirror>)
    ensures LastBlocks(a + b) == LastBlocks(a) + LastBlocks(b)
  {
  }

  /** A file with its description on the media, which a mount recognises and gives back unchanged. */
  predicate GoodOnMedia(media: Media, blocks: nat, blockSize: nat, f: Mirror)
    requires IsMedia(media, blocks, blockSize)
  {
    && f.address != 0 && OnMedia(media, blocks, blockSize, f)
    && IsImageValid(f.description, f.description.blockEnd)
    && WithFooterChecksum(f.description) == f.description
  }

  ghost predicate AllOnMedia(media: Media, blocks: nat, blockSize: nat, files: set<Mirror>)
    requires IsMedia(media, blocks, blockSize)
  {
    forall f :: f in files ==> GoodOnMedia(media, blocks, blockSize, f)
  }

  lemma {:induction false} FileIsFound(media: Media, blocks: nat, blockSize: nat, m: Mirror)
    requires IsMedia(media, blocks, blockSize) && GoodOnMedia(media, blocks, blockSize, m)
    ensures ShowsImage(media, blocks, blockSize, m.description.blockEnd)
    ensures Found(media, blocks, blockSize, m.description.blockEnd) == m.description
  {
    DescriptionRoundTrip(m.description);
  }

  /** No two files have their descriptions in one block. */
  lemma {:induction false} SameBlockSameFile(media: Media, blocks: nat, blockSize: nat, f: Mirror, h: Mirror)
    requires IsMedia(media, blocks, blockSize)
    requires GoodOnMedia(media, blocks, blockSize, f) && GoodOnMedia(media, blocks, blockSize, h)
    requires f.description.blockEnd == h.description.blockEnd
    ensures f == h
  {
    hide Tail, Decode, Encode, WithFooterChecksum, IsImageValid;
    FileIsFound(media, blocks, blockSize, f);
    FileIsFound(media, blocks, blockSize, h);
  }

  ghost predicate IsRising(list: seq<Description>) {
    forall i, j :: 0 <= i < j < |list| ==> list[i].blockEnd < list[j].blockEnd
  }

  /** The scan yields what the blocks show, in disk order. */
  lemma {:induction false} ScanIsRising(media: Media, blocks: nat, blockSize: nat, lba: nat)
    requires IsMedia(media, blocks, blockSize)
    ensures IsRising(Scan(media, blocks, blockSize, lba))
    ensures forall d :: d in Scan(media, blocks, blockSize, lba) ==>
              && lba <= d.blockEnd < blocks && ShowsImage(media, blocks, blockSize, d.blockEnd)
              && Found(media, blocks, blockSize, d.blockEnd) == d
    decreases blocks - lba
  {
    hide Tail, Decode, FooterChecksum;
    if lba < blocks {
      ScanIsRising(media, blocks, blockSize, lba + 1);
    }
  }

  lemma {:induction false} ScanIncludes(media: Media, blocks: nat, blockSize: nat, lba: nat, shown: nat)
    requires IsMedia(media, blocks, blockSize)
    requires lba <= shown < blocks && ShowsImage(media, blocks, blockSize, shown)
    ensures Found(media, blocks, blockSize, shown) in Scan(media, blocks, blockSize, lba)
    decreases blocks - lba
  {
    hide Found;
    if lba < shown {
      ScanIncludes(media, blocks, blockSize, lba + 1, shown);
    }
  }

  /** A mount yields the descriptions of these files and no others, each once and in disk order. */
  ghost predicate FindsExactly(scan: seq<Description>, files: set<Mirror>) {
    IsRising(scan) && forall d :: d in scan <==> d in Descriptions(files)
  }

  /** The files decide what the list found is, down to its order. */
  lemma {:induction false} FoundInOneWay(p: seq<Description>, q: seq<Description>)
    requires IsRising(p) && IsRising(q) && (forall d :: d in p <==> d in q)
    ensures p == q
  {
    HeadIsMember(p);
    HeadIsMember(q);
    if p != [] {
      assert p[0] == q[0];
      forall d
        ensures d in p[1..] <==> d in q[1..]
      {
        TailWithoutHead(p, d);
        TailWithoutHead(q, d);
      }
      FoundInOneWay(p[1..], q[1..]);
    }
  }

  lemma HeadIsMember<T>(p: seq<T>)
    ensures p != [] ==> p[0] in p
  {
  }

  lemma TailWithoutHead(p: seq<Description>, d: Description)
    requires IsRising(p) && p != []
    ensures d in p[1..] <==> d in p && d != p[0]
  {
  }

  /** Remount round trip: the scan gives back exactly the files of the volume, with the same
      descriptions and in disk order, if and only if the media shows no ghosts. */
  lemma {:induction false} RemountIffNoGhosts(media: Media, blocks: nat, blockSize: nat, files: set<Mirror>)
    requires IsMedia(media, blocks, blockSize) && AllOnMedia(media, blocks, blockSize, files)
    ensures FindsExactly(Scan(media, blocks, blockSize, 0), files) <==>
            NoGhosts(media, blocks, blockSize, LastBlocks(files))
  {
    hide ShowsImage, Found, Scan, GoodOnMedia, IsRising;
    var scan := Scan(media, blocks, blockSize, 0);
    ScanIsRising(media, blocks, blockSize, 0);
    forall f | f in files
      ensures f.description in scan && f.description.blockEnd < blocks
      ensures Found(media, blocks, blockSize, f.description.blockEnd) == f.description
    {
      EndIsInside(media, blocks, blockSize, f);
      FileIsFound(media, blocks, blockSize, f);
      ScanIncludes(media, blocks, blockSize, 0, f.description.blockEnd);
    }
    if NoGhosts(media, blocks, blockSize, LastBlocks(files)) {
      forall d | d in scan
        ensures d in Descriptions(files)
      {
        assert d.blockEnd as nat in LastBlocks(files);
      }
    } else {
      var lba: nat :| lba < blocks && ShowsImage(media, blocks, blockSize, lba) && lba !in LastBlocks(files);
      ScanIncludes(media, blocks, blockSize, 0, lba);
      ShownEndsThere(media, blocks, blockSize, lba);
    }
  }

  lemma EndIsInside(media: Media, blocks: nat, blockSize: nat, f: Mirror)
    requires IsMedia(media, blocks, blockSize) && GoodOnMedia(media, blocks, blockSize, f)
    ensures f.description.blockEnd < blocks
  {
  }

  lemma ShownEndsThere(media: Media, blocks: nat, blockSize: nat, lba: nat)
    requires IsMedia(media, blocks, blockSize) && lba < blocks && ShowsImage(media, blocks, blockSize, lba)
    ensures Found(media, blocks, blockSize, lba).blockEnd == lba
  {
  }
}
