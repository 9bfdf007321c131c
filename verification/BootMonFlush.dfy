/** Flushing one file: the disk writes a flush makes, and what the media holds afterwards. */
module BootMonFlush {
  import opened Bytes
  import opened BootMonFormat
  import opened BootMonAllocator

  // ---------- disk writes ----------

  datatype Write = Write(at: nat, bytes: seq<Byte>)

  predicate Covers(w: Write, i: nat) {
    w.at <= i < w.at + |w.bytes|
  }

  predicate Touched(writes: seq<Write>, i: nat) {
    exists k :: 0 <= k < |writes| && Covers(writes[k], i)
  }

  /** A byte of the media after some writes: the last write that covers it decides. */
  function After(writes: seq<Write>, i: nat, before: Byte): Byte {
    if writes == [] then before
    else
      var last := writes[|writes| - 1];
      if Covers(last, i) then last.bytes[i - last.at] else After(writes[..|writes| - 1], i, before)
  }

  lemma {:induction false} AfterConcat(a: seq<Write>, b: seq<Write>, i: nat, before: Byte)
    ensures After(a + b, i, before) == After(b, i, After(a, i, before))
  {
    if b == [] {
      assert a + b == a;
    } else {
      var n := |b| - 1;
      AfterConcat(a, b[..n], i, before);
      assert (a + b)[..|a + b| - 1] == a + b[..n];
    }
  }

  lemma {:induction false} AfterUntouched(writes: seq<Write>, i: nat, before: Byte)
    requires !Touched(writes, i)
    ensures After(writes, i, before) == before
  {
    if writes != [] {
      var n := |writes| - 1;
      assert !Covers(writes[n], i);
      AfterUntouched(writes[..n], i, before);
    }
  }

  lemma {:induction false} AfterAppend(writes: seq<Write>, w: Write, i: nat, before: Byte)
    ensures After(writes + [w], i, before) == if Covers(w, i) then w.bytes[i - w.at] else After(writes, i, before)
  {
    assert (writes + [w])[..|writes|] == writes;
  }

  // ---------- a flush as a list of writes ----------

  // Bytes waiting to be written at an offset of the file.
  datatype Pending = Pending(offset: nat, bytes: seq<Byte>)

  // What stays fixed during a flush: the name, the start and the old end of the data on the
  // media, and the end of the space the file may grow into.
  datatype Target = Target(name: seq<Byte>, fileStart: nat, fileEnd: nat, limit: nat, blockSize: nat)

  // The description of the file as last written, and where; address 0 means not written yet.
  datatype Mirror = Mirror(description: Description, address: nat)

  // The writes of a flush so far, whether it went through or ran out of space.
  datatype Outcome = Done(writes: seq<Write>, mirror: Mirror) | Full(writes: seq<Write>, mirror: Mirror)

  predicate Usable(t: Target, m: Mirror) {
    IsName(t.name) && Shaped(m.description) && t.blockSize > DESCRIPTION_SIZE
  }

  /** The size of the blocks a file occupies, zero for a file never written. */
  function PhysicalSize(d: Description, blockSize: nat): nat {
    if d.regionCount == 0 then 0 else Low32(d.blockEnd + 0x1_0000_0000 - d.blockStart + 1) * blockSize
  }

  predicate HasSpace(t: Target, m: Mirror, dataSize: nat) {
    || dataSize + DESCRIPTION_SIZE <= PhysicalSize(m.description, t.blockSize)
    || Sub64(t.limit, t.fileStart) >= dataSize + DESCRIPTION_SIZE
  }

  /** The description sits at the end of the last block. */
  function Place(d: Description, blockSize: nat): nat
    requires blockSize >= DESCRIPTION_SIZE
  {
    LastBytes(d.blockEnd, blockSize)
  }

  function LastBytes(lba: nat, blockSize: nat): nat
    requires blockSize >= DESCRIPTION_SIZE
  {
    BlockEndOf(lba, blockSize) - DESCRIPTION_SIZE
  }

  function BlockEndOf(lba: nat, blockSize: nat): (r: nat)
    ensures r >= blockSize
  {
    (lba + 1) * blockSize
  }

  function Renewed(t: Target, m: Mirror, dataSize: nat): Mirror
    requires Usable(t, m)
  {
    var d := Describe(m.description, t.name, dataSize, t.fileStart, t.blockSize);
    Mirror(d, Place(d, t.blockSize))
  }

  function DescriptionWrite(m: Mirror): Write
    requires Shaped(m.description)
  {
    Write(m.address, Encode(m.description))
  }

  function DataWrite(t: Target, r: Pending): Write {
    Write(t.fileStart + r.offset, r.bytes)
  }

  function RegionEnd(r: Pending): nat {
    r.offset + |r.bytes|
  }

  /** A region that ends at or behind the old end of the file extends or completes it. */
  predicate IsAppend(t: Target, r: Pending) {
    r.bytes != [] && t.fileStart + RegionEnd(r) >= t.fileEnd
  }

  function RegionWrites(t: Target, m: Mirror, r: Pending): seq<Write>
    requires Usable(t, m)
  {
    if r.bytes == [] then []
    else if !IsAppend(t, r) then [DataWrite(t, r)]
    else
      (if m.address != 0 then [Write(m.address, Zeros(DESCRIPTION_SIZE))] else [])
      + [DataWrite(t, r), DescriptionWrite(Renewed(t, m, RegionEnd(r)))]
  }

  function FlushRegions(t: Target, m: Mirror, pending: seq<Pending>): (o: Outcome)
    requires Usable(t, m)
    ensures Usable(t, o.mirror)
  {
    if pending == [] then Done([], m)
    else
      var r := pending[|pending| - 1];
      var o := FlushRegions(t, m, pending[..|pending| - 1]);
      if o.Full? then o
      else if IsAppend(t, r) && !HasSpace(t, o.mirror, RegionEnd(r)) then Full(o.writes, o.mirror)
      else Done(o.writes + RegionWrites(t, o.mirror, r),
                if IsAppend(t, r) then Renewed(t, o.mirror, RegionEnd(r)) else o.mirror)
  }

  /** The description is written once more if the name or the size is not what it says. */
  predicate IsOutdated(t: Target, m: Mirror, fileSize: nat)
    requires Shaped(m.description)
  {
    StringIn(m.description.filename) != t.name || fileSize != m.description.regions[0].size
  }

  function FlushFile(t: Target, m: Mirror, pending: seq<Pending>, fileSize: nat): (o: Outcome)
    requires Usable(t, m)
    ensures Usable(t, o.mirror)
  {
    var o := FlushRegions(t, m, pending);
    if o.Done? && IsOutdated(t, o.mirror, fileSize) then
      Done(o.writes + [DescriptionWrite(Renewed(t, o.mirror, fileSize))], Renewed(t, o.mirror, fileSize))
    else o
  }

  // ---------- what the media should hold ----------

  /** The regions alone, in list order. */
  function DataWrites(t: Target, pending: seq<Pending>): seq<Write> {
    seq(|pending|, i requires 0 <= i < |pending| => DataWrite(t, pending[i]))
  }

  /** A byte that belongs to the file: old data, or written by some region. Bytes in a gap
      left by seeking past the end are not constrained. */
  predicate IsData(t: Target, pending: seq<Pending>, i: nat) {
    t.fileStart <= i < t.fileEnd || Touched(DataWrites(t, pending), i)
  }

  /** The flush left byte i as the old data overlaid by the regions, later ones winning. */
  ghost predicate IsOverlaid(t: Target, pending: seq<Pending>, writes: seq<Write>, i: nat) {
    forall before: Byte :: After(writes, i, before) == After(DataWrites(t, pending), i, before)
  }

  ghost predicate IsPlaceFree(t: Target, pending: seq<Pending>, address: nat) {
    forall i :: address <= i < address + DESCRIPTION_SIZE ==> !IsData(t, pending, i)
  }

  /** No description is ever written on top of data of the file. Depends on the offsets and
      lengths of the regions only. */
  ghost predicate DescriptionsClear(t: Target, m: Mirror, pending: seq<Pending>)
    requires Usable(t, m)
    decreases |pending|
  {
    pending != [] ==>
      var r := pending[|pending| - 1];
      var o := FlushRegions(t, m, pending[..|pending| - 1]);
      && DescriptionsClear(t, m, pending[..|pending| - 1])
      && (o.Done? && IsAppend(t, r) ==> IsPlaceFree(t, pending, Renewed(t, o.mirror, RegionEnd(r)).address))
  }

  lemma {:induction false} TouchedSnoc(writes: seq<Write>, w: Write, i: nat)
    ensures Touched(writes + [w], i) <==> Touched(writes, i) || Covers(w, i)
  {
    var all := writes + [w];
    assert all[|writes|] == w && forall k :: 0 <= k < |writes| ==> all[k] == writes[k];
    if Touched(writes, i) {
      var k :| 0 <= k < |writes| && Covers(writes[k], i);
      assert Covers(all[k], i);
    }
  }

  lemma {:induction false} DataSnoc(t: Target, pending: seq<Pending>, i: nat)
    requires pending != []
    ensures DataWrites(t, pending) == DataWrites(t, pending[..|pending| - 1]) + [DataWrite(t, pending[|pending| - 1])]
    ensures IsData(t, pending, i) <==>
            IsData(t, pending[..|pending| - 1], i) || Covers(DataWrite(t, pending[|pending| - 1]), i)
  {
    var p, w := DataWrites(t, pending[..|pending| - 1]), DataWrite(t, pending[|pending| - 1]);
    assert DataWrites(t, pending) == p + [w];
    TouchedSnoc(p, w, i);
  }

  lemma {:induction false} OverlayStep(t: Target, m: Mirror, pending: seq<Pending>, writes: seq<Write>, i: nat)
    requires Usable(t, m) && pending != [] && IsData(t, pending, i)
    requires IsData(t, pending[..|pending| - 1], i) ==> IsOverlaid(t, pending[..|pending| - 1], writes, i)
    requires m.address != 0 ==> IsPlaceFree(t, pending[..|pending| - 1], m.address)
    requires var r := pending[|pending| - 1];
             IsAppend(t, r) ==> IsPlaceFree(t, pending, Renewed(t, m, RegionEnd(r)).address)
    ensures IsOverlaid(t, pending, writes + RegionWrites(t, m, pending[|pending| - 1]), i)
  {
    var n := |pending| - 1;
    var r := pending[n];
    DataSnoc(t, pending, i);
    forall before: Byte
      ensures After(writes + RegionWrites(t, m, r), i, before) == After(DataWrites(t, pending), i, before)
    {
      AfterAppend(DataWrites(t, pending[..n]), DataWrite(t, r), i, before);
      AfterConcat(writes, RegionWrites(t, m, r), i, before);
      AfterRegion(t, m, r, i, After(writes, i, before));
    }
  }

  /** Read-after-write: as long as no description is written on top of data, every byte of
      the file is the old data overlaid by the regions in list order. */
  lemma {:induction false} FlushOverlays(t: Target, m: Mirror, pending: seq<Pending>, i: nat)
    requires Usable(t, m)
    requires m.address != 0 ==> IsPlaceFree(t, [], m.address)
    requires FlushRegions(t, m, pending).Done? && DescriptionsClear(t, m, pending)
    ensures var o := FlushRegions(t, m, pending);
            && (IsData(t, pending, i) ==> IsOverlaid(t, pending, o.writes, i))
            && (o.mirror.address != 0 ==> IsPlaceFree(t, pending, o.mirror.address))
    decreases |pending|
  {
    if pending != [] {
      var n := |pending| - 1;
      var o := FlushRegions(t, m, pending[..n]);
      FlushOverlays(t, m, pending[..n], i);
      if !IsAppend(t, pending[n]) {
        PlaceStaysFree(t, o.mirror, pending);
      }
      if IsData(t, pending, i) {
        OverlayStep(t, o.mirror, pending, o.writes, i);
      }
    }
  }

  /** A region that is not an append does not reach the description. */
  lemma {:induction false} PlaceStaysFree(t: Target, m: Mirror, pending: seq<Pending>)
    requires pending != [] && !IsAppend(t, pending[|pending| - 1])
    requires m.address != 0 ==> IsPlaceFree(t, pending[..|pending| - 1], m.address)
    ensures m.address != 0 ==> IsPlaceFree(t, pending, m.address)
  {
    if m.address != 0 {
      forall i | m.address <= i < m.address + DESCRIPTION_SIZE
        ensures !IsData(t, pending, i)
      {
        DataSnoc(t, pending, i);
      }
    }
  }

  /** What one region does to a byte. */
  lemma {:induction false} AfterRegion(t: Target, m: Mirror, r: Pending, i: nat, before: Byte)
    requires Usable(t, m)
    ensures After(RegionWrites(t, m, r), i, before) ==
            if IsAppend(t, r) && Covers(DescriptionWrite(Renewed(t, m, RegionEnd(r))), i) then
              DescriptionWrite(Renewed(t, m, RegionEnd(r))).bytes[i - Renewed(t, m, RegionEnd(r)).address]
            else if Covers(DataWrite(t, r), i) then r.bytes[i - t.fileStart - r.offset]
            else if IsAppend(t, r) && m.address != 0 && m.address <= i < m.address + DESCRIPTION_SIZE then 0
            else before
  {
    hide Describe, Encode, HasSpace;
    if IsAppend(t, r) {
      var clear := if m.address != 0 then [Write(m.address, Zeros(DESCRIPTION_SIZE))] else [];
      var data, description := DataWrite(t, r), DescriptionWrite(Renewed(t, m, RegionEnd(r)));
      assert RegionWrites(t, m, r) == (clear + [data]) + [description];
      AfterAppend(clear + [data], description, i, before);
      AfterAppend(clear, data, i, before);
      if m.address != 0 {
        AfterAppend([], clear[0], i, before);
        assert [] + [clear[0]] == clear;
      }
    } else if r.bytes != [] {
      AfterAppend([], DataWrite(t, r), i, before);
      assert [] + [DataWrite(t, r)] == [DataWrite(t, r)];
    }
  }

  // ---------- when read-after-write holds ----------

  /** Two region lists that differ in the bytes to be written only. */
  ghost predicate SameShape(p: seq<Pending>, q: seq<Pending>) {
    |p| == |q| && forall k :: 0 <= k < |p| ==> p[k].offset == q[k].offset && |p[k].bytes| == |q[k].bytes|
  }

  lemma {:induction false} ShapeDecidesData(t: Target, p: seq<Pending>, q: seq<Pending>, i: nat)
    requires SameShape(p, q)
    ensures IsData(t, p, i) <==> IsData(t, q, i)
  {
    var d, e := DataWrites(t, p), DataWrites(t, q);
    assert forall k :: 0 <= k < |p| ==> (Covers(d[k], i) <==> Covers(e[k], i));
  }

  /** Which descriptions are written, and where, does not depend on the data. */
  lemma {:induction false} ShapeDecidesMirror(t: Target, m: Mirror, p: seq<Pending>, q: seq<Pending>)
    requires Usable(t, m) && SameShape(p, q)
    ensures FlushRegions(t, m, p).mirror == FlushRegions(t, m, q).mirror
    ensures FlushRegions(t, m, p).Done? <==> FlushRegions(t, m, q).Done?
    decreases |p|
  {
    if p != [] {
      var n := |p| - 1;
      ShapeDecidesMirror(t, m, p[..n], q[..n]);
      assert RegionEnd(p[n]) == RegionEnd(q[n]) && (IsAppend(t, p[n]) <==> IsAppend(t, q[n]));
    }
  }

  lemma {:induction false} ShapeDecidesFree(t: Target, p: seq<Pending>, q: seq<Pending>, address: nat)
    requires SameShape(p, q)
    ensures IsPlaceFree(t, p, address) <==> IsPlaceFree(t, q, address)
  {
    forall i | address <= i < address + DESCRIPTION_SIZE
      ensures IsData(t, p, i) <==> IsData(t, q, i)
    {
      ShapeDecidesData(t, p, q, i);
    }
  }

  lemma {:induction false} ShapeDecidesClear(t: Target, m: Mirror, p: seq<Pending>, q: seq<Pending>)
    requires Usable(t, m) && SameShape(p, q)
    ensures DescriptionsClear(t, m, p) <==> DescriptionsClear(t, m, q)
    decreases |p|
  {
    if p != [] {
      var n := |p| - 1;
      ShapeDecidesMirror(t, m, p[..n], q[..n]);
      ShapeDecidesClear(t, m, p[..n], q[..n]);
      var o := FlushRegions(t, m, p[..n]);
      assert RegionEnd(p[n]) == RegionEnd(q[n]) && (IsAppend(t, p[n]) <==> IsAppend(t, q[n]));
      ShapeDecidesFree(t, p, q, Renewed(t, o.mirror, RegionEnd(p[n])).address);
    }
  }

  lemma {:induction false} PrefixIsClear(t: Target, m: Mirror, pending: seq<Pending>, k: nat)
    requires Usable(t, m) && k <= |pending|
    requires FlushRegions(t, m, pending).Done? && DescriptionsClear(t, m, pending)
    ensures FlushRegions(t, m, pending[..k]).Done? && DescriptionsClear(t, m, pending[..k])
    decreases |pending|
  {
    if k < |pending| {
      PrefixIsClear(t, m, pending[..|pending| - 1], k);
      assert pending[..|pending| - 1][..k] == pending[..k];
    } else {
      assert pending[..k] == pending;
    }
  }

  lemma {:induction false} LastToucher(writes: seq<Write>, i: nat) returns (k: nat)
    requires Touched(writes, i)
    ensures k < |writes| && Covers(writes[k], i) && (forall j :: k < j < |writes| ==> !Covers(writes[j], i))
  {
    k := |writes| - 1;
    while !Covers(writes[k], i)
      invariant k < |writes| && (forall j :: k < j < |writes| ==> !Covers(writes[j], i))
      decreases k
    {
      assert exists j :: 0 <= j < k && Covers(writes[j], i);
      k := k - 1;
    }
  }

  lemma {:induction false} AfterLastToucher(writes: seq<Write>, k: nat, i: nat, before: Byte)
    requires k < |writes| && Covers(writes[k], i) && (forall j :: k < j < |writes| ==> !Covers(writes[j], i))
    ensures After(writes, i, before) == writes[k].bytes[i - writes[k].at]
  {
    if k < |writes| - 1 {
      AfterLastToucher(writes[..|writes| - 1], k, i, before);
    }
  }

  /** Read-after-write holds for all data of this shape, at every point of the region list. */
  ghost predicate AlwaysOverlaid(t: Target, m: Mirror, pending: seq<Pending>)
    requires Usable(t, m)
  {
    forall q, k, i :: SameShape(pending, q) && 0 <= k <= |q| && IsData(t, q[..k], i) ==>
      IsOverlaid(t, q[..k], FlushRegions(t, m, q[..k]).writes, i)
  }

  /** A description that lands on data spoils the file for some data of the same shape. */
  lemma {:induction false} LandingOnDataSpoils(t: Target, m: Mirror, p: seq<Pending>, i: nat)
    requires Usable(t, m) && p != [] && IsAppend(t, p[|p| - 1])
    requires FlushRegions(t, m, p).Done? && IsData(t, p, i)
    requires var a := FlushRegions(t, m, p).mirror.address; a <= i < a + DESCRIPTION_SIZE
    ensures !AlwaysOverlaid(t, m, p)
  {
    var description := DescriptionWrite(FlushRegions(t, m, p).mirror);
    var landed := description.bytes[i - description.at];
    var other: Byte := if landed == 0 then 1 else 0;
    var q := WithByte(t, p, i, other);
    ShapeDecidesMirror(t, m, p, q);
    ShapeDecidesData(t, p, q, i);
    EndsWithDescription(t, m, q, i, other);
    assert !IsOverlaid(t, q, FlushRegions(t, m, q).writes, i);
    assert q[..|q|] == q;
  }

  /** The regions changed so that byte i should become a given value. */
  lemma {:induction false} WithByte(t: Target, p: seq<Pending>, i: nat, other: Byte) returns (q: seq<Pending>)
    ensures SameShape(p, q) && After(DataWrites(t, q), i, other) == other
  {
    if Touched(DataWrites(t, p), i) {
      var d := DataWrites(t, p);
      var k := LastToucher(d, i);
      q := p[k := Pending(p[k].offset, p[k].bytes[i - t.fileStart - p[k].offset := other])];
      var e := DataWrites(t, q);
      assert forall j :: 0 <= j < |p| ==> (Covers(d[j], i) <==> Covers(e[j], i));
      AfterLastToucher(e, k, i, other);
    } else {
      q := p;
      AfterUntouched(DataWrites(t, p), i, other);
    }
  }

  lemma {:induction false} EndsWithDescription(t: Target, m: Mirror, q: seq<Pending>, i: nat, before: Byte)
    requires Usable(t, m) && q != [] && IsAppend(t, q[|q| - 1])
    requires FlushRegions(t, m, q).Done?
    requires var a := FlushRegions(t, m, q).mirror.address; a <= i < a + DESCRIPTION_SIZE
    ensures var description := DescriptionWrite(FlushRegions(t, m, q).mirror);
            After(FlushRegions(t, m, q).writes, i, before) == description.bytes[i - description.at]
  {
    hide Describe, Encode, RegionWrites, HasSpace;
    var n := |q| - 1;
    var o := FlushRegions(t, m, q[..n]);
    AfterConcat(o.writes, RegionWrites(t, o.mirror, q[n]), i, before);
    AfterRegion(t, o.mirror, q[n], i, After(o.writes, i, before));
  }

  lemma {:induction false} ClearIfAlwaysOverlaid(t: Target, m: Mirror, pending: seq<Pending>)
    requires Usable(t, m) && FlushRegions(t, m, pending).Done?
    requires AlwaysOverlaid(t, m, pending)
    ensures DescriptionsClear(t, m, pending)
    decreases |pending|
  {
    if pending != [] {
      var n := |pending| - 1;
      forall q, k, i | SameShape(pending[..n], q) && 0 <= k <= |q| && IsData(t, q[..k], i)
        ensures IsOverlaid(t, q[..k], FlushRegions(t, m, q[..k]).writes, i)
      {
        var q' := q + [pending[n]];
        assert SameShape(pending, q') && q'[..k] == q[..k];
      }
      ClearIfAlwaysOverlaid(t, m, pending[..n]);
      if IsAppend(t, pending[n]) {
        var a := FlushRegions(t, m, pending).mirror.address;
        forall i | a <= i < a + DESCRIPTION_SIZE
          ensures !IsData(t, pending, i)
        {
          if IsData(t, pending, i) {
            LandingOnDataSpoils(t, m, pending, i);
          }
        }
      }
    }
  }

  /** The exact condition for read-after-write at every point of the region list, wherever the flush
      may be stopped between two regions. It looks at offsets and lengths only. */
  lemma {:induction false} AlwaysOverlaidIffClear(t: Target, m: Mirror, pending: seq<Pending>)
    requires Usable(t, m) && FlushRegions(t, m, pending).Done?
    requires m.address != 0 ==> IsPlaceFree(t, [], m.address)
    ensures AlwaysOverlaid(t, m, pending) <==> DescriptionsClear(t, m, pending)
  {
    if AlwaysOverlaid(t, m, pending) {
      ClearIfAlwaysOverlaid(t, m, pending);
    }
    if DescriptionsClear(t, m, pending) {
      forall q, k, i | SameShape(pending, q) && 0 <= k <= |q| && IsData(t, q[..k], i)
        ensures IsOverlaid(t, q[..k], FlushRegions(t, m, q[..k]).writes, i)
      {
        ShapeDecidesMirror(t, m, pending, q);
        ShapeDecidesClear(t, m, pending, q);
        PrefixIsClear(t, m, q, k);
        FlushOverlays(t, m, q[..k], i);
      }
    }
  }

  // ---------- geometry ----------

  lemma DivisionBounds(x: nat, y: nat)
    requires y > 0
    ensures x / y * y <= x < (x / y + 1) * y
  {
  }

  lemma ProductGrows(a: nat, b: nat, y: nat)
    requires a <= b
    ensures a * y <= b * y
  {
  }

  /** A file and its description end inside the last block, and reach into it. */
  lemma {:induction false} SpanBounds(dataSize: nat, blockSize: nat)
    requires blockSize >= DESCRIPTION_SIZE
    ensures var end := BlockEndOf(BlockSpan(dataSize, blockSize), blockSize);
            end - blockSize <= dataSize + DESCRIPTION_SIZE < end
  {
    DivisionBounds(dataSize + DESCRIPTION_SIZE, blockSize);
  }

  lemma {:induction false} SpanGrows(a: nat, b: nat, blockSize: nat)
    requires a <= b && blockSize > 0
    ensures BlockSpan(a, blockSize) <= BlockSpan(b, blockSize)
  {
    DivisionBounds(a + DESCRIPTION_SIZE, blockSize);
    DivisionBounds(b + DESCRIPTION_SIZE, blockSize);
    if BlockSpan(a, blockSize) > BlockSpan(b, blockSize) {
      ProductGrows(BlockSpan(b, blockSize) + 1, BlockSpan(a, blockSize), blockSize);
    }
  }

  /** The file starts at a block boundary and everything about it fits 32 bits. */
  predicate Small(t: Target, dataSize: nat)
    requires t.blockSize > 0
  {
    && t.fileStart == BlocksOf(t.fileStart, t.blockSize) * t.blockSize
    && t.fileStart + dataSize + DESCRIPTION_SIZE + t.blockSize < 0x1_0000_0000
  }

  lemma {:induction false} RenewedPlace(t: Target, m: Mirror, dataSize: nat)
    requires Usable(t, m) && Small(t, dataSize)
    ensures var r := Renewed(t, m, dataSize);
            && r.description.blockStart == BlocksOf(t.fileStart, t.blockSize)
            && r.description.blockEnd == BlocksOf(t.fileStart, t.blockSize) + BlockSpan(dataSize, t.blockSize)
            && r.description.regions[0].size == dataSize
            && r.address == t.fileStart + BlockEndOf(BlockSpan(dataSize, t.blockSize), t.blockSize) - DESCRIPTION_SIZE
            && t.fileStart + dataSize < r.address
            && StringIn(r.description.filename) == t.name
            && IsImageValid(r.description, r.description.blockEnd)
  {
    hide Describe, Encode, Decode, FooterChecksum, StringIn, IsImageValid;
    var start, span := BlocksOf(t.fileStart, t.blockSize), BlockSpan(dataSize, t.blockSize);
    SpanBounds(dataSize, t.blockSize);
    DivisionBounds(t.fileStart, t.blockSize);
    assert (start + span + 1) * t.blockSize == start * t.blockSize + (span + 1) * t.blockSize;
    SmallQuotient(start + span, t.blockSize, t.fileStart + dataSize + DESCRIPTION_SIZE);
    DescribeIsRecognised(m.description, t.name, dataSize, t.fileStart, t.blockSize, start + span);
  }

  lemma SmallQuotient(q: nat, y: nat, x: nat)
    requires y > 0 && q * y <= x
    ensures q <= x
  {
  }

  /** Appending regions end in blocks that never decrease. */
  ghost predicate EndBlocksRise(t: Target, pending: seq<Pending>)
    requires t.blockSize > 0
  {
    forall j, k :: 0 <= j < k < |pending| && IsAppend(t, pending[j]) && IsAppend(t, pending[k]) ==>
      BlockSpan(RegionEnd(pending[j]), t.blockSize) <= BlockSpan(RegionEnd(pending[k]), t.blockSize)
  }

  ghost predicate AllWithin(pending: seq<Pending>, dataSize: nat) {
    forall k :: 0 <= k < |pending| ==> RegionEnd(pending[k]) <= dataSize
  }

  /** All data of a file lies below the description written after its last region. */
  lemma {:induction false} DataIsBelow(t: Target, m: Mirror, pending: seq<Pending>, dataSize: nat, i: nat)
    requires Usable(t, m) && Small(t, dataSize) && AllWithin(pending, dataSize)
    requires t.fileStart <= t.fileEnd && EndBlocksRise(t, pending)
    requires pending != [] && IsAppend(t, pending[|pending| - 1]) && IsData(t, pending, i)
    ensures i < Renewed(t, m, RegionEnd(pending[|pending| - 1])).address
  {
    hide Describe;
    var r := pending[|pending| - 1];
    RenewedPlace(t, m, RegionEnd(r));
    if !(t.fileStart <= i < t.fileEnd) {
      var k :| 0 <= k < |pending| && Covers(DataWrites(t, pending)[k], i);
      SpanBounds(RegionEnd(pending[k]), t.blockSize);
      ProductGrows(BlockSpan(RegionEnd(pending[k]), t.blockSize) + 1, BlockSpan(RegionEnd(r), t.blockSize) + 1,
                   t.blockSize);
    }
  }

  /** Rising end blocks are enough for read-after-write. */
  lemma {:induction false} RisingIsClear(t: Target, m: Mirror, pending: seq<Pending>, dataSize: nat)
    requires Usable(t, m) && Small(t, dataSize) && AllWithin(pending, dataSize)
    requires t.fileStart <= t.fileEnd
    requires EndBlocksRise(t, pending)
    ensures DescriptionsClear(t, m, pending)
    decreases |pending|
  {
    if pending != [] {
      var n := |pending| - 1;
      var o := FlushRegions(t, m, pending[..n]);
      RisingIsClear(t, m, pending[..n], dataSize);
      if IsAppend(t, pending[n]) {
        forall i: nat | IsData(t, pending, i)
          ensures i < Renewed(t, o.mirror, RegionEnd(pending[n])).address
        {
          DataIsBelow(t, o.mirror, pending, dataSize, i);
        }
      }
    }
  }

  // ---------- the whole flush ----------

  /** The final description lies behind all data of the final size, so read-after-write holds
      for the file as its size says. */
  lemma {:induction false} FlushFileOverlays(t: Target, m: Mirror, pending: seq<Pending>, fileSize: nat, i: nat)
    requires Usable(t, m) && Small(t, fileSize)
    requires m.address != 0 ==> IsPlaceFree(t, [], m.address)
    requires FlushFile(t, m, pending, fileSize).Done? && DescriptionsClear(t, m, pending)
    requires IsData(t, pending, i) && i < t.fileStart + fileSize
    ensures IsOverlaid(t, pending, FlushFile(t, m, pending, fileSize).writes, i)
  {
    FlushOverlays(t, m, pending, i);
    var o := FlushRegions(t, m, pending);
    if IsOutdated(t, o.mirror, fileSize) {
      RenewedPlace(t, o.mirror, fileSize);
      forall before: Byte
        ensures After(FlushFile(t, m, pending, fileSize).writes, i, before) == After(DataWrites(t, pending), i, before)
      {
        AfterAppend(o.writes, DescriptionWrite(Renewed(t, o.mirror, fileSize)), i, before);
      }
    }
  }

  // ---------- when read-after-write holds for a flush that went through ----------

  /** Where the description is just before region n. */
  function AddressBefore(t: Target, m: Mirror, pending: seq<Pending>, n: nat): nat
    requires Usable(t, m) && n <= |pending|
  {
    FlushRegions(t, m, pending[..n]).mirror.address
  }

  /** The description that region n writes lies on byte i. */
  predicate DescriptionLands(t: Target, m: Mirror, pending: seq<Pending>, n: nat, i: nat)
    requires Usable(t, m) && n < |pending|
  {
    IsAppend(t, pending[n])
    && InDescription(Renewed(t, FlushRegions(t, m, pending[..n]).mirror, RegionEnd(pending[n])).address, i)
  }

  /** Region n wipes a description that lies on byte i. */
  predicate WipeLands(t: Target, m: Mirror, pending: seq<Pending>, n: nat, i: nat)
    requires Usable(t, m) && n < |pending|
  {
    IsAppend(t, pending[n]) && AddressBefore(t, m, pending, n) != 0 && InDescription(AddressBefore(t, m, pending, n), i)
  }

  predicate InDescription(address: nat, i: nat) {
    address <= i < address + DESCRIPTION_SIZE
  }

  /** Some region from number n on writes byte i. */
  predicate CoveredFrom(t: Target, pending: seq<Pending>, n: nat, i: nat) {
    exists k :: n <= k < |pending| && Covers(DataWrite(t, pending[k]), i)
  }

  /** What region n wipes or describes on byte i is written again: after wiping by itself or a later
      region, after describing by a later one. */
  predicate IsRepaired(t: Target, m: Mirror, pending: seq<Pending>, n: nat, i: nat)
    requires Usable(t, m) && n < |pending|
  {
    && (WipeLands(t, m, pending, n, i) ==> CoveredFrom(t, pending, n, i))
    && (DescriptionLands(t, m, pending, n, i) ==> CoveredFrom(t, pending, n + 1, i))
  }

  /** Every byte of data on which a description or a wipe lands is written again by a region queued
      later. Offsets, lengths and the place of the old description decide. */
  ghost predicate LandingsCovered(t: Target, m: Mirror, pending: seq<Pending>, fileSize: nat)
    requires Usable(t, m)
  {
    forall n: nat, i: nat :: n < |pending| && IsData(t, pending, i) && i < t.fileStart + fileSize ==>
      IsRepaired(t, m, pending, n, i)
  }

  /** Data has the last word on byte i, or nothing ever landed there. */
  predicate IsKept(t: Target, m: Mirror, pending: seq<Pending>, i: nat)
    requires Usable(t, m)
    decreases |pending|
  {
    pending == [] ||
      var n := |pending| - 1;
      && !DescriptionLands(t, m, pending, n, i)
      && (Covers(DataWrite(t, pending[n]), i) || (!WipeLands(t, m, pending, n, i) && IsKept(t, m, pending[..n], i)))
  }

  lemma {:induction false} LandingsOfPrefix(t: Target, m: Mirror, pending: seq<Pending>, n: nat, i: nat)
    requires Usable(t, m) && n < |pending| - 1
    ensures DescriptionLands(t, m, pending, n, i) <==> DescriptionLands(t, m, pending[..|pending| - 1], n, i)
    ensures WipeLands(t, m, pending, n, i) <==> WipeLands(t, m, pending[..|pending| - 1], n, i)
  {
    assert pending[..|pending| - 1][..n] == pending[..n];
  }

  lemma {:induction false} CoveredSnoc(t: Target, pending: seq<Pending>, n: nat, i: nat)
    requires n < |pending|
    ensures CoveredFrom(t, pending, n, i) <==>
            CoveredFrom(t, pending[..|pending| - 1], n, i) || Covers(DataWrite(t, pending[|pending| - 1]), i)
  {
    var p, last := pending[..|pending| - 1], |pending| - 1;
    assert forall k :: 0 <= k < last ==> p[k] == pending[k];
    if Covers(DataWrite(t, pending[last]), i) {
      assert CoveredFrom(t, pending, n, i);
    }
    if k :| n <= k < |p| && Covers(DataWrite(t, p[k]), i) {
      assert Covers(DataWrite(t, pending[k]), i);
    }
  }

  lemma {:induction false} KeptIffRepaired(t: Target, m: Mirror, pending: seq<Pending>, i: nat)
    requires Usable(t, m)
    ensures IsKept(t, m, pending, i) <==> forall n: nat :: n < |pending| ==> IsRepaired(t, m, pending, n, i)
    decreases |pending|
  {
    hide DescriptionLands, WipeLands, Covers, CoveredFrom;
    if pending != [] {
      var last := |pending| - 1;
      var p := pending[..last];
      KeptIffRepaired(t, m, p, i);
      var covered := Covers(DataWrite(t, pending[last]), i);
      NotCoveredBehind(t, pending, i);
      CoveredSnoc(t, pending, last, i);
      NotCoveredBehind(t, p, i);
      forall n: nat | n < last
        ensures IsRepaired(t, m, pending, n, i) <==> covered || IsRepaired(t, m, p, n, i)
      {
        LandingsOfPrefix(t, m, pending, n, i);
        CoveredSnoc(t, pending, n, i);
        CoveredSnoc(t, pending, n + 1, i);
      }
      assert IsRepaired(t, m, pending, last, i) <==>
             !DescriptionLands(t, m, pending, last, i) && (covered || !WipeLands(t, m, pending, last, i));
      hide IsRepaired;
      if IsKept(t, m, pending, i) {
        forall n: nat | n < |pending|
          ensures IsRepaired(t, m, pending, n, i)
        {
        }
      } else if !covered && !IsKept(t, m, p, i) {
        var n: nat :| n < |p| && !IsRepaired(t, m, p, n, i);
        assert !IsRepaired(t, m, pending, n, i);
      }
    }
  }

  lemma NotCoveredBehind(t: Target, pending: seq<Pending>, i: nat)
    ensures !CoveredFrom(t, pending, |pending|, i)
  {
  }

  lemma {:induction false} KeptIsOverlaid(t: Target, m: Mirror, pending: seq<Pending>, i: nat, before: Byte)
    requires Usable(t, m) && FlushRegions(t, m, pending).Done? && IsKept(t, m, pending, i)
    ensures After(FlushRegions(t, m, pending).writes, i, before) == After(DataWrites(t, pending), i, before)
    decreases |pending|
  {
    if pending != [] {
      var n := |pending| - 1;
      var o := FlushRegions(t, m, pending[..n]);
      DataSnoc(t, pending, i);
      AfterAppend(DataWrites(t, pending[..n]), DataWrite(t, pending[n]), i, before);
      AfterConcat(o.writes, RegionWrites(t, o.mirror, pending[n]), i, before);
      AfterRegion(t, o.mirror, pending[n], i, After(o.writes, i, before));
      if !Covers(DataWrite(t, pending[n]), i) {
        KeptIsOverlaid(t, m, pending[..n], i, before);
      }
    }
  }

  /** What is left on a byte that is not kept. The data has no influence on it. */
  function Spoilt(t: Target, m: Mirror, pending: seq<Pending>, i: nat): Byte
    requires Usable(t, m) && !IsKept(t, m, pending, i)
    decreases |pending|
  {
    var n := |pending| - 1;
    var r := Renewed(t, FlushRegions(t, m, pending[..n]).mirror, RegionEnd(pending[n]));
    if DescriptionLands(t, m, pending, n, i) then Encode(r.description)[i - r.address]
    else if WipeLands(t, m, pending, n, i) then 0
    else Spoilt(t, m, pending[..n], i)
  }

  lemma {:induction false} NotKeptIsSpoilt(t: Target, m: Mirror, pending: seq<Pending>, i: nat, before: Byte)
    requires Usable(t, m) && FlushRegions(t, m, pending).Done? && !IsKept(t, m, pending, i)
    ensures After(FlushRegions(t, m, pending).writes, i, before) == Spoilt(t, m, pending, i)
    decreases |pending|
  {
    hide Describe, Encode, HasSpace, RegionWrites;
    var n := |pending| - 1;
    var o := FlushRegions(t, m, pending[..n]);
    AfterConcat(o.writes, RegionWrites(t, o.mirror, pending[n]), i, before);
    AfterRegion(t, o.mirror, pending[n], i, After(o.writes, i, before));
    if !DescriptionLands(t, m, pending, n, i) && !WipeLands(t, m, pending, n, i) {
      NotKeptIsSpoilt(t, m, pending[..n], i, before);
    }
  }

  lemma {:induction false} ShapeDecidesKept(t: Target, m: Mirror, p: seq<Pending>, q: seq<Pending>, i: nat)
    requires Usable(t, m) && SameShape(p, q)
    ensures IsKept(t, m, p, i) <==> IsKept(t, m, q, i)
    ensures !IsKept(t, m, p, i) ==> Spoilt(t, m, p, i) == Spoilt(t, m, q, i)
    decreases |p|
  {
    hide Describe, Encode, FlushRegions;
    if p != [] {
      var n := |p| - 1;
      ShapeDecidesMirror(t, m, p[..n], q[..n]);
      ShapeDecidesKept(t, m, p[..n], q[..n], i);
      assert RegionEnd(p[n]) == RegionEnd(q[n]) && (IsAppend(t, p[n]) <==> IsAppend(t, q[n]));
    }
  }

  /** The finished flush overlays every byte of the file, for all data of this shape. */
  ghost predicate FlushAlwaysOverlays(t: Target, m: Mirror, pending: seq<Pending>, fileSize: nat)
    requires Usable(t, m)
  {
    forall q: seq<Pending>, i: nat :: SameShape(pending, q) && IsData(t, q, i) && i < t.fileStart + fileSize ==>
      IsOverlaid(t, q, FlushFile(t, m, q, fileSize).writes, i)
  }

  /** The final description lies behind the data and changes nothing about it. */
  lemma {:induction false} FinalIsBehind(t: Target, m: Mirror, pending: seq<Pending>, fileSize: nat, i: nat,
                                         before: Byte)
    requires Usable(t, m) && Small(t, fileSize)
    requires FlushRegions(t, m, pending).Done? && i < t.fileStart + fileSize
    ensures After(FlushFile(t, m, pending, fileSize).writes, i, before)
            == After(FlushRegions(t, m, pending).writes, i, before)
  {
    hide Describe, Encode;
    var o := FlushRegions(t, m, pending);
    if IsOutdated(t, o.mirror, fileSize) {
      RenewedPlace(t, o.mirror, fileSize);
      AfterAppend(o.writes, DescriptionWrite(Renewed(t, o.mirror, fileSize)), i, before);
    }
  }

  lemma {:induction false} SpoiltIsNotOverlaid(t: Target, m: Mirror, p: seq<Pending>, fileSize: nat, i: nat)
    requires Usable(t, m) && Small(t, fileSize)
    requires FlushRegions(t, m, p).Done? && IsData(t, p, i) && i < t.fileStart + fileSize
    requires !IsKept(t, m, p, i)
    ensures !FlushAlwaysOverlays(t, m, p, fileSize)
  {
    hide FlushFile, FlushRegions, IsKept, Spoilt, After, IsData;
    var other: Byte := if Spoilt(t, m, p, i) == 0 then 1 else 0;
    var q := WithByte(t, p, i, other);
    ShapeDecidesMirror(t, m, p, q);
    ShapeDecidesData(t, p, q, i);
    ShapeDecidesKept(t, m, p, q, i);
    NotKeptIsSpoilt(t, m, q, i, other);
    FinalIsBehind(t, m, q, fileSize, i, other);
    assert !IsOverlaid(t, q, FlushFile(t, m, q, fileSize).writes, i);
  }

  /** The exact condition for read-after-write after a flush that went through, whatever bytes are
      queued: everything that lands on data is covered by a region queued at that step or later. */
  lemma {:induction false} FlushOverlaysIffLandingsCovered(t: Target, m: Mirror, pending: seq<Pending>, fileSize: nat)
    requires Usable(t, m) && Small(t, fileSize)
    requires FlushFile(t, m, pending, fileSize).Done?
    ensures FlushAlwaysOverlays(t, m, pending, fileSize) <==> LandingsCovered(t, m, pending, fileSize)
  {
    hide FlushFile, IsKept, IsData, IsRepaired, SameShape;
    assert FlushRegions(t, m, pending).Done? by { RegionsAreDone(t, m, pending, fileSize); }
    hide FlushRegions;
    if LandingsCovered(t, m, pending, fileSize) {
      forall q: seq<Pending>, i: nat | SameShape(pending, q) && IsData(t, q, i) && i < t.fileStart + fileSize
        ensures IsOverlaid(t, q, FlushFile(t, m, q, fileSize).writes, i)
      {
        KeptIffRepaired(t, m, pending, i);
        ShapeDecidesMirror(t, m, pending, q);
        ShapeDecidesData(t, pending, q, i);
        ShapeDecidesKept(t, m, pending, q, i);
        forall before: Byte
          ensures After(FlushFile(t, m, q, fileSize).writes, i, before) == After(DataWrites(t, q), i, before)
        {
          KeptIsOverlaid(t, m, q, i, before);
          FinalIsBehind(t, m, q, fileSize, i, before);
        }
      }
    } else {
      var n: nat, i: nat :| n < |pending| && IsData(t, pending, i) && i < t.fileStart + fileSize
          && !IsRepaired(t, m, pending, n, i);
      KeptIffRepaired(t, m, pending, i);
      SpoiltIsNotOverlaid(t, m, pending, fileSize, i);
    }
  }

  lemma RegionsAreDone(t: Target, m: Mirror, pending: seq<Pending>, fileSize: nat)
    requires Usable(t, m) && FlushFile(t, m, pending, fileSize).Done?
    ensures FlushRegions(t, m, pending).Done?
  {
  }

  /** Keeping descriptions off the data is enough, and more than is needed. */
  lemma {:induction false} ClearIsCovered(t: Target, m: Mirror, pending: seq<Pending>, fileSize: nat)
    requires Usable(t, m) && Small(t, fileSize)
    requires m.address != 0 ==> IsPlaceFree(t, [], m.address)
    requires FlushFile(t, m, pending, fileSize).Done? && DescriptionsClear(t, m, pending)
    ensures LandingsCovered(t, m, pending, fileSize)
  {
    hide FlushRegions, DescriptionsClear, IsPlaceFree, IsData, SameShape, IsOutdated;
    forall q: seq<Pending>, i: nat | SameShape(pending, q) && IsData(t, q, i) && i < t.fileStart + fileSize
      ensures IsOverlaid(t, q, FlushFile(t, m, q, fileSize).writes, i)
    {
      ShapeDecidesMirror(t, m, pending, q);
      ShapeDecidesClear(t, m, pending, q);
      FlushFileOverlays(t, m, q, fileSize, i);
    }
    FlushOverlaysIffLandingsCovered(t, m, pending, fileSize);
  }

  ghost predicate IsInside(w: Write, from: nat, to: nat) {
    from <= w.at && w.at + |w.bytes| <= to
  }

  /** The end of the blocks a flush may write to: the blocks of the final size, or those the
      file had before. */
  function OwnEnd(t: Target, m: Mirror, fileSize: nat): nat
    requires t.blockSize >= DESCRIPTION_SIZE
  {
    var end := t.fileStart + BlockEndOf(BlockSpan(fileSize, t.blockSize), t.blockSize);
    var oldEnd := if m.address == 0 then end else m.address + DESCRIPTION_SIZE;
    if end < oldEnd then oldEnd else end
  }

  lemma {:induction false} RegionStaysInside(t: Target, m: Mirror, r: Pending, fileSize: nat, end: nat)
    requires Usable(t, m) && Small(t, fileSize) && RegionEnd(r) <= fileSize
    requires t.fileStart + BlockEndOf(BlockSpan(fileSize, t.blockSize), t.blockSize) <= end
    requires m.address != 0 ==> t.fileStart <= m.address <= end - DESCRIPTION_SIZE
    ensures forall w :: w in RegionWrites(t, m, r) ==> IsInside(w, t.fileStart, end)
    ensures t.fileStart <= Renewed(t, m, RegionEnd(r)).address <= end - DESCRIPTION_SIZE
  {
    SpanBounds(fileSize, t.blockSize);
    RenewedPlace(t, m, RegionEnd(r));
    SpanGrows(RegionEnd(r), fileSize, t.blockSize);
    ProductGrows(BlockSpan(RegionEnd(r), t.blockSize) + 1, BlockSpan(fileSize, t.blockSize) + 1, t.blockSize);
  }

  lemma {:induction false} RegionsStayInside(t: Target, m: Mirror, pending: seq<Pending>, fileSize: nat)
    requires Usable(t, m) && Small(t, fileSize) && AllWithin(pending, fileSize)
    requires m.address != 0 ==> t.fileStart <= m.address
    ensures var o := FlushRegions(t, m, pending);
            && (forall w :: w in o.writes ==> IsInside(w, t.fileStart, OwnEnd(t, m, fileSize)))
            && (o.mirror.address != 0 ==> t.fileStart <= o.mirror.address <= OwnEnd(t, m, fileSize) - DESCRIPTION_SIZE)
    decreases |pending|
  {
    if pending != [] {
      var n := |pending| - 1;
      var o := FlushRegions(t, m, pending[..n]);
      RegionsStayInside(t, m, pending[..n], fileSize);
      RegionStaysInside(t, o.mirror, pending[n], fileSize, OwnEnd(t, m, fileSize));
    }
  }

  /** A flush writes to the blocks of its own file and nowhere else. */
  lemma {:induction false} FlushStaysInside(t: Target, m: Mirror, pending: seq<Pending>, fileSize: nat)
    requires Usable(t, m) && Small(t, fileSize) && AllWithin(pending, fileSize)
    requires m.address != 0 ==> t.fileStart <= m.address
    ensures forall w :: w in FlushFile(t, m, pending, fileSize).writes ==>
            IsInside(w, t.fileStart, OwnEnd(t, m, fileSize))
  {
    RegionsStayInside(t, m, pending, fileSize);
    var o := FlushRegions(t, m, pending);
    RenewedPlace(t, o.mirror, fileSize);
  }
}
