/** The bytes of a file while some of them still wait to be written: what writing, truncating
    and growing a file do to its contents. */
module BootMonRegions {
  import opened Bytes
  import opened BootMonFormat
  import opened BootMonFlush

  /** Byte j of the file: the last waiting region that covers it decides, else the media does. */
  function Overlay(pending: seq<Pending>, j: nat, before: Byte): Byte {
    if pending == [] then before
    else
      var last := pending[|pending| - 1];
      if last.offset <= j < RegionEnd(last) then last.bytes[j - last.offset]
      else Overlay(pending[..|pending| - 1], j, before)
  }

  /** What a flush should leave on the media is the overlay, at the place of the file. */
  lemma {:induction false} OverlayIsData(t: Target, pending: seq<Pending>, j: nat, before: Byte)
    ensures After(DataWrites(t, pending), t.fileStart + j, before) == Overlay(pending, j, before)
  {
    if pending != [] {
      var n := |pending| - 1;
      OverlayIsData(t, pending[..n], j, before);
      DataSnoc(t, pending, t.fileStart + j);
      AfterAppend(DataWrites(t, pending[..n]), DataWrite(t, pending[n]), t.fileStart + j, before);
    }
  }

  lemma OverlaySnoc(pending: seq<Pending>, r: Pending, j: nat, before: Byte)
    ensures Overlay(pending + [r], j, before) ==
            if r.offset <= j < RegionEnd(r) then r.bytes[j - r.offset] else Overlay(pending, j, before)
  {
    assert (pending + [r])[..|pending|] == pending;
  }

  // ---------- truncating ----------

  function Min(a: nat, b: nat): nat {
    if a < b then a else b
  }

  /** What truncation leaves of one region. */
  function Cut(r: Pending, newSize: nat): seq<Pending> {
    if r.offset > newSize then [] else [Pending(r.offset, r.bytes[..Min(|r.bytes|, newSize - r.offset)])]
  }

  function Truncated(pending: seq<Pending>, newSize: nat): seq<Pending> {
    if pending == [] then []
    else Truncated(pending[..|pending| - 1], newSize) + Cut(pending[|pending| - 1], newSize)
  }

  /** Truncation leaves every region within the new size, and the bytes below it as they were. */
  lemma {:induction false} TruncatedContents(pending: seq<Pending>, newSize: nat, j: nat, before: Byte)
    ensures AllWithin(Truncated(pending, newSize), newSize)
    ensures Overlay(Truncated(pending, newSize), j, before) ==
            if j < newSize then Overlay(pending, j, before) else before
  {
    if pending != [] {
      var n := |pending| - 1;
      hide AllWithin, Cut;
      TruncatedContents(pending[..n], newSize, j, before);
      CutContents(Truncated(pending[..n], newSize), pending[n], newSize, j, before);
    }
  }

  lemma {:induction false} CutContents(rest: seq<Pending>, r: Pending, newSize: nat, j: nat, before: Byte)
    ensures Overlay(rest + Cut(r, newSize), j, before) ==
            if r.offset <= j < RegionEnd(r) && j < newSize then r.bytes[j - r.offset] else Overlay(rest, j, before)
    ensures AllWithin(rest, newSize) ==> AllWithin(rest + Cut(r, newSize), newSize)
  {
    if r.offset <= newSize {
      OverlaySnoc(rest, Cut(r, newSize)[0], j, before);
    } else {
      assert rest + [] == rest;
    }
  }

  // ---------- growing ----------

  /** Growth is a write of zeros behind the old end. */
  function Grown(pending: seq<Pending>, oldSize: nat, newSize: nat): seq<Pending>
    requires oldSize <= newSize
  {
    pending + [Pending(oldSize, Zeros(newSize - oldSize))]
  }

  /** Growing a file adds zeros and nothing else. */
  lemma {:induction false} GrownContents(pending: seq<Pending>, oldSize: nat, newSize: nat, j: nat, before: Byte)
    requires oldSize <= newSize
    ensures Overlay(Grown(pending, oldSize, newSize), j, before) ==
            if oldSize <= j < newSize then 0 else Overlay(pending, j, before)
    ensures AllWithin(pending, oldSize) ==> AllWithin(Grown(pending, oldSize, newSize), newSize)
  {
    OverlaySnoc(pending, Pending(oldSize, Zeros(newSize - oldSize)), j, before);
  }

  function Resized(pending: seq<Pending>, oldSize: nat, newSize: nat): seq<Pending> {
    if newSize < oldSize then Truncated(pending, newSize)
    else if newSize > oldSize then Grown(pending, oldSize, newSize)
    else pending
  }

  /** Setting the size of a file, seen from its contents: the bytes below both sizes stay, the
      bytes gained are zeros, and nothing waits behind the new size. */
  lemma {:induction false} ResizedContents(pending: seq<Pending>, oldSize: nat, newSize: nat, j: nat, before: Byte)
    requires AllWithin(pending, oldSize)
    ensures AllWithin(Resized(pending, oldSize, newSize), newSize)
    ensures j < newSize ==>
              Overlay(Resized(pending, oldSize, newSize), j, before) ==
              if oldSize <= j then 0 else Overlay(pending, j, before)
  {
    if newSize < oldSize {
      TruncatedContents(pending, newSize, j, before);
    } else if newSize > oldSize {
      GrownContents(pending, oldSize, newSize, j, before);
    }
  }

  // ---------- the length of a file that is opened ----------

  /** The sizes of all regions of the description, then every waiting region that ends behind
      the length found so far is added to it. */
  function ImageLength(d: Description, pending: seq<Pending>): Word
    requires Shaped(d)
  {
    if pending == [] then Low32(d.regions[0].size + d.regions[1].size + d.regions[2].size + d.regions[3].size)
    else
      var length := ImageLength(d, pending[..|pending| - 1]);
      var end := RegionEnd(pending[|pending| - 1]);
      if end > length then Low32(length + end) else length
  }

  /** The same, not cut to 32 bits. */
  function FullLength(d: Description, pending: seq<Pending>): nat
    requires Shaped(d)
  {
    if pending == [] then d.regions[0].size + d.regions[1].size + d.regions[2].size + d.regions[3].size
    else
      var length := FullLength(d, pending[..|pending| - 1]);
      var end := RegionEnd(pending[|pending| - 1]);
      if end > length then length + end else length
  }

  /** Where the file should end: behind what its description tells and behind every waiting region. */
  function FurthestEnd(d: Description, pending: seq<Pending>): nat
    requires Shaped(d)
  {
    if pending == [] then FullLength(d, [])
    else
      var before, end := FurthestEnd(d, pending[..|pending| - 1]), RegionEnd(pending[|pending| - 1]);
      if end > before then end else before
  }

  /** No region reaches behind a length that is not zero, or a later one ends exactly where the sum does. */
  predicate NothingAdded(d: Description, pending: seq<Pending>)
    requires Shaped(d)
  {
    pending == [] ||
      var length, end := FullLength(d, pending[..|pending| - 1]), RegionEnd(pending[|pending| - 1]);
      if end > length then length == 0 else end == length || NothingAdded(d, pending[..|pending| - 1])
  }

  /** As long as it fits 32 bits the length covers every waiting region. It is the furthest end exactly
      if no region reached behind a length that was not zero: such a region is added where a maximum is
      meant, and only a region that ends where the sum does makes it right again. */
  lemma {:induction false} LengthCoversRegions(d: Description, pending: seq<Pending>)
    requires Shaped(d) && FullLength(d, pending) < 0x1_0000_0000
    ensures ImageLength(d, pending) == FullLength(d, pending) >= FurthestEnd(d, pending)
    ensures AllWithin(pending, ImageLength(d, pending))
    ensures ImageLength(d, pending) == FurthestEnd(d, pending) <==> NothingAdded(d, pending)
  {
    if pending != [] {
      LengthCoversRegions(d, pending[..|pending| - 1]);
      assert forall k :: 0 <= k < |pending| - 1 ==> pending[..|pending| - 1][k] == pending[k];
    }
  }
}
