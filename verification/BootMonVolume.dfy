/** The BootMonFs driver: a volume on a disk, its list of files, and the file operations. */
module BootMonVolume {
  import opened Bytes
  import opened Options
  import opened BootMonFormat
  import opened BootMonAllocator
  import opened BootMonFlush
  import opened BootMonMount
  import opened BootMonRegions

  datatype Status = Success | InvalidParameter | AccessDenied | DeviceError | NoSpace | OutOfResources | NotFound
                  | Unsupported | WriteProtected | DeleteFailure

  datatype OpenMode = ReadOnly | ReadWrite | CreateReadWrite

  datatype Info = Info(name: seq<Byte>, fileSize: nat, attribute: bv64)

  const NO_DESCRIPTION := Description(0, 0, 0, [NO_REGION, NO_REGION, NO_REGION, NO_REGION], 0, 0, 0,
                                      Zeros(MAX_NAME_LENGTH), 0, 0, 0, 0)

  // Seeking here means seeking to the end of the file.
  const END_OF_FILE: nat := 0xFFFF_FFFF_FFFF_FFFF

  // ---------- the disk ----------

  class Disk {
    const blockSize: nat
    const lastBlock: nat
    const data: array<Byte>
    // Which requests the device carries out is unknown.
    const works: nat -> bool
    var requests: nat

    predicate Valid() {
      blockSize > DESCRIPTION_SIZE && data.Length == MediaSize() && data.Length < 0x1_0000_0000
    }

    function MediaSize(): nat {
      (lastBlock + 1) * blockSize
    }

    constructor (data: array<Byte>, lastBlock: nat, blockSize: nat, works: nat -> bool)
      requires IsMedia(data[..], lastBlock + 1, blockSize)
      ensures Valid() && this.data == data && this.lastBlock == lastBlock && this.blockSize == blockSize
      ensures this.works == works && requests == 0
    {
      this.data, this.lastBlock, this.blockSize, this.works := data, lastBlock, blockSize, works;
      requests := 0;
    }

    method WriteDisk(at: nat, bytes: seq<Byte>) returns (ok: bool)
      modifies this`requests, data
      ensures ok == (at + |bytes| <= data.Length && works(old(requests))) && requests == old(requests) + 1
      ensures ok ==> data[..] == AfterAll(old(data[..]), [Write(at, bytes)])
      ensures !ok ==> data[..] == old(data[..])
    {
      ok := at + |bytes| <= data.Length && works(requests);
      requests := requests + 1;
      if ok {
        ghost var before := data[..];
        forall i | 0 <= i < |bytes| {
          data[at + i] := bytes[i];
        }
        OneWrite(before, Write(at, bytes));
      }
    }

    method ReadDisk(at: nat, length: nat) returns (ok: bool, bytes: seq<Byte>)
      modifies this`requests
      ensures ok ==> at + length <= data.Length && bytes == data[at..at + length]
      ensures !ok ==> bytes == []
      ensures ok == (at + length <= data.Length && works(old(requests))) && requests == old(requests) + 1
    {
      ok := at + length <= data.Length && works(requests);
      requests := requests + 1;
      bytes := if ok then data[at..at + length] else [];
    }
  }

  // ---------- files ----------

  class File {
    var description: Description
    var address: nat
    var info: Option<Info>
    var position: nat
    var pending: seq<Pending>
    var openMode: OpenMode

    ghost predicate Valid()
      reads this
    {
      && Shaped(description)
      && (info.Some? ==>
            && IsName(info.value.name)
            && (openMode == ReadOnly ==> info.value.name == StringIn(description.filename)))
    }

    function Mirror(): Mirror
      reads this`description, this`address
    {
      BootMonFlush.Mirror(description, address)
    }

    constructor ()
      ensures Valid() && description == NO_DESCRIPTION && address == 0 && info == None && pending == [] && position == 0
    {
      description, address, info, position, pending, openMode := NO_DESCRIPTION, 0, None, 0, [], ReadOnly;
    }

    /** The name in use while the file is open, the name on the media otherwise. */
    function EffectiveName(): seq<Byte>
      reads this
    {
      if info.Some? then info.value.name else StringIn(description.filename)
    }

    /** Every waiting region ends inside the file. */
    ghost predicate RegionsWithin()
      reads this
    {
      info.Some? && AllWithin(pending, info.value.fileSize)
    }

    method SetPosition(to: nat) returns (status: Status)
      modifies this`position
      ensures status == if info.Some? then Success else InvalidParameter
      ensures position == if info.None? then old(position)
                          else if to == END_OF_FILE then info.value.fileSize else to
    {
      if info.None? {
        return InvalidParameter;
      }
      position := if to == END_OF_FILE then info.value.fileSize else to;
      status := Success;
    }

    /** Nothing goes to the media yet: the bytes are queued behind those that already wait. */
    method WriteFile(bytes: seq<Byte>, granted: bool) returns (status: Status, written: nat)
      requires Valid()
      modifies this`position, this`pending, this`info
      ensures Valid()
      ensures status == if old(info).None? then InvalidParameter else if openMode == ReadOnly then AccessDenied
                        else if granted then Success else OutOfResources
      ensures status != Success ==> position == old(position) && pending == old(pending) && info == old(info)
      ensures status == Success ==>
                && written == |bytes| && position == old(position) + written
                && pending == old(pending) + [Pending(old(position), bytes)]
                && info == Some(old(info.value).(fileSize := Max(position, old(info.value.fileSize))))
      ensures old(RegionsWithin()) ==> RegionsWithin()
    {
      written := 0;
      if info.None? {
        return InvalidParameter, 0;
      }
      if openMode == ReadOnly {
        return AccessDenied, 0;
      }
      if !granted {
        return OutOfResources, 0;
      }
      pending := pending + [Pending(position, bytes)];
      position := position + |bytes|;
      if position > info.value.fileSize {
        info := Some(info.value.(fileSize := position));
      }
      return Success, |bytes|;
    }

    /** The regions of a truncated file, cut one after the other. */
    method CutRegions(newSize: nat)
      modifies this`pending
      ensures pending == Truncated(old(pending), newSize)
    {
      var kept, k := [], 0;
      while k < |pending|
        invariant 0 <= k <= |pending| && pending == old(pending)
        invariant kept == Truncated(pending[..k], newSize)
      {
        assert pending[..k + 1][..k] == pending[..k];
        kept := kept + Cut(pending[k], newSize);
        k := k + 1;
      }
      assert pending[..k] == pending;
      pending := kept;
    }

    /** Truncating cuts the waiting regions, growing queues zeros. The position does not move
        unless memory for the zeros is refused, in which case it is left at the old end. */
    method SetFileSize(newSize: nat, granted: bool) returns (status: Status)
      requires Valid() && info.Some? && openMode != ReadOnly && info.value.fileSize < 0x1_0000_0000
      modifies this`position, this`pending, this`info
      ensures Valid() && info.Some? && info.value == old(info.value).(fileSize := info.value.fileSize)
      ensures status == if newSize > old(info.value.fileSize) && !granted then OutOfResources else Success
      ensures status != Success ==>
                info == old(info) && pending == old(pending) && position == old(info.value.fileSize)
      ensures status == Success ==>
                && info.value.fileSize == newSize
                && pending == Resized(old(pending), old(info.value.fileSize), newSize)
                && (old(position) != END_OF_FILE ==> position == old(position))
      ensures old(RegionsWithin()) ==> RegionsWithin()
    {
      hide Truncated;
      var oldSize := Low32(info.value.fileSize);
      if newSize < oldSize {
        CutRegions(newSize);
        TruncatedContents(old(pending), newSize, 0, 0);
      } else if newSize > oldSize {
        var stored := position;
        var _ := SetPosition(oldSize);
        if !granted {
          return OutOfResources;
        }
        var _, _ := WriteFile(Zeros(newSize - oldSize), granted);
        var _ := SetPosition(stored);
      }
      info := Some(info.value.(fileSize := newSize));
      status := Success;
    }
  }

  function Max(a: nat, b: nat): nat {
    if a < b then b else a
  }

  ghost function DescriptionsOf(files: seq<File>): (list: seq<Description>)
    reads files
    ensures |list| == |files|
  {
    seq(|files|, i requires 0 <= i < |files| reads files => files[i].description)
  }

  // ---------- what a flush should do ----------

  function ExtentOf(d: Description, blockSize: nat): Option<Extent> {
    if d.regionCount == 0 then None
    else Some(Extent(StartOf(d, blockSize), BlockEndOf(d.blockEnd, blockSize)))
  }

  function StartOf(d: Description, blockSize: nat): nat {
    d.blockStart * blockSize
  }

  /** Reads count the blocks of a file from the lowest aligned block of the media. */
  function ShiftedStart(lowest: nat, d: Description, blockSize: nat): nat {
    (lowest + d.blockStart) * blockSize
  }

  function Extents(list: seq<Description>, blockSize: nat): (e: FileList)
    ensures |e| == |list|
  {
    seq(|list|, i requires 0 <= i < |list| => ExtentOf(list[i], blockSize))
  }

  /** The end of the space a file may grow into: the start of the next file in the list, even
      if that one has no place on the media yet. */
  function LimitAfter(list: seq<Description>, k: nat, blockSize: nat, total: nat): nat
    requires k < |list|
  {
    if k + 1 < |list| then StartOf(list[k + 1], blockSize) else total
  }

  function SpaceFor(list: seq<Description>, fileSize: nat, blockSize: nat, total: nat): (space: Space)
    ensures space.Before? ==> space.index < |list| && list[space.index].regionCount != 0
  {
    FirstFit(Extents(list, blockSize), 0, 0, fileSize + DESCRIPTION_SIZE, total)
  }

  /** Where file k of the list goes on the media: where it is, or for a new file the space found. */
  function TargetOf(list: seq<Description>, k: nat, info: Info, blockSize: nat, total: nat): Option<Target>
    requires k < |list| && Shaped(list[k])
  {
    var size := list[k].regions[0].size;
    if list[k].regionCount != 0 then
      var start := StartOf(list[k], blockSize);
      Some(Target(info.name, start, start + size, LimitAfter(list, k, blockSize, total), blockSize))
    else
      match SpaceFor(list, info.fileSize, blockSize, total)
      case VolumeFull => None
      case Before(i, start) => Some(Target(info.name, start, start + size, StartOf(list[i], blockSize), blockSize))
      case AtEnd(start) => Some(Target(info.name, start, start + size, LimitAfter(list, k, blockSize, total),
                                       blockSize))
  }

  /** A new file that goes in front of another is moved there in the list. */
  function Relinked<T>(files: seq<T>, list: seq<Description>, k: nat, fileSize: nat, blockSize: nat,
                       total: nat): (r: seq<T>)
    requires |files| == |list| && k < |list|
    ensures |r| == |files|
  {
    var space := SpaceFor(list, fileSize, blockSize, total);
    if list[k].regionCount == 0 && space.Before? then MoveBefore(files, k, space.index) else files
  }

  // What a flush works on.
  datatype Snapshot = Snapshot(mirror: Mirror, pending: seq<Pending>, media: Media)

  /** The outcome of a flush: all of it on the media, or everything before the region that did
      not fit, or everything before the write that the disk refused. */
  ghost predicate Reflects(status: Status, t: Target, fileSize: nat, before: Snapshot, after: Snapshot)
    requires Usable(t, before.mirror)
  {
    var o := BootMonFlush.FlushFile(t, before.mirror, before.pending, fileSize);
    match status
    case Success => o.Done? && after == Snapshot(o.mirror, [], AfterAll(before.media, o.writes))
    case NoSpace => o.Full? && after == Snapshot(o.mirror, before.pending, AfterAll(before.media, o.writes))
    case DeviceError => IsStopped(t, before, after) || IsStoppedAtEnd(t, fileSize, before, after)
    case _ => false
  }

  /** The same for the regions alone. */
  ghost predicate Reached(status: Status, t: Target, before: Snapshot, after: Snapshot)
    requires Usable(t, before.mirror)
  {
    var o := FlushRegions(t, before.mirror, before.pending);
    match status
    case Success => o.Done? && after == Snapshot(o.mirror, before.pending, AfterAll(before.media, o.writes))
    case NoSpace => o.Full? && after == Snapshot(o.mirror, before.pending, AfterAll(before.media, o.writes))
    case DeviceError => IsStopped(t, before, after)
    case _ => false
  }

  /** The description in memory once so many writes of a region were carried out and the next one
      was tried: the description is the last write of an append, and is renewed before it is tried. */
  function MirrorDuring(t: Target, m: Mirror, r: Pending, done: nat): (d: Mirror)
    requires Usable(t, m)
    ensures Usable(t, d)
  {
    if IsAppend(t, r) && done + 1 >= |RegionWrites(t, m, r)| then Renewed(t, m, RegionEnd(r)) else m
  }

  /** The disk refused some write of region k: the regions stay, and so do the writes before. */
  predicate IsStoppedAt(t: Target, before: Snapshot, k: nat, done: nat, after: Snapshot)
    requires Usable(t, before.mirror)
  {
    && k < |before.pending|
    && FlushRegions(t, before.mirror, before.pending[..k + 1]).Done?
    && (var m, r := FlushRegions(t, before.mirror, before.pending[..k]).mirror, before.pending[k];
        && done < |RegionWrites(t, m, r)|
        && after == Snapshot(MirrorDuring(t, m, r, done), before.pending,
                             AfterAll(AfterAll(before.media,
                                               FlushRegions(t, before.mirror, before.pending[..k]).writes),
                                      RegionWrites(t, m, r)[..done])))
  }

  ghost predicate IsStopped(t: Target, before: Snapshot, after: Snapshot)
    requires Usable(t, before.mirror)
  {
    exists k: nat, done: nat :: IsStoppedAt(t, before, k, done, after)
  }

  /** The disk refused the final description: the regions are gone and the description in memory
      is already the new one. */
  predicate IsStoppedAtEnd(t: Target, fileSize: nat, before: Snapshot, after: Snapshot)
    requires Usable(t, before.mirror)
  {
    var o := FlushRegions(t, before.mirror, before.pending);
    && o.Done? && IsOutdated(t, o.mirror, fileSize)
    && after == Snapshot(Renewed(t, o.mirror, fileSize), [], AfterAll(before.media, o.writes))
  }

  /** A refused write leaves a part of all the writes of the flush on the media. */
  lemma {:induction false} RefusedIsPartial(t: Target, fileSize: nat, before: Snapshot, after: Snapshot)
    requires Usable(t, before.mirror)
    requires Reflects(DeviceError, t, fileSize, before, after)
    ensures IsPartial(BootMonFlush.FlushFile(t, before.mirror, before.pending, fileSize).writes, before.media,
                      after.media)
  {
    hide FlushRegions, Renewed, AfterAll, IsStoppedAt, IsOutdated;
    var o := FlushRegions(t, before.mirror, before.pending);
    var all := BootMonFlush.FlushFile(t, before.mirror, before.pending, fileSize).writes;
    if IsStopped(t, before, after) {
      var k: nat, done: nat :| IsStoppedAt(t, before, k, done, after);
      StoppedIsPartial(t, before, k, done, after);
      var n :| 0 <= n < |o.writes| && after.media == AfterAll(before.media, o.writes[..n]);
      assert all[..n] == o.writes[..n];
    } else {
      assert all[..|o.writes|] == o.writes;
    }
  }

  lemma {:induction false} StoppedIsPartial(t: Target, before: Snapshot, k: nat, done: nat, after: Snapshot)
    requires Usable(t, before.mirror) && IsStoppedAt(t, before, k, done, after)
    ensures IsPartial(FlushRegions(t, before.mirror, before.pending).writes, before.media, after.media)
  {
    hide Renewed, AfterAll, RegionWrites, HasSpace;
    assert before.pending[..k + 1][..k] == before.pending[..k];
    PartOfRegionIsPart(t, before, k, after.media);
  }

  ghost predicate IsPartial(writes: seq<Write>, before: Media, after: Media) {
    exists n :: 0 <= n < |writes| && after == AfterAll(before, writes[..n])
  }

  lemma {:induction false} RegionsGrow(t: Target, m: Mirror, pending: seq<Pending>, k: nat)
    requires Usable(t, m) && k <= |pending|
    ensures FlushRegions(t, m, pending[..k]).writes <= FlushRegions(t, m, pending).writes
    ensures FlushRegions(t, m, pending[..k]).Full? ==> FlushRegions(t, m, pending) == FlushRegions(t, m, pending[..k])
    decreases |pending|
  {
    if k < |pending| {
      RegionsGrow(t, m, pending[..|pending| - 1], k);
      assert pending[..|pending| - 1][..k] == pending[..k];
    } else {
      assert pending[..k] == pending;
    }
  }

  lemma {:induction false} PartialConcat(a: seq<Write>, b: seq<Write>, all: seq<Write>, media: Media, after: Media)
    requires a + b <= all && IsPartial(b, AfterAll(media, a), after)
    ensures IsPartial(all, media, after)
  {
    var n :| 0 <= n < |b| && after == AfterAll(AfterAll(media, a), b[..n]);
    AfterAllConcat(media, a, b[..n]);
    assert all[..|a| + n] == a + b[..n];
  }

  /** A refused write in the middle of region k leaves a part of all writes of the flush. */
  lemma {:induction false} PartOfRegionIsPart(t: Target, before: Snapshot, k: nat, after: Media)
    requires Usable(t, before.mirror) && k < |before.pending|
    requires var o := FlushRegions(t, before.mirror, before.pending[..k]);
             && o.Done? && FlushRegions(t, before.mirror, before.pending[..k + 1]).Done?
             && IsPartial(RegionWrites(t, o.mirror, before.pending[k]), AfterAll(before.media, o.writes), after)
    ensures IsPartial(FlushRegions(t, before.mirror, before.pending).writes, before.media, after)
  {
    var p := before.pending[..k + 1];
    var o := FlushRegions(t, before.mirror, p[..k]);
    assert p[..k] == before.pending[..k];
    RegionsGrow(t, before.mirror, before.pending, k + 1);
    PartialConcat(o.writes, RegionWrites(t, o.mirror, p[k]), FlushRegions(t, before.mirror, before.pending).writes,
                  before.media, after);
  }

  /** The outcome of a read at some position of a file that starts somewhere on the media. */
  predicate IsRead(status: Status, bytes: seq<Byte>, media: Media, start: nat, size: nat, position: nat, length: nat) {
    if position > size then status == DeviceError
    else if position == size then status == Success && bytes == []
    else if status == Success then
      && start + position + Min(length, size - position) <= |media|
      && bytes == media[start + position..start + position + Min(length, size - position)]
    else status == DeviceError
  }

  // ---------- the volume ----------

  class Volume {
    const disk: Disk
    const lowestAlignedLba: nat
    var files: seq<File>
    var initialized: bool

    ghost predicate Valid()
      reads this`files, files
    {
      && disk.Valid()
      && (forall i :: 0 <= i < |files| ==> files[i].Valid())
      && (forall i, j :: 0 <= i < j < |files| ==> files[i] != files[j])
    }

    ghost function List(): (list: seq<Description>)
      reads this`files, files
      ensures |list| == |files|
    {
      DescriptionsOf(files)
    }

    ghost function IndexOf(file: File): (i: nat)
      requires file in files
      reads this`files
      ensures i < |files| && files[i] == file
    {
      var i :| 0 <= i < |files| && files[i] == file;
      i
    }

    ghost function Seen(file: File): Snapshot
      reads file`description, file`address, file`pending, disk.data
    {
      Snapshot(file.Mirror(), file.pending, disk.data[..])
    }

    /** Where the next flush of an open file will put it. */
    ghost function Aim(file: File): (t: Option<Target>)
      requires Valid() && file in files && file.info.Some?
      reads this`files, files
      ensures t.Some? ==> Usable(t.value, file.Mirror()) && t.value.name == file.info.value.name
    {
      TargetOf(List(), IndexOf(file), file.info.value, disk.blockSize, disk.MediaSize())
    }

    constructor (disk: Disk, lowestAlignedLba: nat)
      requires disk.Valid()
      ensures Valid() && files == [] && this.disk == disk && this.lowestAlignedLba == lowestAlignedLba
    {
      this.disk, this.lowestAlignedLba := disk, lowestAlignedLba;
      files, initialized := [], false;
    }

    // ---------- space for a new file ----------

    lemma IndexIs(file: File, i: nat)
      requires Valid() && i < |files| && files[i] == file
      ensures IndexOf(file) == i
    {
    }

    /** The scan of the list for the first space that is large enough. */
    method SearchSpace(size: nat) returns (space: Space)
      ensures space == FirstFit(Extents(List(), disk.blockSize), 0, 0, size, disk.MediaSize())
    {
      ghost var extents := Extents(List(), disk.blockSize);
      ghost var total := disk.MediaSize();
      var start, k: nat := 0, 0;
      while k < |files|
        invariant 0 <= k <= |files|
        invariant FirstFit(extents, 0, 0, size, total) == FirstFit(extents, k, start, size, total)
      {
        var entry := files[k].description;
        assert extents[k] == ExtentOf(entry, disk.blockSize);
        if entry.regionCount != 0 {
          if Sub64(StartOf(entry, disk.blockSize), start) >= size {
            return Before(k, start);
          }
          start := BlockEndOf(entry.blockEnd, disk.blockSize);
        }
        k := k + 1;
      }
      space := if Sub64(disk.MediaSize(), start) >= size then AtEnd(start) else VolumeFull;
    }

    /** The splice: the file goes in front of entry k. */
    method Relink(file: File, k: nat)
      requires Valid() && file in files && k < |files| && files[k] != file
      modifies this`files
      ensures Valid() && (forall f :: f in files <==> f in old(files))
      ensures k != old(IndexOf(file)) && files == MoveBefore(old(files), old(IndexOf(file)), k)
    {
      var i :| 0 <= i < |files| && files[i] == file;
      IndexIs(file, i);
      MovedStaysDistinct(files, i, k);
      files := MoveBefore(files, i, k);
      assert forall f :: f in files ==> f.Valid();
    }

    /** The search, and the splice in the case of a gap. */
    method FindSpaceForNewFile(file: File, size: nat) returns (space: Space)
      requires Valid() && file in files && file.description.regionCount == 0
      modifies this`files
      ensures Valid() && (forall f :: f in files <==> f in old(files))
      ensures space == FirstFit(old(Extents(List(), disk.blockSize)), 0, 0, size, disk.MediaSize())
      ensures space.Before? ==> space.index < |old(files)| && space.index != old(IndexOf(file))
      ensures files == if space.Before? then MoveBefore(old(files), old(IndexOf(file)), space.index) else old(files)
    {
      space := SearchSpace(size);
      if space.Before? {
        assert Extents(List(), disk.blockSize)[space.index] == ExtentOf(files[space.index].description, disk.blockSize);
        Relink(file, space.index);
      }
    }

    // ---------- flushing ----------

    /** Zeros over the description of a file. */
    method InvalidateImageDescription(file: File) returns (ok: bool)
      modifies disk`requests, disk.data
      ensures disk.data[..] ==
              if ok then AfterAll(old(disk.data[..]), [Write(file.address, Zeros(DESCRIPTION_SIZE))])
              else old(disk.data[..])
    {
      ok := disk.WriteDisk(file.address, Zeros(DESCRIPTION_SIZE));
    }

    /** The description in memory is renewed whether or not the disk takes it. */
    method WriteFileDescription(file: File, t: Target, dataSize: nat) returns (ok: bool)
      requires Usable(t, file.Mirror())
      modifies file`description, file`address, disk`requests, disk.data
      ensures file.Mirror() == Renewed(t, old(file.Mirror()), dataSize)
      ensures disk.data[..] ==
              if ok then AfterAll(old(disk.data[..]), [DescriptionWrite(file.Mirror())]) else old(disk.data[..])
    {
      file.description := Describe(file.description, t.name, dataSize, t.fileStart, t.blockSize);
      file.address := Place(file.description, t.blockSize);
      ok := disk.WriteDisk(file.address, Encode(file.description));
    }

    /** The part of a turn of the flush loop for a region that extends the file into space it has. */
    method AppendRegion(file: File, t: Target, r: Pending) returns (ok: bool, ghost done: nat)
      requires Usable(t, file.Mirror()) && IsAppend(t, r)
      modifies file`description, file`address, disk`requests, disk.data
      ensures Shaped(file.description)
      ensures done <= |RegionWrites(t, old(file.Mirror()), r)|
      ensures ok <==> done == |RegionWrites(t, old(file.Mirror()), r)|
      ensures file.Mirror() == MirrorDuring(t, old(file.Mirror()), r, done)
      ensures disk.data[..] == AfterAll(old(disk.data[..]), RegionWrites(t, old(file.Mirror()), r)[..done])
    {
      hide Describe, AfterAll, Encode;
      ghost var media, writes := disk.data[..], RegionWrites(t, file.Mirror(), r);
      AfterNothing(media);
      done := 0;
      ok := true;
      if file.address != 0 {
        ok := InvalidateImageDescription(file);
        NextWrite(media, writes, 0);
        done := if ok then 1 else 0;
      }
      if ok {
        ok := disk.WriteDisk(t.fileStart + r.offset, r.bytes);
        NextWrite(media, writes, done);
        if ok {
          done := done + 1;
          ok := WriteFileDescription(file, t, RegionEnd(r));
          NextWrite(media, writes, done);
          done := if ok then done + 1 else done;
        }
      }
    }

    /** One turn of the flush loop. */
    method FlushRegion(file: File, t: Target, r: Pending) returns (status: Status, ghost done: nat)
      requires Usable(t, file.Mirror())
      modifies file`description, file`address, disk`requests, disk.data
      ensures Shaped(file.description)
      ensures status in {Success, NoSpace, DeviceError}
      ensures status == NoSpace <==> IsAppend(t, r) && !HasSpace(t, old(file.Mirror()), RegionEnd(r))
      ensures status == NoSpace ==> file.Mirror() == old(file.Mirror()) && disk.data[..] == old(disk.data[..])
      ensures status == Success ==>
                && file.Mirror() == (if IsAppend(t, r) then Renewed(t, old(file.Mirror()), RegionEnd(r))
                                     else old(file.Mirror()))
                && disk.data[..] == AfterAll(old(disk.data[..]), RegionWrites(t, old(file.Mirror()), r))
      ensures status == DeviceError ==>
                && done < |RegionWrites(t, old(file.Mirror()), r)|
                && file.Mirror() == MirrorDuring(t, old(file.Mirror()), r, done)
                && disk.data[..] == AfterAll(old(disk.data[..]), RegionWrites(t, old(file.Mirror()), r)[..done])
    {
      hide AfterAll;
      AfterNothing(disk.data[..]);
      done := 0;
      if r.bytes == [] {
        return Success, 0;
      }
      var ok;
      if t.fileStart + RegionEnd(r) < t.fileEnd {
        NextWrite(disk.data[..], RegionWrites(t, file.Mirror(), r), 0);
        ok := disk.WriteDisk(t.fileStart + r.offset, r.bytes);
      } else if HasSpace(t, file.Mirror(), RegionEnd(r)) {
        ghost var writes := RegionWrites(t, file.Mirror(), r);
        ok, done := AppendRegion(file, t, r);
        assert writes[..|writes|] == writes;
      } else {
        return NoSpace, 0;
      }
      status := if ok then Success else DeviceError;
    }

    /** The end of the space the file may grow into. */
    method EndOfAppendSpace(file: File) returns (limit: nat)
      requires Valid() && file in files
      ensures limit == LimitAfter(List(), IndexOf(file), disk.blockSize, disk.MediaSize())
    {
      var i :| 0 <= i < |files| && files[i] == file;
      IndexIs(file, i);
      limit := if i + 1 < |files| then StartOf(files[i + 1].description, disk.blockSize) else disk.MediaSize();
    }

    /** A new file is given its place. */
    method FindNewTarget(file: File) returns (t: Option<Target>)
      requires Valid() && file in files && file.info.Some? && file.description.regionCount == 0
      modifies this`files
      ensures Valid() && (forall f :: f in files <==> f in old(files))
      ensures t == old(Aim(file))
      ensures files == Relinked(old(files), old(List()), old(IndexOf(file)), file.info.value.fileSize,
                                disk.blockSize, disk.MediaSize())
    {
      hide FirstFit, MoveBefore, Extents, StartOf, IsName, StringIn;
      var space := FindSpaceForNewFile(file, file.info.value.fileSize + DESCRIPTION_SIZE);
      if space.VolumeFull? {
        return None;
      }
      if space.Before? {
        MovedInFront(old(files), old(IndexOf(file)), space.index);
        IndexIs(file, if old(IndexOf(file)) < space.index then space.index - 1 else space.index);
      }
      var limit := EndOfAppendSpace(file);
      t := Some(Target(file.info.value.name, space.start, space.start + file.description.regions[0].size, limit,
                       disk.blockSize));
    }

    /** The start of a flush: the file has its place, or is given one. */
    method FindTarget(file: File) returns (t: Option<Target>)
      requires Valid() && file in files && file.info.Some?
      modifies this`files
      ensures Valid() && (forall f :: f in files <==> f in old(files))
      ensures t == old(Aim(file)) && (t.Some? ==> Usable(t.value, file.Mirror()))
      ensures files == Relinked(old(files), old(List()), old(IndexOf(file)), file.info.value.fileSize,
                                disk.blockSize, disk.MediaSize())
    {
      hide FirstFit, SpaceFor;
      if file.description.regionCount == 0 {
        t := FindNewTarget(file);
      } else {
        var start := StartOf(file.description, disk.blockSize);
        var limit := EndOfAppendSpace(file);
        t := Some(Target(file.info.value.name, start, start + file.description.regions[0].size, limit, disk.blockSize));
      }
    }

    /** The loop over the waiting regions. */
    method FlushAllRegions(file: File, t: Target) returns (status: Status)
      requires Usable(t, file.Mirror())
      modifies file`description, file`address, disk`requests, disk.data
      ensures Shaped(file.description)
      ensures Reached(status, t, old(Seen(file)), Seen(file))
    {
      hide Describe, AfterAll, RegionWrites, HasSpace;
      ghost var before := Seen(file);
      AfterNothing(before.media);
      var k := 0;
      while k < |file.pending|
        invariant 0 <= k <= |file.pending| && file.pending == before.pending && Shaped(file.description)
        invariant var o := FlushRegions(t, before.mirror, before.pending[..k]);
                  o.Done? && file.Mirror() == o.mirror && disk.data[..] == AfterAll(before.media, o.writes)
      {
        ghost var o := FlushRegions(t, before.mirror, before.pending[..k]);
        assert before.pending[..k + 1][..k] == before.pending[..k];
        ghost var done;
        status, done := FlushRegion(file, t, file.pending[k]);
        if status == NoSpace {
          RegionsGrow(t, before.mirror, before.pending, k + 1);
          return;
        } else if status == DeviceError {
          assert IsStoppedAt(t, before, k, done, Seen(file));
          return;
        }
        AfterAllConcat(before.media, o.writes, RegionWrites(t, o.mirror, before.pending[k]));
        k := k + 1;
      }
      assert before.pending[..k] == before.pending;
      status := Success;
    }

    /** A flush puts the waiting regions on the media, in the order in which they were written
        to the file, and renews the description. Nothing happens to any other file. */
    method FlushFile(file: File) returns (status: Status)
      requires Valid() && file in files
      modifies this`files, file`description, file`address, file`pending, disk`requests, disk.data
      ensures Valid() && (forall f :: f in files <==> f in old(files))
      ensures file.info.None? ==> status == InvalidParameter && files == old(files) && Seen(file) == old(Seen(file))
      ensures file.info.Some? ==>
                WasFlushed(status, file, old(files), old(List()), old(Aim(file)), old(IndexOf(file)), old(Seen(file)))
    {
      if file.info.None? {
        return InvalidParameter;
      }
      if file.openMode == ReadOnly {
        return AccessDenied;
      }
      var target := FindTarget(file);
      if target.None? {
        return NoSpace;
      }
      status := FlushTo(file, target.value);
    }

    /** The part of a flush that follows once the place of the file is known. */
    method FlushTo(file: File, t: Target) returns (status: Status)
      requires file.info.Some? && Usable(t, file.Mirror())
      modifies file`description, file`address, file`pending, disk`requests, disk.data
      ensures Shaped(file.description)
      ensures Reflects(status, t, file.info.value.fileSize, old(Seen(file)), Seen(file))
    {
      status := FlushAllRegions(file, t);
      if status == Success {
        status := FinishFlush(file, t, old(Seen(file)));
      }
    }

    /** The end of a flush: the regions are dropped, the description is brought up to date. */
    method FinishFlush(file: File, t: Target, ghost before: Snapshot) returns (status: Status)
      requires file.info.Some? && Usable(t, before.mirror) && Usable(t, file.Mirror())
      requires var o := FlushRegions(t, before.mirror, before.pending);
               o.Done? && Seen(file) == Snapshot(o.mirror, before.pending, AfterAll(before.media, o.writes))
      modifies file`description, file`address, file`pending, disk`requests, disk.data
      ensures Shaped(file.description)
      ensures status in {Success, DeviceError}
      ensures Reflects(status, t, file.info.value.fileSize, before, Seen(file))
    {
      file.pending := [];
      status := Success;
      if StringIn(file.description.filename) != t.name || file.info.value.fileSize != file.description.regions[0].size {
        ghost var o := FlushRegions(t, before.mirror, before.pending);
        ghost var last := DescriptionWrite(Renewed(t, o.mirror, file.info.value.fileSize));
        var ok := WriteFileDescription(file, t, file.info.value.fileSize);
        NextWrite(before.media, o.writes + [last], |o.writes|);
        assert (o.writes + [last])[..|o.writes|] == o.writes;
        if !ok {
          status := DeviceError;
        }
      }
    }

    // ---------- reading ----------

    /** Whatever waits is flushed first, and the outcome of that is not looked at. What is read
        is the part of the blocks of the file, counted from the lowest aligned block, that
        starts at the position and does not reach behind the size of the file. */
    method ReadFile(file: File, length: nat) returns (status: Status, bytes: seq<Byte>, ghost flushed: Status)
      requires Valid() && file in files
      modifies this`files, file`description, file`address, file`pending, file`position, disk`requests, disk.data
      ensures Valid() && (forall f :: f in files <==> f in old(files))
      ensures file.info.None? ==> status == InvalidParameter && Seen(file) == old(Seen(file)) && files == old(files)
      ensures file.info.Some? ==>
                && WasFlushed(flushed, file, old(files), old(List()), old(Aim(file)), old(IndexOf(file)),
                              old(Seen(file)))
                && IsRead(status, bytes, disk.data[..], ReadStart(file), file.info.value.fileSize, old(file.position),
                          length)
      ensures status != Success ==> bytes == []
      ensures file.position == old(file.position) + |bytes|
    {
      if file.info.None? {
        return InvalidParameter, [], InvalidParameter;
      }
      flushed := FlushFile(file);
      hide WasFlushed;
      status, bytes := ReadFromMedia(file, length);
    }

    /** The part of a read that follows the flush. */
    method ReadFromMedia(file: File, length: nat) returns (status: Status, bytes: seq<Byte>)
      requires file.info.Some?
      modifies file`position, disk`requests
      ensures IsRead(status, bytes, disk.data[..], ReadStart(file), file.info.value.fileSize, old(file.position),
                     length)
      ensures status != Success ==> bytes == []
      ensures file.position == old(file.position) + |bytes|
    {
      var size := file.info.value.fileSize;
      if file.position >= size {
        return if file.position > size then DeviceError else Success, [];
      }
      var ok;
      ok, bytes := disk.ReadDisk(ReadStart(file) + file.position, Min(length, size - file.position));
      file.position := file.position + |bytes|;
      status := if ok then Success else DeviceError;
    }

    function ReadStart(file: File): nat
      reads file`description
    {
      ShiftedStart(lowestAlignedLba, file.description, disk.blockSize)
    }

    /** What a flush did to a file and to the list, as FlushFile promises it. */
    ghost predicate WasFlushed(status: Status, file: File, before: seq<File>, list: seq<Description>,
                               aim: Option<Target>, k: nat, seen: Snapshot)
      requires file.info.Some? && |before| == |list| && k < |list|
      requires aim.Some? ==> Usable(aim.value, seen.mirror)
      reads this`files, file`info, file`openMode, file`description, file`address, file`pending, disk.data
    {
      if file.openMode == ReadOnly then status == AccessDenied && files == before && Seen(file) == seen
      else
        && files == Relinked(before, list, k, file.info.value.fileSize, disk.blockSize, disk.MediaSize())
        && (if aim.None? then status == NoSpace && Seen(file) == seen
            else Reflects(status, aim.value, file.info.value.fileSize, seen, Seen(file)))
    }
  }

  lemma {:induction false} AfterNothing(media: Media)
    ensures AfterAll(media, []) == media
  {
  }

  /** One write more: either all so far went through, or this one was refused. */
  lemma {:induction false} NextWrite(media: Media, writes: seq<Write>, n: nat)
    requires n < |writes|
    ensures AfterAll(AfterAll(media, writes[..n]), [writes[n]]) == AfterAll(media, writes[..n + 1])
    ensures IsPartial(writes, media, AfterAll(media, writes[..n]))
    ensures n + 1 == |writes| ==> writes[..n + 1] == writes
  {
    AfterAllConcat(media, writes[..n], [writes[n]]);
    assert writes[..n] + [writes[n]] == writes[..n + 1];
  }
}
