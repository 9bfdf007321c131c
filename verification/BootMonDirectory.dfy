/** Files by name: looking up, opening, closing, renaming and deleting them, and the mount
    that fills the list. */
module BootMonDirectory {
  import opened Bytes
  import opened Options
  import opened BootMonFormat
  import opened BootMonAllocator
  import opened BootMonFlush
  import opened BootMonMount
  import opened BootMonRegions
  import opened BootMonVolume

  /** No two files of the volume go by the same name. */
  ghost predicate UniqueNames(files: seq<File>)
    reads files
  {
    forall f, g :: f in files && g in files && f != g ==> f.EffectiveName() != g.EffectiveName()
  }

  function Others(files: seq<File>, file: File): (others: seq<File>)
    ensures forall f :: f in others ==> f in files && f != file
    ensures forall f :: f in files && f != file ==> f in others
  {
    if files == [] then []
    else (if files[0] == file then [] else [files[0]]) + Others(files[1..], file)
  }

  ghost predicate IsTaken(name: seq<Byte>, files: seq<File>)
    reads files
  {
    exists f :: f in files && f.EffectiveName() == name
  }

  /** Open files are compared by the name in use, closed ones by the name on the media. */
  method GetFileFromAsciiFileName(v: Volume, name: seq<Byte>) returns (found: Option<File>)
    ensures found.None? <==> !IsTaken(name, v.files)
    ensures found.Some? ==> found.value in v.files && found.value.EffectiveName() == name
  {
    var k := 0;
    while k < |v.files|
      invariant 0 <= k <= |v.files|
      invariant forall i :: 0 <= i < k ==> v.files[i].EffectiveName() != name
    {
      if v.files[k].EffectiveName() == name {
        return Some(v.files[k]);
      }
      k := k + 1;
    }
    found := None;
  }

  // ---------- opening ----------

  const DOT: Byte := 0x2E
  const BACKSLASH: Byte := 0x5C

  const FILE_DIRECTORY: bv64 := 0x10

  predicate HasDirectoryBit(attributes: bv64) {
    attributes & FILE_DIRECTORY != 0
  }

  /** Some file that goes by the name is open. */
  ghost predicate IsOpen(name: seq<Byte>, files: seq<File>)
    reads files
  {
    exists f :: f in files && f.EffectiveName() == name && f.info.Some?
  }

  predicate IsRoot(name: seq<Byte>) {
    name == [] || name[0] == DOT
  }

  /** A file that is not there yet goes to the head of the list. */
  method CreateFile(v: Volume, name: seq<Byte>, attributes: bv64) returns (file: File)
    requires v.Valid() && IsName(name) && !IsTaken(name, v.files)
    modifies v`files
    ensures v.Valid() && fresh(file) && v.files == [file] + old(v.files)
    ensures file.description == NO_DESCRIPTION && file.address == 0 && file.pending == [] && file.position == 0
    ensures file.info == Some(Info(name, 0, attributes)) && file.openMode == CreateReadWrite
    ensures old(UniqueNames(v.files)) ==> UniqueNames(v.files)
  {
    hide StringIn;
    file := new File();
    file.info := Some(Info(name, 0, attributes));
    file.openMode := CreateReadWrite;
    NewName(v.files, file);
    v.files := [file] + v.files;
  }

  lemma NewName(files: seq<File>, file: File)
    requires !IsTaken(file.EffectiveName(), files)
    ensures UniqueNames(files) ==> UniqueNames([file] + files)
  {
  }

  /** The length of a file comes from its description, and from regions that still wait since
      an earlier flush failed. */
  method OpenExisting(v: Volume, file: File, name: seq<Byte>, mode: OpenMode)
    requires v.Valid() && file in v.files && file.EffectiveName() == name && IsName(name)
    requires file.info.None?
    modifies file`info, file`position, file`openMode
    ensures v.Valid() && file.EffectiveName() == name
    ensures file.info == Some(Info(name, ImageLength(file.description, file.pending), 0))
    ensures file.position == 0 && file.openMode == mode
  {
    file.info := Some(Info(name, ImageLength(file.description, file.pending), 0));
    file.position := 0;
    file.openMode := mode;
  }

  /** Opening a file in the root directory; no handle of a file for the root itself. */
  method OpenFile(v: Volume, name: seq<Byte>, mode: OpenMode, attributes: bv64, granted: bool, created: bool)
      returns (status: Status, handle: Option<File>)
    requires v.Valid() && IsName(name)
    modifies v`files, v.files
    ensures v.Valid()
    ensures status != Success || IsRoot(name) ==> handle == None && v.files == old(v.files)
    ensures status == Success && !IsRoot(name) ==>
              && handle.Some? && handle.value in v.files && handle.value.EffectiveName() == name
              && handle.value.info.Some? && handle.value.openMode == mode && handle.value.position == 0
              && v.files == (if old(IsTaken(name, v.files)) then old(v.files) else [handle.value] + old(v.files))
    ensures status == if IsRoot(name) then Success
                      else if mode == CreateReadWrite && HasDirectoryBit(attributes) then WriteProtected
                      else if !granted then OutOfResources
                      else if !old(IsTaken(name, v.files)) then
                        (if mode != CreateReadWrite then NotFound else if created then Success else OutOfResources)
                      else if status == Unsupported then Unsupported else Success
    // With two files of that name, the one further down the list may be open without being seen.
    ensures old(UniqueNames(v.files)) ==>
              (status == Unsupported <==>
                 && !IsRoot(name) && granted && !(mode == CreateReadWrite && HasDirectoryBit(attributes))
                 && old(IsOpen(name, v.files)))
    ensures forall f :: f in old(v.files) && (status != Success || Some(f) != handle) ==> unchanged(f)
    ensures handle.Some? && handle.value !in old(v.files) ==>
              fresh(handle.value) && handle.value.description == NO_DESCRIPTION && handle.value.address == 0
    ensures handle.Some? && handle.value in old(v.files) ==>
              && old(handle.value.info).None? && old(handle.value.EffectiveName()) == name
              && handle.value.pending == old(handle.value.pending)
              && handle.value.Mirror() == old(handle.value.Mirror())
    ensures old(UniqueNames(v.files)) ==> UniqueNames(v.files)
  {
    handle := None;
    if IsRoot(name) {
      return Success, None;
    }
    if mode == CreateReadWrite && HasDirectoryBit(attributes) {
      return WriteProtected, None;
    }
    if !granted {
      return OutOfResources, None;
    }
    var found := GetFileFromAsciiFileName(v, name);
    match found
    case None =>
      if mode != CreateReadWrite {
        return NotFound, None;
      }
      if !created {
        return OutOfResources, None;
      }
      var file := CreateFile(v, name, attributes);
      return Success, Some(file);
    case Some(file) =>
      if file.info.Some? {
        return Unsupported, None;
      }
      OpenExisting(v, file, name, mode);
      return Success, Some(file);
  }

  // ---------- closing ----------

  /** A flush that went through, or was refused because the file is read-only, leaves the file
      with the name in use on the media. */
  lemma {:induction false} NameIsWritten(v: Volume, status: Status, file: File, before: seq<File>,
                                         list: seq<Description>, aim: Option<Target>, k: nat, seen: Snapshot)
    requires file.Valid() && file.info.Some? && |before| == |list| && k < |list|
    requires aim.Some? ==> aim.value.name == file.info.value.name && Usable(aim.value, seen.mirror)
    requires v.WasFlushed(status, file, before, list, aim, k, seen)
    requires status in {Success, AccessDenied}
    ensures StringIn(file.description.filename) == file.info.value.name
    ensures status == Success ==> file.pending == []
  {
    if status == Success {
      var t, size := aim.value, file.info.value.fileSize;
      var o := FlushRegions(t, seen.mirror, seen.pending);
      StringCopied(t.name, o.mirror.description.filename[|t.name| + 1..]);
    }
  }

  lemma {:induction false} RegionsKeepName(t: Target, m: Mirror, pending: seq<Pending>)
    requires Usable(t, m)
    ensures FlushRegions(t, m, pending).mirror == m
            || StringIn(FlushRegions(t, m, pending).mirror.description.filename) == t.name
    decreases |pending|
  {
    hide Renewed, StringIn, HasSpace;
    if pending != [] {
      var n := |pending| - 1;
      RegionsKeepName(t, m, pending[..n]);
      RenewedIsNamed(t, FlushRegions(t, m, pending[..n]).mirror, RegionEnd(pending[n]));
    }
  }

  lemma RenewedIsNamed(t: Target, m: Mirror, dataSize: nat)
    requires Usable(t, m)
    ensures StringIn(Renewed(t, m, dataSize).description.filename) == t.name
  {
    hide FooterChecksum, StringIn;
    StringCopied(t.name, m.description.filename[|t.name| + 1..]);
  }

  /** However a flush ends, a description that was renewed carries the name in use. */
  lemma {:induction false} RenewedName(t: Target, fileSize: nat, status: Status, before: Snapshot, after: Snapshot)
    requires Usable(t, before.mirror) && Reflects(status, t, fileSize, before, after)
    ensures after.mirror == before.mirror || StringIn(after.mirror.description.filename) == t.name
  {
    hide Renewed, FlushRegions, StringIn, AfterAll, RegionWrites;
    RegionsKeepName(t, before.mirror, before.pending);
    RenewedIsNamed(t, FlushRegions(t, before.mirror, before.pending).mirror, fileSize);
    if status == DeviceError && IsStopped(t, before, after) {
      var k: nat, done: nat :| IsStoppedAt(t, before, k, done, after);
      RegionsKeepName(t, before.mirror, before.pending[..k]);
      RenewedIsNamed(t, FlushRegions(t, before.mirror, before.pending[..k]).mirror, RegionEnd(before.pending[k]));
    }
  }

  lemma {:induction false} NameAfterFlush(v: Volume, status: Status, file: File, before: seq<File>,
                                          list: seq<Description>, aim: Option<Target>, k: nat, seen: Snapshot)
    requires file.Valid() && file.info.Some? && |before| == |list| && k < |list|
    requires aim.Some? ==> aim.value.name == file.info.value.name && Usable(aim.value, seen.mirror)
    requires v.WasFlushed(status, file, before, list, aim, k, seen)
    ensures StringIn(file.description.filename) ==
            if status in {Success, AccessDenied} || file.Mirror() != seen.mirror then file.info.value.name
            else StringIn(seen.mirror.description.filename)
    ensures status == Success ==> file.pending == []
    ensures file.openMode != ReadOnly && aim.None? ==> status == NoSpace && file.Mirror() == seen.mirror
  {
    hide StringIn, Reflects;
    if status in {Success, AccessDenied} {
      NameIsWritten(v, status, file, before, list, aim, k, seen);
    } else if aim.Some? {
      RenewedName(aim.value, file.info.value.fileSize, status, seen, v.Seen(file));
    }
  }

  /** The flush when a file is closed. It puts the name in use on the media, or renews the description
      with it, or leaves the name there as it was. */
  method FlushForClose(v: Volume, file: File) returns (ghost flushed: Status)
    requires v.Valid() && file in v.files && file.info.Some?
    modifies v`files, file`description, file`address, file`pending, v.disk`requests, v.disk.data
    ensures v.Valid() && (forall f :: f in v.files <==> f in old(v.files))
    ensures StringIn(file.description.filename) ==
            if flushed in {Success, AccessDenied} || file.Mirror() != old(file.Mirror()) then file.info.value.name
            else old(StringIn(file.description.filename))
    ensures flushed == Success ==> file.pending == []
    // A new file for which there is no place is not described at all.
    ensures file.openMode != ReadOnly && old(v.Aim(file)).None? ==>
            flushed == NoSpace && file.Mirror() == old(file.Mirror())
    ensures forall f :: f in v.files ==> f.EffectiveName() == old(f.EffectiveName())
  {
    ghost var aim := v.Aim(file);
    hide TargetOf, Relinked, v.IndexOf, v.List, StringIn, v.WasFlushed;
    flushed := v.FlushFile(file);
    NameAfterFlush(v, flushed, file, old(v.files), old(v.List()), aim, old(v.IndexOf(file)), old(v.Seen(file)));
  }

  /** Closing flushes the file and does not look at the outcome. From then on the file goes by the name
      on the media. That is the name in use if the flush went through or got as far as renewing the
      description, else the name from before; names stay unique exactly if that one was not in use by
      another file. */
  method CloseFile(v: Volume, file: File) returns (status: Status, ghost flushed: Status, ghost named: bool)
    requires v.Valid() && file in v.files
    modifies v`files, file`info, file`description, file`address, file`pending, v.disk`requests, v.disk.data
    ensures v.Valid() && (forall f :: f in v.files <==> f in old(v.files))
    ensures status == if old(file.info).Some? then Success else InvalidParameter
    ensures status == Success ==> file.info.None?
    ensures named == (flushed in {Success, AccessDenied} || file.Mirror() != old(file.Mirror()))
    ensures status == Success ==>
              file.EffectiveName() ==
              if named then old(file.EffectiveName()) else old(StringIn(file.description.filename))
    ensures status == Success && flushed == Success ==> file.pending == []
    ensures status == Success && file.openMode != ReadOnly && old(v.Aim(file)).None? ==> flushed == NoSpace && !named
    ensures forall f :: f in v.files && f != file ==> f.EffectiveName() == old(f.EffectiveName())
    ensures status == Success && old(UniqueNames(v.files)) ==>
              (UniqueNames(v.files) <==>
                 named || !old(IsTaken(StringIn(file.description.filename), Others(v.files, file))))
  {
    if file.info.None? {
      return InvalidParameter, InvalidParameter, false;
    }
    hide StringIn, Others;
    flushed := FlushForClose(v, file);
    named := flushed in {Success, AccessDenied} || file.Mirror() != old(file.Mirror());
    file.info := None;
    status := Success;
  }

  // ---------- renaming and resizing ----------

  /** The shell puts a backslash in front of names. */
  function Stripped(name: seq<Byte>): seq<Byte> {
    if name != [] && name[0] == BACKSLASH then name[1..] else name
  }

  // The size of the information about a file, without its name.
  const FILE_INFO_SIZE: nat := 80

  /** The room for a new name, in characters, from the total size of the information. */
  function NameRoom(infoSize: nat): nat {
    Sub64(infoSize, FILE_INFO_SIZE) / 2
  }

  /** A new name must not be in use, not even by the file itself. The room it is copied to is taken from
      the total size of the information, a field that is left at zero, so it is far larger than any
      buffer; whether the string library copies with such a size is a parameter. The rename succeeds
      either way. */
  method SetFileName(v: Volume, file: File, name: seq<Byte>, copies: nat -> bool) returns (status: Status)
    requires v.Valid() && file in v.files && file.info.Some? && file.openMode != ReadOnly
    requires IsName(Stripped(name))
    modifies file`info
    ensures v.Valid() && file.info.Some?
    ensures status == if old(IsTaken(Stripped(name), v.files)) then AccessDenied else Success
    ensures file.info.value ==
            if status == Success && copies(NameRoom(0)) then old(file.info.value).(name := Stripped(name))
            else old(file.info.value)
    ensures old(UniqueNames(v.files)) ==> UniqueNames(v.files)
  {
    var found := GetFileFromAsciiFileName(v, Stripped(name));
    if found.Some? {
      return AccessDenied;
    }
    if copies(NameRoom(0)) {
      file.info := Some(file.info.value.(name := Stripped(name)));
    }
    status := Success;
  }

  /** Names are compared in their first 31 characters. */
  predicate NameDiffers(asked: Info, current: Info) {
    asked.name[..Min(|asked.name|, MAX_NAME_LENGTH - 1)] != current.name
  }

  /** The checks made before anything is changed; None means that the request goes on. */
  function Objection(mode: OpenMode, asked: Info, current: Info, timesDiffer: bool): Option<Status> {
    if HasDirectoryBit(asked.attribute) != HasDirectoryBit(current.attribute) then Some(AccessDenied)
    else if mode == ReadOnly && (asked.fileSize != current.fileSize || NameDiffers(asked, current) || timesDiffer) then
      Some(AccessDenied)
    else if timesDiffer then Some(WriteProtected)
    else None
  }

  /** What a file is called after a request that was not refused. */
  function NameAfter(asked: Info, current: Info, taken: bool, copied: bool): seq<Byte> {
    if NameDiffers(asked, current) && !taken && copied then Stripped(asked.name) else current.name
  }

  /** The size is set first, then the attributes, then the name: if the name is refused, the new size
      and attributes stay. */
  method SetFileInfo(v: Volume, file: File, asked: Info, timesDiffer: bool, granted: bool, copies: nat -> bool)
      returns (status: Status)
    requires v.Valid() && file in v.files && file.info.Some? && file.info.value.fileSize < 0x1_0000_0000
    requires IsName(Stripped(asked.name))
    modifies file`info, file`position, file`pending
    ensures v.Valid() && file.info.Some?
    ensures var current, taken := old(file.info.value), old(IsTaken(Stripped(asked.name), v.files));
            var objection := Objection(file.openMode, asked, current, timesDiffer);
            if objection.Some? then
              status == objection.value && file.info == old(file.info) && file.pending == old(file.pending)
            else if asked.fileSize > current.fileSize && !granted then
              status == OutOfResources && file.info == old(file.info) && file.pending == old(file.pending)
            else
              && status == (if NameDiffers(asked, current) && taken then AccessDenied else Success)
              && file.info.value == asked.(name := NameAfter(asked, current, taken, copies(NameRoom(0))))
              && file.pending == Resized(old(file.pending), current.fileSize, asked.fileSize)
    ensures old(file.RegionsWithin()) ==> file.RegionsWithin()
    ensures old(UniqueNames(v.files)) ==> UniqueNames(v.files)
  {
    hide Resized, StringIn, Stripped;
    var current := file.info.value;
    var objection := Objection(file.openMode, asked, current, timesDiffer);
    if objection.Some? {
      return objection.value;
    }
    status := SetSizeAndAttribute(v, file, asked, granted);
    if status == Success && NameDiffers(asked, current) {
      status := SetFileName(v, file, asked.name, copies);
    }
  }

  // The part of a request before the name. The file goes by its old name all the while.
  method SetSizeAndAttribute(v: Volume, file: File, asked: Info, granted: bool) returns (status: Status)
    requires v.Valid() && file in v.files && file.info.Some? && file.info.value.fileSize < 0x1_0000_0000
    requires file.openMode == ReadOnly ==> asked.fileSize == file.info.value.fileSize
    modifies file`info, file`position, file`pending
    ensures v.Valid() && file.info.Some?
    ensures status == if asked.fileSize > old(file.info.value.fileSize) && !granted then OutOfResources else Success
    ensures status != Success ==> file.info == old(file.info) && file.pending == old(file.pending)
    ensures status == Success ==>
              && file.info.value == asked.(name := old(file.info.value.name))
              && file.pending == Resized(old(file.pending), old(file.info.value.fileSize), asked.fileSize)
    ensures old(file.RegionsWithin()) ==> file.RegionsWithin()
    ensures forall f :: f in v.files ==> f.EffectiveName() == old(f.EffectiveName())
  {
    hide StringIn;
    status := Success;
    if asked.fileSize != file.info.value.fileSize {
      status := file.SetFileSize(asked.fileSize, granted);
    }
    if status == Success {
      file.info := Some(file.info.value.(attribute := asked.attribute));
    }
  }

  // ---------- deleting ----------

  method Unlink(v: Volume, file: File)
    requires v.Valid() && file in v.files
    modifies v`files
    ensures v.Valid() && v.files == Remove(old(v.files), old(v.IndexOf(file)))
    ensures forall f :: f in v.files ==> f in old(v.files)
  {
    var i :| 0 <= i < |v.files| && v.files[i] == file;
    v.IndexIs(file, i);
    v.files := Remove(v.files, i);
    assert forall j :: 0 <= j < |v.files| ==> v.files[j] == old(v.files)[if j < i then j else j + 1];
  }

  /** What waits is dropped, the description is wiped, and the file leaves the list. If the
      disk refuses, the file stays, without what was waiting. */
  method Delete(v: Volume, file: File) returns (status: Status)
    requires v.Valid() && file in v.files
    modifies v`files, file`pending, v.disk`requests, v.disk.data
    ensures v.Valid()
    ensures status == InvalidParameter <==> file.info.None?
    ensures status in {InvalidParameter, DeleteFailure, Success}
    ensures status != Success ==> v.files == old(v.files) && v.disk.data[..] == old(v.disk.data[..])
    ensures status == DeleteFailure ==> file.description.regionCount > 0
    ensures status != InvalidParameter ==> file.pending == []
    ensures status == Success ==>
              && v.files == Remove(old(v.files), old(v.IndexOf(file)))
              && v.disk.data[..] == if file.description.regionCount == 0 then old(v.disk.data[..])
                                    else AfterAll(old(v.disk.data[..]), [Write(file.address, Zeros(DESCRIPTION_SIZE))])
    ensures old(UniqueNames(v.files)) ==> UniqueNames(v.files)
  {
    if file.info.None? {
      return InvalidParameter;
    }
    hide AfterAll, StringIn, v.IndexOf, Remove;
    file.pending := [];
    if file.description.regionCount > 0 {
      var ok := v.InvalidateImageDescription(file);
      if !ok {
        return DeleteFailure;
      }
    }
    Unlink(v, file);
    status := Success;
  }

  // ---------- mounting ----------

  /** What the scan sees at a block: block numbers on the media count from the lowest aligned one. */
  predicate ShowsShifted(media: Media, blocks: nat, blockSize: nat, lowest: nat, lba: nat)
    requires IsMedia(media, blocks, blockSize) && lba < blocks
  {
    IsImageValid(Decode(Tail(media, blocks, blockSize, lba)), Sub64(lba, lowest))
  }

  function MountScan(media: Media, blocks: nat, blockSize: nat, lowest: nat, lba: nat): seq<Description>
    requires IsMedia(media, blocks, blockSize)
    decreases blocks - lba
  {
    if lba >= blocks then []
    else
      (if ShowsShifted(media, blocks, blockSize, lowest, lba) then [Found(media, blocks, blockSize, lba)] else [])
      + MountScan(media, blocks, blockSize, lowest, lba + 1)
  }

  lemma {:induction false} UnshiftedScan(media: Media, blocks: nat, blockSize: nat, lba: nat)
    requires IsMedia(media, blocks, blockSize)
    ensures MountScan(media, blocks, blockSize, 0, lba) == Scan(media, blocks, blockSize, lba)
    decreases blocks - lba
  {
    hide Found, Decode, HasMarks, Slice;
    if lba < blocks {
      UnshiftedScan(media, blocks, blockSize, lba + 1);
      SmallQuotient(blocks, blockSize, |media|);
    }
  }

  /** A file this driver has written is seen at its last block only if the media starts at an
      aligned block: writing does not count from the lowest aligned block, the scan does. */
  lemma {:induction false} ShiftHidesFiles(media: Media, blocks: nat, blockSize: nat, lowest: nat, m: Mirror)
    requires IsMedia(media, blocks, blockSize) && lowest < UINT64_SPAN
    requires m.address != 0 && OnMedia(media, blocks, blockSize, m)
    requires IsImageValid(m.description, m.description.blockEnd)
    ensures ShowsShifted(media, blocks, blockSize, lowest, m.description.blockEnd) <==> lowest == 0
  {
    DescriptionRoundTrip(m.description);
  }

  lemma {:induction false} MountStep(media: Media, blocks: nat, blockSize: nat, lowest: nat, lba: nat)
    requires IsMedia(media, blocks, blockSize) && lba < blocks
    ensures var found := Found(media, blocks, blockSize, lba);
            MountScan(media, blocks, blockSize, lowest, lba) ==
            (if IsImageValid(found, Sub64(lba, lowest)) then [found] else [])
            + MountScan(media, blocks, blockSize, lowest, lba + 1)
  {
    hide Decode, FooterChecksum, Slice;
  }

  method ReadDescription(v: Volume, lba: nat) returns (ok: bool, found: Description, address: nat)
    requires v.disk.Valid() && lba <= v.disk.lastBlock
    modifies v.disk`requests
    ensures Shaped(found) && address == LastBytes(lba, v.disk.blockSize)
    ensures ok ==> found == Found(v.disk.data[..], v.disk.lastBlock + 1, v.disk.blockSize, lba)
    ensures ok == v.disk.works(old(v.disk.requests)) && v.disk.requests == old(v.disk.requests) + 1
  {
    hide Decode, FooterChecksum;
    TailInMedia(lba, v.disk.lastBlock + 1, v.disk.blockSize);
    address := LastBytes(lba, v.disk.blockSize);
    var bytes;
    ok, bytes := v.disk.ReadDisk(address, DESCRIPTION_SIZE);
    found := if ok then WithFooterChecksum(Decode(bytes)) else NO_DESCRIPTION;
  }

  /** The first block from lba on whose read is refused, or the end if none is. The read of block b
      is request n + b. */
  function FirstRefused(works: nat -> bool, n: nat, lba: nat, end: nat): (stop: nat)
    requires lba <= end
    ensures lba <= stop <= end && (stop < end ==> !works(n + stop))
    ensures forall request :: n + lba <= request < n + stop ==> works(request)
    decreases end - lba
  {
    if lba == end || !works(n + lba) then lba else FirstRefused(works, n, lba + 1, end)
  }

  /** The same for the blocks of a volume. */
  ghost function StopOf(v: Volume, n: nat, lba: nat): (stop: nat)
    requires lba <= v.disk.lastBlock + 1
    ensures lba <= stop <= v.disk.lastBlock + 1
  {
    FirstRefused(v.disk.works, n, lba, v.disk.lastBlock + 1)
  }

  /** The loop over the blocks, up to the next one that shows an image. */
  method DiscoverNextImage(v: Volume, start: nat, ghost n: nat)
      returns (status: Status, lba: nat, found: Description, address: nat)
    requires v.disk.Valid() && start <= v.disk.lastBlock + 1 && v.disk.requests == n + start
    modifies v.disk`requests
    ensures status in {Success, NotFound, DeviceError}
    ensures Shaped(found)
    ensures status == Success ==>
              && start < lba <= v.disk.lastBlock + 1 && address == LastBytes(lba - 1, v.disk.blockSize)
              && ScanOf(v, start) == [found] + ScanOf(v, lba)
              && IsImageValid(found, Sub64(lba - 1, v.lowestAlignedLba))
              && v.disk.requests == n + lba && StopOf(v, n, start) == StopOf(v, n, lba)
    ensures status != Success ==> ScanOf(v, start) == ScanOf(v, StopOf(v, n, start))
    ensures status == NotFound ==> ScanOf(v, start) == []
    ensures status != Success ==> (status == DeviceError <==> StopOf(v, n, start) <= v.disk.lastBlock)
  {
    hide Found, IsImageValid, ShowsShifted, IsMedia, LastBytes, ScanOf, StopOf, MountScan;
    found, address, lba := NO_DESCRIPTION, 0, start;
    while lba <= v.disk.lastBlock
      invariant start <= lba <= v.disk.lastBlock + 1 && ScanOf(v, start) == ScanOf(v, lba) && Shaped(found)
      invariant v.disk.requests == n + lba && StopOf(v, n, start) == StopOf(v, n, lba)
    {
      ScanStep(v, n, lba);
      var ok;
      ok, found, address := ReadDescription(v, lba);
      if !ok {
        return DeviceError, lba, found, address;
      }
      lba := lba + 1;
      if IsImageValid(found, Sub64(lba - 1, v.lowestAlignedLba)) {
        return Success, lba, found, address;
      }
    }
    ScanEnds(v, n, lba);
    status := NotFound;
  }

  /** One block of the scan, and whether it can be read. */
  lemma ScanStep(v: Volume, n: nat, lba: nat)
    requires v.disk.Valid() && lba <= v.disk.lastBlock
    ensures IsMedia(v.disk.data[..], v.disk.lastBlock + 1, v.disk.blockSize)
    ensures var found := Found(v.disk.data[..], v.disk.lastBlock + 1, v.disk.blockSize, lba);
            ScanOf(v, lba) ==
            (if IsImageValid(found, Sub64(lba, v.lowestAlignedLba)) then [found] else []) + ScanOf(v, lba + 1)
    ensures StopOf(v, n, lba) == if v.disk.works(n + lba) then StopOf(v, n, lba + 1) else lba
  {
    hide Found, IsImageValid, MountScan;
    MediaIsMedia(v);
    MountStep(v.disk.data[..], v.disk.lastBlock + 1, v.disk.blockSize, v.lowestAlignedLba, lba);
  }

  lemma ScanEnds(v: Volume, n: nat, lba: nat)
    requires v.disk.Valid() && lba == v.disk.lastBlock + 1
    ensures ScanOf(v, lba) == [] && StopOf(v, n, lba) == lba
  {
  }

  lemma BlocksAreFew(v: Volume, lba: nat)
    requires v.disk.Valid() && lba <= v.disk.lastBlock
    ensures Sub64(lba, 0) == lba && LastBytes(lba, v.disk.blockSize) > 0
  {
    SmallQuotient(v.disk.lastBlock + 1, v.disk.blockSize, v.disk.data.Length);
    ProductGrows(1, lba + 1, v.disk.blockSize);
  }

  lemma MediaIsMedia(v: Volume)
    requires v.disk.Valid()
    ensures IsMedia(v.disk.data[..], v.disk.lastBlock + 1, v.disk.blockSize)
  {
  }

  ghost function ScanOf(v: Volume, lba: nat): seq<Description>
    requires v.disk.Valid()
    reads v.disk.data
  {
    MountScan(v.disk.data[..], v.disk.lastBlock + 1, v.disk.blockSize, v.lowestAlignedLba, lba)
  }

  /** The descriptions of the files behind position n of the list. */
  ghost function Mounted(v: Volume, n: nat): seq<Description>
    requires n <= |v.files|
    reads v`files, v.files
  {
    v.List()[n..]
  }

  /** A file as a mount leaves it: closed, nothing waiting, and its description where it was found. */
  predicate IsMounted(v: Volume, file: File)
    requires v.disk.Valid()
    reads file
  {
    && file.info.None? && file.pending == []
    && (v.lowestAlignedLba == 0 ==> file.address != 0 && IsPlaced(file.Mirror(), v.disk.blockSize))
  }

  method AddFile(v: Volume, description: Description, address: nat)
    requires v.Valid() && Shaped(description)
    requires v.lowestAlignedLba == 0 ==> address != 0 && address == Place(description, v.disk.blockSize)
    modifies v`files
    ensures v.Valid() && |v.files| == |old(v.files)| + 1 && v.files[..|old(v.files)|] == old(v.files)
    ensures var file := v.files[|old(v.files)|];
            fresh(file) && IsMounted(v, file)
    ensures v.List() == old(v.List()) + [description]
  {
    var file := new File();
    file.description, file.address := description, address;
    v.files := v.files + [file];
  }

  /** One turn of the mount: the next image, and a file for it. */
  method MountNext(v: Volume, start: nat, ghost mounted: nat, ghost n: nat) returns (status: Status, lba: nat)
    requires v.Valid() && mounted <= |v.files|
    requires start <= v.disk.lastBlock + 1 && v.disk.requests == n + start
    modifies v`files, v.disk`requests
    ensures v.Valid() && status in {Success, NotFound, DeviceError}
    ensures status != Success ==> v.files == old(v.files) && ScanOf(v, start) == ScanOf(v, StopOf(v, n, start))
    ensures status == Success ==>
              && start < lba <= v.disk.lastBlock + 1
              && |v.files| == |old(v.files)| + 1 && v.files[..|old(v.files)|] == old(v.files)
              && fresh(v.files[|old(v.files)|]) && IsMounted(v, v.files[|old(v.files)|])
              && Mounted(v, mounted) + ScanOf(v, lba) == old(Mounted(v, mounted)) + ScanOf(v, start)
              && v.disk.requests == n + lba && StopOf(v, n, start) == StopOf(v, n, lba)
    ensures status == NotFound ==> ScanOf(v, start) == []
    ensures status != Success ==> (status == DeviceError <==> StopOf(v, n, start) <= v.disk.lastBlock)
  {
    hide MountScan, ScanOf, IsMounted, StopOf;
    var description, address;
    status, lba, description, address := DiscoverNextImage(v, start, n);
    if status == Success {
      BlocksAreFew(v, lba - 1);
      AddFile(v, description, address);
      assert Mounted(v, mounted) == old(Mounted(v, mounted)) + [description];
      assert Mounted(v, mounted) + ScanOf(v, lba) == old(Mounted(v, mounted)) + ([description] + ScanOf(v, lba));
    }
  }

  /** The rest of the scan is shorter the later it starts. */
  lemma {:induction false} ScanShrinks(v: Volume, lba: nat, stop: nat)
    requires v.disk.Valid() && lba <= stop <= v.disk.lastBlock + 1
    ensures |ScanOf(v, stop)| <= |ScanOf(v, lba)|
    decreases stop - lba
  {
    if lba < stop {
      ScanShrinks(v, lba + 1, stop);
    }
  }

  /** How many images the scan finds before the first block whose read is refused. */
  ghost function ImagesBefore(v: Volume, stop: nat): int
    requires v.disk.Valid()
    reads v.disk.data
  {
    |ScanOf(v, 0)| - |ScanOf(v, stop)|
  }

  /** Mounting appends a file for every description in front of the first block that cannot be read, and
      reports success, exactly if there is memory for one file more than these. So success means that
      the whole scan is mounted if and only if nothing is left to find from that block on. When memory
      runs out, the files found so far stay in the list. */
  method Initialize(v: Volume, grants: nat -> bool) returns (status: Status)
    requires v.Valid()
    modifies v`files, v`initialized, v.disk`requests
    ensures v.Valid()
    ensures status in {Success, OutOfResources}
    ensures old(v.files) <= v.files && Mounted(v, |old(v.files)|) <= ScanOf(v, 0)
    ensures forall i :: |old(v.files)| <= i < |v.files| ==> fresh(v.files[i]) && IsMounted(v, v.files[i])
    ensures v.initialized == (status == Success || old(v.initialized))
    ensures var stop := StopOf(v, old(v.disk.requests), 0);
            && (status == Success <==> forall i :: 0 <= i <= ImagesBefore(v, stop) ==> grants(i))
            && (status == Success ==>
                  && Mounted(v, |old(v.files)|) + ScanOf(v, stop) == ScanOf(v, 0)
                  && (Mounted(v, |old(v.files)|) == ScanOf(v, 0) <==> ScanOf(v, stop) == []))
    ensures status == OutOfResources ==> !grants(|v.files| - |old(v.files)|)
  {
    hide MountScan, ScanOf, IsMounted, DescriptionsOf, StopOf;
    ghost var n := v.disk.requests;
    ghost var stop := StopOf(v, n, 0);
    var lba, images := 0, 0;
    while true
      invariant v.Valid() && old(v.files) <= v.files && v.initialized == old(v.initialized)
      invariant images == |v.files| - |old(v.files)| && lba <= v.disk.lastBlock + 1
      invariant Mounted(v, |old(v.files)|) + ScanOf(v, lba) == ScanOf(v, 0)
      invariant forall i :: |old(v.files)| <= i < |v.files| ==> fresh(v.files[i]) && IsMounted(v, v.files[i])
      invariant v.disk.requests == n + lba && stop == StopOf(v, n, lba)
      invariant forall i :: 0 <= i < images ==> grants(i)
      decreases v.disk.lastBlock + 1 - lba
    {
      if !grants(images) {
        ScanShrinks(v, lba, stop);
        return OutOfResources;
      }
      var found;
      found, lba := MountNext(v, lba, |old(v.files)|, n);
      if found != Success {
        break;
      }
      images := images + 1;
    }
    v.initialized := true;
    status := Success;
  }
}
