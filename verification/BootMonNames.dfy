/** The names of the files over runs of opening, renaming, flushing, closing and deleting, and after the next
    mount. */
module BootMonNames {
  import opened Bytes
  import opened Options
  import opened BootMonFormat
  import opened BootMonAllocator
  import opened BootMonMount
  import opened BootMonVolume
  import opened BootMonRemount
  import opened BootMonDirectory
  import opened BootMonVolumeRuns

  type Name = seq<Byte>

  // The name a file goes by while it is open, and the name in its description.
  datatype Named = Named(inUse: Option<Name>, onMedia: Name) {
    function Effective(): Name { if inUse.Some? then inUse.value else onMedia }
  }

  // What is done to a file. Closing flushes it, which puts the name in use into the description or fails to.
  datatype Step<K> =
    | Create(file: K, name: Name)
    | Open(file: K)
    | Rename(file: K, name: Name)
    | Write(file: K)
    | Close(file: K, written: bool)
    | Delete(file: K)

  ghost predicate Unique<K>(names: map<K, Named>) {
    forall f, g :: f in names && g in names && f != g ==> names[f].Effective() != names[g].Effective()
  }

  ghost predicate Taken<K>(names: map<K, Named>, name: Name) {
    exists f :: f in names && names[f].Effective() == name
  }

  /** A step that the driver takes: it creates and renames to names that are not taken, and opens files that
      are closed. */
  ghost predicate Takes<K>(names: map<K, Named>, step: Step<K>) {
    match step
    case Create(k, name) => k !in names && !Taken(names, name)
    case Open(k) => k in names && names[k].inUse.None?
    case Rename(k, name) => k in names && names[k].inUse.Some? && !Taken(names, name)
    case Write(k) => k in names && names[k].inUse.Some?
    case Close(k, _) => k in names && names[k].inUse.Some?
    case Delete(k) => k in names
  }

  ghost function Stepped<K>(names: map<K, Named>, step: Step<K>): map<K, Named>
    requires Takes(names, step)
  {
    match step
    case Create(k, name) => names[k := Named(Some(name), [])]
    case Open(k) => names[k := Named(Some(names[k].onMedia), names[k].onMedia)]
    case Rename(k, name) => names[k := Named(Some(name), names[k].onMedia)]
    case Write(k) => names[k := Named(names[k].inUse, names[k].inUse.value)]
    case Close(k, written) => names[k := Named(None, if written then names[k].inUse.value else names[k].onMedia)]
    case Delete(k) => names - {k}
  }

  /** The condition, known before the step: a file closed without its name being written falls back on a name
      that no other file uses. */
  ghost predicate SparesNames<K>(names: map<K, Named>, step: Step<K>)
    requires Takes(names, step)
  {
    step.Close? && !step.written ==> !Taken(names - {step.file}, names[step.file].onMedia)
  }

  lemma {:induction false} StepKeepsUnique<K>(names: map<K, Named>, step: Step<K>)
    requires Unique(names) && Takes(names, step)
    ensures Unique(Stepped(names, step)) <==> SparesNames(names, step)
  {
    var k, after := step.file, Stepped(names, step);
    if !step.Delete? {
      assert after == names[k := after[k]];
      OneNamed(names, k, after[k]);
    }
    match step
    case Create(_, name) =>
      assert names - {k} == names;
    case Close(_, written) =>
      assert written ==> after[k].Effective() == names[k].Effective();
    case _ =>
  }

  /** A file put under a name among others with unique names. */
  lemma {:induction false} OneNamed<K>(names: map<K, Named>, k: K, entry: Named)
    requires Unique(names)
    ensures Unique(names[k := entry]) <==> !Taken(names - {k}, entry.Effective())
  {
    var after, others := names[k := entry], names - {k};
    assert forall f :: f in others <==> f in names && f != k;
    if Unique(after) {
      forall f | f in others
        ensures others[f].Effective() != entry.Effective()
      {
        assert after[f].Effective() != after[k].Effective();
      }
    }
  }

  // ---------- runs ----------

  ghost predicate IsNameRun<K>(names: map<K, Named>, run: seq<Step<K>>)
    decreases |run|
  {
    run != [] ==> Takes(names, run[0]) && IsNameRun(Stepped(names, run[0]), run[1..])
  }

  ghost predicate UniqueThroughout<K>(names: map<K, Named>, run: seq<Step<K>>)
    requires IsNameRun(names, run)
    decreases |run|
  {
    Unique(names) && (run != [] ==> UniqueThroughout(Stepped(names, run[0]), run[1..]))
  }

  ghost predicate SparesThroughout<K>(names: map<K, Named>, run: seq<Step<K>>)
    requires IsNameRun(names, run)
    decreases |run|
  {
    run != [] ==> SparesNames(names, run[0]) && SparesThroughout(Stepped(names, run[0]), run[1..])
  }

  /** Names stay unique after every step of a run if and only if every file that is closed without its name
      being written falls back on a name that is free. */
  lemma {:induction false} RunKeepsUnique<K>(names: map<K, Named>, run: seq<Step<K>>)
    requires Unique(names) && IsNameRun(names, run)
    ensures UniqueThroughout(names, run) <==> SparesThroughout(names, run)
    decreases |run|
  {
    hide Takes, Stepped, SparesNames, Unique;
    if run != [] {
      StepKeepsUnique(names, run[0]);
      if SparesNames(names, run[0]) {
        RunKeepsUnique(Stepped(names, run[0]), run[1..]);
      }
    }
  }

  // ---------- the driver ----------

  function NameOf(f: File): Named
    reads f
  {
    Named(if f.info.Some? then Some(f.info.value.name) else None, StringIn(f.description.filename))
  }

  ghost function NamesOf(v: Volume): map<File, Named>
    reads v`files, v.files
  {
    map f | f in v.files :: NameOf(f)
  }

  lemma NamesAreEffective(v: Volume)
    ensures Unique(NamesOf(v)) <==> UniqueNames(v.files)
    ensures forall name :: Taken(NamesOf(v), name) <==> IsTaken(name, v.files)
  {
    hide StringIn;
    assert forall f :: f in v.files ==> NamesOf(v)[f].Effective() == f.EffectiveName();
  }

  function FilesIn(files: seq<File>): set<File> {
    set f | f in files
  }

  lemma NamesAre(v: Volume)
    ensures NamesOf(v).Keys == FilesIn(v.files)
    ensures forall f :: f in v.files ==> NamesOf(v)[f] == NameOf(f)
  {
  }

  /** Something was done to one file, and the others kept their names. */
  lemma {:induction false} OneFileNamed(v: Volume, before: map<File, Named>, file: File)
    requires FilesIn(v.files) == before.Keys + {file}
    requires forall f :: f in v.files && f != file ==> NameOf(f) == before[f]
    ensures NamesOf(v) == before[file := NameOf(file)]
  {
    hide NameOf;
    assert file in FilesIn(v.files);
    assert forall f :: f in FilesIn(v.files) <==> f in v.files;
  }

  lemma {:induction false} NoFileNamed(v: Volume, before: map<File, Named>)
    requires FilesIn(v.files) == before.Keys
    requires forall f :: f in v.files ==> NameOf(f) == before[f]
    ensures NamesOf(v) == before
  {
    hide NameOf;
    assert forall f :: f in FilesIn(v.files) <==> f in v.files;
  }

  /** Opening a file is the step Open or Create. */
  method OpenInNames(v: Volume, name: Name, mode: OpenMode, attributes: bv64, granted: bool, created: bool)
      returns (status: BootMonVolume.Status, handle: Option<File>)
    requires v.Valid() && IsName(name) && UniqueNames(v.files)
    modifies v`files, v.files
    ensures v.Valid() && UniqueNames(v.files)
    ensures handle.None? ==> NamesOf(v) == old(NamesOf(v))
    ensures handle.Some? ==>
              var step := if handle.value in old(v.files) then Step.Open(handle.value)
                          else Step.Create(handle.value, name);
              Takes(old(NamesOf(v)), step) && NamesOf(v) == Stepped(old(NamesOf(v)), step)
  {
    hide StringIn, Taken, UniqueNames, IsTaken, NamesOf, IsOpen;
    ghost var before := NamesOf(v);
    NamesAre(v);
    NamesAreEffective(v);
    status, handle := OpenFile(v, name, mode, attributes, granted, created);
    forall f | f in old(v.files) && Some(f) != handle
      ensures NameOf(f) == before[f]
    {
      assert unchanged(f);
    }
    if handle.Some? {
      NothingIsNamed();
      OneFileNamed(v, before, handle.value);
    } else {
      NoFileNamed(v, before);
    }
  }

  lemma NothingIsNamed()
    ensures StringIn(NO_DESCRIPTION.filename) == []
  {
  }

  /** Renaming a file is the step Rename, if the string library copies the name; otherwise nothing is renamed. */
  method RenameInNames(v: Volume, file: File, name: Name, copies: nat -> bool) returns (status: BootMonVolume.Status)
    requires v.Valid() && file in v.files && file.info.Some? && file.openMode != ReadOnly
    requires IsName(Stripped(name))
    modifies file`info
    ensures v.Valid()
    ensures status == BootMonVolume.Success && copies(NameRoom(0)) ==>
              var step := Step.Rename(file, Stripped(name));
              Takes(old(NamesOf(v)), step) && NamesOf(v) == Stepped(old(NamesOf(v)), step)
    ensures status != BootMonVolume.Success || !copies(NameRoom(0)) ==> NamesOf(v) == old(NamesOf(v))
  {
    hide StringIn, Taken, UniqueNames, IsTaken, NamesOf, Stripped;
    ghost var before := NamesOf(v);
    NamesAre(v);
    NamesAreEffective(v);
    status := SetFileName(v, file, name, copies);
    if status == BootMonVolume.Success && copies(NameRoom(0)) {
      OneFileNamed(v, before, file);
    } else {
      NoFileNamed(v, before);
    }
  }

  /** A flush is the step Write if it renews the description; otherwise it changes no name. */
  method FlushInNames(v: Volume, file: File) returns (ghost flushed: BootMonVolume.Status)
    requires v.Valid() && file in v.files && file.info.Some?
    modifies v`files, file`description, file`address, file`pending, v.disk`requests, v.disk.data
    ensures v.Valid()
    ensures Takes(old(NamesOf(v)), Step.Write(file))
    ensures NamesOf(v) ==
            if flushed in {BootMonVolume.Success, AccessDenied} || file.Mirror() != old(file.Mirror()) then
              Stepped(old(NamesOf(v)), Step.Write(file))
            else old(NamesOf(v))
  {
    hide StringIn, NamesOf, v.Aim;
    ghost var before := NamesOf(v);
    NamesAre(v);
    flushed := FlushForClose(v, file);
    assert FilesIn(v.files) == FilesIn(old(v.files));
    OneFileNamed(v, before, file);
  }

  /** Closing is the step Close. */
  method CloseInNames(v: Volume, file: File) returns (ghost named: bool)
    requires v.Valid() && file in v.files && file.info.Some?
    modifies v`files, file`info, file`description, file`address, file`pending, v.disk`requests, v.disk.data
    ensures v.Valid()
    ensures Takes(old(NamesOf(v)), Step.Close(file, named))
    ensures NamesOf(v) == Stepped(old(NamesOf(v)), Step.Close(file, named))
  {
    hide StringIn, NamesOf, v.Aim, UniqueNames, IsTaken;
    ghost var before := NamesOf(v);
    NamesAre(v);
    var status;
    ghost var flushed;
    status, flushed, named := CloseFile(v, file);
    assert FilesIn(v.files) == FilesIn(old(v.files));
    OneFileNamed(v, before, file);
  }

  /** Deleting is the step Delete, unless it fails. */
  method DeleteInNames(v: Volume, file: File) returns (status: BootMonVolume.Status)
    requires v.Valid() && file in v.files
    modifies v`files, file`pending, v.disk`requests, v.disk.data
    ensures v.Valid()
    ensures Takes(old(NamesOf(v)), Step.Delete(file))
    ensures NamesOf(v) ==
            if status == BootMonVolume.Success then Stepped(old(NamesOf(v)), Step.Delete(file)) else old(NamesOf(v))
  {
    hide StringIn, NamesOf, UniqueNames, v.IndexOf;
    ghost var before, k := NamesOf(v), v.IndexOf(file);
    NamesAre(v);
    status := BootMonDirectory.Delete(v, file);
    if status == BootMonVolume.Success {
      WithoutFile(v, old(v.files), k, before);
    } else {
      NoFileNamed(v, before);
    }
  }

  lemma {:induction false} WithoutFile(v: Volume, files: seq<File>, k: nat, before: map<File, Named>)
    requires k < |files| && v.files == Remove(files, k) && before.Keys == FilesIn(files)
    requires forall i, j :: 0 <= i < j < |files| ==> files[i] != files[j]
    requires forall f :: f in v.files ==> NameOf(f) == before[f]
    ensures NamesOf(v) == before - {files[k]}
  {
    hide NameOf, Remove;
    forall f
      ensures f in v.files <==> f in files && f != files[k]
    {
      InRemoved(files, k, f);
    }
  }

  // ---------- the next mount ----------

  /** No two files in a list, of those on the media, have the same name in their descriptions. */
  ghost predicate UniqueOnMedia(list: seq<Description>) {
    forall d, e :: d in list && e in list && d != e && d.regionCount != 0 && e.regionCount != 0 ==>
      StringIn(d.filename) != StringIn(e.filename)
  }

  /** After a run that has kept the volume the names found by a mount, which finds no file twice, are unique if
      and only if those on the media are: a name in use that is not on the media yet does not count. */
  lemma {:induction false} MountFindsUniqueNames(s: VolumeState, g: Geometry)
    requires Good(s, g)
    ensures var scan := Scan(s.media, g.blocks, g.blockSize, 0);
            IsRising(scan) && (UniqueOnMedia(scan) <==> UniqueOnMedia(s.list))
  {
    hide Mountable, AreApart, IsTruthful, Scan, StringIn, FindsExactly, IsRising;
    GoodIsIntact(s, g);
    FoundIsListed(s, g);
    ScanIsRising(s.media, g.blocks, g.blockSize, 0);
  }

  /** If every file goes by the name in its description, as closed files do, unique names survive the mount. */
  lemma {:induction false} ClosedNamesSurvive(v: Volume)
    requires v.Valid() && Good(StateOf(v), GeometryOf(v.disk)) && UniqueNames(v.files)
    requires forall f :: f in v.files ==> f.EffectiveName() == StringIn(f.description.filename)
    ensures UniqueOnMedia(Scan(v.disk.data[..], v.disk.lastBlock + 1, v.disk.blockSize, 0))
  {
    hide Mountable, AreApart, IsTruthful, Scan, StringIn;
    MountFindsUniqueNames(StateOf(v), GeometryOf(v.disk));
    forall d, e | d in v.List() && e in v.List() && d != e
      ensures StringIn(d.filename) != StringIn(e.filename)
    {
      var i, j :| 0 <= i < |v.files| && 0 <= j < |v.files| && v.List()[i] == d && v.List()[j] == e;
      assert v.files[i] != v.files[j];
    }
  }

  /** File 1 is renamed and stays open, so its first name is free in the list, but not on the media; file 2 is
      created under it and closed. All names are unique, and a mount finds the first name twice. */
  lemma FreedNameIsFoundTwice(first: Name, second: Name)
    requires first != second && first != []
    ensures var names := map[1 := Named(Some(first), first)];
            var run := [Step.Rename(1, second), Step.Create(2, first), Step.Close(2, true)];
            && IsNameRun(names, run) && UniqueThroughout(names, run)
            && Stepped(Stepped(Stepped(names, run[0]), run[1]), run[2])[1].onMedia
               == Stepped(Stepped(Stepped(names, run[0]), run[1]), run[2])[2].onMedia
  {
    var names := map[1 := Named(Some(first), first)];
    var run := [Step.Rename(1, second), Step.Create(2, first), Step.Close(2, true)];
    var renamed := Stepped(names, run[0]);
    var created := Stepped(renamed, run[1]);
    var closed := Stepped(created, run[2]);
    assert run[1..] == [run[1], run[2]] && [run[1], run[2]][1..] == [run[2]] && [run[2]][1..] == [];
    assert IsNameRun(closed, []);
    assert IsNameRun(created, [run[2]]);
    assert IsNameRun(renamed, [run[1], run[2]]);
    assert SparesThroughout(created, [run[2]]);
    assert SparesThroughout(renamed, [run[1], run[2]]);
    RunKeepsUnique(names, run);
  }
}
