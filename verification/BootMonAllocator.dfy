/** First-fit allocation of space for a new file, on the list of files the volume keeps. */
module BootMonAllocator {
  import opened Options

  // The bytes from..to of the media that the blocks of a file occupy.
  datatype Extent = Extent(from: nat, to: nat)

  // One entry per file in list order; a file not yet written to the media has no extent.
  type FileList = seq<Option<Extent>>

  const UINT64_SPAN: nat := 0x1_0000_0000_0000_0000

  /** Unsigned 64-bit subtraction. */
  function Sub64(a: nat, b: nat): nat {
    (a - b) % 0x1_0000_0000_0000_0000
  }

  // ---------- the invariant of the list ----------

  /** Files on the media appear in disk order, without overlap, inside the media. */
  ghost predicate InDiskOrder(files: FileList, total: nat) {
    && (forall i :: 0 <= i < |files| && files[i].Some? ==> files[i].value.from < files[i].value.to <= total)
    && (forall i, j :: 0 <= i < j < |files| && files[i].Some? && files[j].Some? ==>
        files[i].value.to <= files[j].value.from)
  }

  /** Files not yet on the media come first. */
  ghost predicate NewFilesFirst(files: FileList) {
    forall i, j :: 0 <= i < j < |files| && files[i].Some? ==> files[j].Some?
  }

  ghost predicate Layout(files: FileList, total: nat) {
    InDiskOrder(files, total) && NewFilesFirst(files)
  }

  /** Files on the media lie inside it without overlap, in whatever order the list has them. */
  ghost predicate AreApart(files: FileList, total: nat) {
    && (forall i :: 0 <= i < |files| && files[i].Some? ==> files[i].value.from < files[i].value.to <= total)
    && (forall i, j :: 0 <= i < |files| && 0 <= j < |files| && i != j && files[i].Some? && files[j].Some? ==>
          files[i].value.to <= files[j].value.from || files[j].value.to <= files[i].value.from)
  }

  // ---------- the search ----------

  datatype Space = Before(index: nat, start: nat) | AtEnd(start: nat) | VolumeFull

  /** The search from list position k on, with start the end of the last file passed. */
  function FirstFit(files: FileList, k: nat, start: nat, size: nat, total: nat): (space: Space)
    requires k <= |files|
    ensures space.Before? ==> k <= space.index < |files| && files[space.index].Some?
    decreases |files| - k
  {
    if k == |files| then
      if Sub64(total, start) >= size then AtEnd(start) else VolumeFull
    else if files[k].None? then
      FirstFit(files, k + 1, start, size, total)
    else if Sub64(files[k].value.from, start) >= size then
      Before(k, start)
    else
      FirstFit(files, k + 1, files[k].value.to, size, total)
  }

  /** A place of the given size that touches no file and lies inside the media. */
  ghost predicate IsFree(files: FileList, start: nat, size: nat, total: nat) {
    && start + size <= total
    && (forall i :: 0 <= i < |files| && files[i].Some? ==>
          start + size <= files[i].value.from || files[i].value.to <= start)
  }

  /** Where the scan stands: everything before position k ends at or below start, everything
      from k on begins at or above it, and no place below start is free. */
  ghost predicate Scanned(files: FileList, k: nat, start: nat, size: nat, total: nat)
    requires k <= |files|
  {
    && start <= total
    && (forall i :: 0 <= i < k && files[i].Some? ==> files[i].value.to <= start)
    && (forall i :: k <= i < |files| && files[i].Some? ==> start <= files[i].value.from)
    && (forall t :: 0 <= t < start ==> !IsFree(files, t, size, total))
  }

  /** The place found is free, and no place below it is; or there is none at all. */
  ghost predicate IsLowest(files: FileList, space: Space, size: nat, total: nat) {
    if space.VolumeFull? then forall t :: !IsFree(files, t, size, total)
    else
      && IsFree(files, space.start, size, total)
      && (forall t :: 0 <= t < space.start ==> !IsFree(files, t, size, total))
  }

  lemma {:induction false} ScanIsCorrect(files: FileList, k: nat, start: nat, size: nat, total: nat)
    requires InDiskOrder(files, total) && total < UINT64_SPAN && size > 0
    requires k <= |files| && Scanned(files, k, start, size, total)
    ensures IsLowest(files, FirstFit(files, k, start, size, total), size, total)
    decreases |files| - k
  {
    hide IsLowest, IsFree;
    if k == |files| {
      ScanEnds(files, start, size, total);
    } else if files[k].None? {
      ScanIsCorrect(files, k + 1, start, size, total);
    } else if files[k].value.from - start < size {
      ScannedNext(files, k, start, size, total);
      ScanIsCorrect(files, k + 1, files[k].value.to, size, total);
    } else {
      GapIsLowest(files, k, start, size, total);
    }
  }

  lemma ScanEnds(files: FileList, start: nat, size: nat, total: nat)
    requires Scanned(files, |files|, start, size, total) && total < UINT64_SPAN
    ensures IsLowest(files, if Sub64(total, start) >= size then AtEnd(start) else VolumeFull, size, total)
  {
  }

  lemma GapIsLowest(files: FileList, k: nat, start: nat, size: nat, total: nat)
    requires InDiskOrder(files, total) && k < |files| && files[k].Some? && Scanned(files, k, start, size, total)
    requires files[k].value.from - start >= size
    ensures IsLowest(files, Before(k, start), size, total)
  {
  }

  /** A gap that is too small is passed over together with the file behind it. */
  lemma {:induction false} ScannedNext(files: FileList, k: nat, start: nat, size: nat, total: nat)
    requires InDiskOrder(files, total) && size > 0
    requires k < |files| && files[k].Some? && Scanned(files, k, start, size, total)
    requires files[k].value.from - start < size
    ensures Scanned(files, k + 1, files[k].value.to, size, total)
  {
    var e := files[k].value;
    forall t | 0 <= t < e.to
      ensures !IsFree(files, t, size, total)
    {
      if t >= start {
        assert files[k].Some?;
      }
    }
  }

  /** On a list in disk order the search is sound and complete: it finds the lowest free
      place of the requested size, and reports a full volume exactly if there is none. */
  lemma {:induction false} FirstFitIsLowest(files: FileList, size: nat, total: nat)
    requires InDiskOrder(files, total) && total < UINT64_SPAN && size > 0
    ensures var space := FirstFit(files, 0, 0, size, total);
            && (space.VolumeFull? <==> forall t :: !IsFree(files, t, size, total))
            && (!space.VolumeFull? ==>
                  && IsFree(files, space.start, size, total)
                  && (forall t :: 0 <= t < space.start ==> !IsFree(files, t, size, total)))
  {
    ScanIsCorrect(files, 0, 0, size, total);
  }

  // ---------- the splice ----------

  function Remove<T>(s: seq<T>, i: nat): seq<T>
    requires i < |s|
  {
    s[..i] + s[i + 1..]
  }

  /** The list with entry i taken out and put in again in front of entry k. */
  function MoveBefore<T>(s: seq<T>, i: nat, k: nat): (r: seq<T>)
    requires i < |s| && k < |s| && i != k
    ensures |r| == |s|
  {
    if i < k then s[..i] + s[i + 1..k] + [s[i]] + s[k..]
    else s[..k] + [s[i]] + s[k..i] + s[i + 1..]
  }

  lemma {:induction false} MovedIsPermutation<T>(s: seq<T>, i: nat, k: nat)
    requires i < |s| && k < |s| && i != k
    ensures multiset(MoveBefore(s, i, k)) == multiset(s)
  {
    hide MoveBefore;
    if i < k {
      MovedForward(s, i, k);
      SwapParts(s[..i], [s[i]], s[i + 1..k], s[k..]);
    } else {
      MovedBack(s, i, k);
      SwapParts(s[..k], s[k..i], [s[i]], s[i + 1..]);
    }
  }

  lemma MovedForward<T>(s: seq<T>, i: nat, k: nat)
    requires i < k < |s|
    ensures Joined(s[..i], [s[i]], s[i + 1..k], s[k..]) == s
    ensures Joined(s[..i], s[i + 1..k], [s[i]], s[k..]) == MoveBefore(s, i, k)
  {
  }

  lemma MovedBack<T>(s: seq<T>, i: nat, k: nat)
    requires k < i < |s|
    ensures Joined(s[..k], s[k..i], [s[i]], s[i + 1..]) == s
    ensures Joined(s[..k], [s[i]], s[k..i], s[i + 1..]) == MoveBefore(s, i, k)
  {
  }

  function Joined<T>(a: seq<T>, b: seq<T>, c: seq<T>, d: seq<T>): seq<T> {
    a + b + c + d
  }

  lemma SwapParts<T>(a: seq<T>, b: seq<T>, c: seq<T>, d: seq<T>)
    ensures multiset(Joined(a, c, b, d)) == multiset(Joined(a, b, c, d))
  {
    assert multiset(a + c + b + d) == multiset(a) + multiset(c) + multiset(b) + multiset(d);
    assert multiset(a + b + c + d) == multiset(a) + multiset(b) + multiset(c) + multiset(d);
  }

  /** Where entry a of the moved list came from. */
  function Origin(i: nat, k: nat, a: nat): nat
    requires i != k
  {
    if i < k then (if a < i then a else if a < k - 1 then a + 1 else if a == k - 1 then i else a)
    else (if a < k then a else if a == k then i else if a <= i then a - 1 else a)
  }

  lemma MovedAt<T>(s: seq<T>, i: nat, k: nat, a: nat)
    requires i < |s| && k < |s| && i != k && a < |s|
    ensures Origin(i, k, a) < |s| && MoveBefore(s, i, k)[a] == s[Origin(i, k, a)]
  {
  }

  /** Where entry b of the list goes. */
  function Destination(i: nat, k: nat, b: nat): nat
    requires i != k
  {
    if i < k then (if b < i then b else if b == i then k - 1 else if b < k then b - 1 else b)
    else (if b < k then b else if b == i then k else if b < i then b + 1 else b)
  }

  lemma MovedTo<T>(s: seq<T>, i: nat, k: nat, b: nat)
    requires i < |s| && k < |s| && i != k && b < |s|
    ensures Destination(i, k, b) < |s| && MoveBefore(s, i, k)[Destination(i, k, b)] == s[b]
  {
    hide MoveBefore;
    assert Origin(i, k, Destination(i, k, b)) == b;
    MovedAt(s, i, k, Destination(i, k, b));
  }

  /** The splice neither parts files nor brings them on top of each other. */
  lemma {:induction false} MovedStaysApart(files: FileList, i: nat, k: nat, total: nat)
    requires i < |files| && k < |files| && i != k
    ensures AreApart(MoveBefore(files, i, k), total) <==> AreApart(files, total)
  {
    hide MoveBefore;
    if AreApart(files, total) {
      MovedFromApart(files, i, k, total);
    }
    if AreApart(MoveBefore(files, i, k), total) {
      MovedToApart(files, i, k, total);
    }
  }

  lemma {:induction false} MovedFromApart(files: FileList, i: nat, k: nat, total: nat)
    requires i < |files| && k < |files| && i != k && AreApart(files, total)
    ensures AreApart(MoveBefore(files, i, k), total)
  {
    hide MoveBefore;
    forall a | 0 <= a < |files|
      ensures Origin(i, k, a) < |files| && MoveBefore(files, i, k)[a] == files[Origin(i, k, a)]
    {
      MovedAt(files, i, k, a);
    }
  }

  lemma {:induction false} MovedToApart(files: FileList, i: nat, k: nat, total: nat)
    requires i < |files| && k < |files| && i != k && AreApart(MoveBefore(files, i, k), total)
    ensures AreApart(files, total)
  {
    hide MoveBefore;
    forall b | 0 <= b < |files|
      ensures Destination(i, k, b) < |files| && MoveBefore(files, i, k)[Destination(i, k, b)] == files[b]
    {
      MovedTo(files, i, k, b);
    }
  }

  lemma MovedInFront<T>(s: seq<T>, i: nat, k: nat)
    requires i < |s| && k < |s| && i != k
    ensures var r, j := MoveBefore(s, i, k), if i < k then k - 1 else k;
            j + 1 < |r| && r[j] == s[i] && r[j + 1] == s[k]
  {
  }

  lemma {:induction false} MovedStaysDistinct<T>(s: seq<T>, i: nat, k: nat)
    requires i < |s| && k < |s| && i != k
    requires forall a, b :: 0 <= a < b < |s| ==> s[a] != s[b]
    ensures var r := MoveBefore(s, i, k);
            && (forall a, b :: 0 <= a < b < |r| ==> r[a] != r[b])
            && (forall x :: x in r <==> x in s)
  {
    var r := MoveBefore(s, i, k);
    forall a, b | 0 <= a < b < |r|
      ensures r[a] != r[b]
    {
      MovedAt(s, i, k, a);
      MovedAt(s, i, k, b);
    }
    MovedIsPermutation(s, i, k);
    assert forall x :: x in r <==> x in multiset(r);
    assert forall x :: x in s <==> x in multiset(s);
  }

  /** The list after a new file i was written to the space found for it. */
  function Placed(files: FileList, i: nat, space: Space, length: nat): FileList
    requires i < |files| && !space.VolumeFull?
    requires space.Before? ==> space.index < |files| && space.index != i
  {
    var written := files[i := Some(Extent(space.start, space.start + length))];
    if space.Before? then MoveBefore(written, i, space.index) else written
  }

  /** The list after a new file was moved to the space found for it and not written. */
  function Moved(files: FileList, i: nat, space: Space): FileList
    requires i < |files|
    requires space.Before? ==> space.index < |files| && space.index != i
  {
    if space.Before? then MoveBefore(files, i, space.index) else files
  }

  /** A space that a file can be moved to without being written: the start of the media, or the
      end, for which the list is not changed. */
  predicate StaysInFront(space: Space) {
    space.Before? ==> space.start == 0
  }

  /** Where the space found for a file ends. */
  function EndOf(files: FileList, space: Space, total: nat): nat
    requires !space.VolumeFull?
    requires space.Before? ==> space.index < |files| && files[space.index].Some?
  {
    if space.Before? then files[space.index].value.from else total
  }

  /** Writing a new file keeps the layout exactly if it went in front of another file or was
      last in the list, and really fits where it went. In the remaining case, a file placed
      behind all others, the list is not relinked. */
  lemma {:induction false} PlacedKeepsLayout(files: FileList, i: nat, size: nat, length: nat, total: nat)
    requires Layout(files, total) && total < UINT64_SPAN
    requires i < |files| && files[i].None?
    requires 0 < size && 0 < length
    requires !FirstFit(files, 0, 0, size, total).VolumeFull?
    ensures var space := FirstFit(files, 0, 0, size, total);
            Layout(Placed(files, i, space, length), total) <==>
            && (space.Before? || i == |files| - 1)
            && space.start + length <= EndOf(files, space, total)
  {
    var space := FirstFit(files, 0, 0, size, total);
    ScanIsCorrect(files, 0, 0, size, total);
    var after := Placed(files, i, space, length);
    if space.Before? {
      PlacedInGap(files, i, space.index, space.start, length, size, total);
    } else {
      PlacedAtEnd(files, i, space.start, length, size, total);
    }
  }

  lemma {:induction false} GapNeighbours(files: FileList, k: nat, start: nat, size: nat, total: nat, from: nat)
    requires from <= |files| && InDiskOrder(files, total) && total < UINT64_SPAN && size > 0
    requires FirstFit(files, from, start, size, total).Before?
    requires k == FirstFit(files, from, start, size, total).index
    requires forall i :: 0 <= i < from && files[i].Some? ==> files[i].value.to <= start
    ensures forall i :: 0 <= i < k && files[i].Some? ==>
              files[i].value.to <= FirstFit(files, from, start, size, total).start
    decreases |files| - from
  {
    if files[from].None? {
      GapNeighbours(files, k, start, size, total, from + 1);
    } else if Sub64(files[from].value.from, start) < size {
      GapNeighbours(files, k, files[from].value.to, size, total, from + 1);
    }
  }

  lemma {:induction false} GapIsBehindNew(files: FileList, i: nat, k: nat, start: nat, size: nat, total: nat)
    requires Layout(files, total) && total < UINT64_SPAN && 0 < size
    requires i < |files| && files[i].None?
    requires FirstFit(files, 0, 0, size, total) == Before(k, start)
    ensures i < k && files[k].Some?
    ensures forall j :: 0 <= j < k && files[j].Some? ==> files[j].value.to <= start
  {
    GapNeighbours(files, k, 0, size, total, 0);
  }

  lemma {:induction false} PlacedInGap(files: FileList, i: nat, k: nat, start: nat, length: nat, size: nat, total: nat)
    requires Layout(files, total) && total < UINT64_SPAN && 0 < size && 0 < length
    requires i < |files| && files[i].None?
    requires FirstFit(files, 0, 0, size, total) == Before(k, start)
    ensures Layout(Placed(files, i, Before(k, start), length), total) <==> start + length <= files[k].value.from
  {
    hide FirstFit, Placed, MoveBefore, InDiskOrder, NewFilesFirst;
    GapIsBehindNew(files, i, k, start, size, total);
    var rest, e := Remove(files, i), Extent(start, start + length);
    RemovedKeepsLayout(files, i, total);
    assert rest[k - 1] == files[k];
    RemovedEndsBelow(files, i, k, start);
    InsertedKeepsLayout(rest, k - 1, e, total);
    PlacedIsInserted(files, i, k, e);
  }

  lemma RemovedEndsBelow(files: FileList, i: nat, k: nat, start: nat)
    requires i < k < |files|
    requires forall j :: 0 <= j < k && files[j].Some? ==> files[j].value.to <= start
    ensures forall j :: 0 <= j < k - 1 && Remove(files, i)[j].Some? ==> Remove(files, i)[j].value.to <= start
  {
  }

  lemma PlacedIsInserted(files: FileList, i: nat, k: nat, e: Extent)
    requires i < k < |files| && e.from <= e.to
    ensures Placed(files, i, Before(k, e.from), e.to - e.from)
            == Remove(files, i)[..k - 1] + [Some(e)] + Remove(files, i)[k - 1..]
  {
    assert Some(Extent(e.from, e.from + (e.to - e.from))) == Some(e);
  }

  lemma RemovedKeepsLayout(files: FileList, i: nat, total: nat)
    requires Layout(files, total) && i < |files|
    ensures Layout(Remove(files, i), total)
  {
    var after := Remove(files, i);
    assert forall j :: 0 <= j < i ==> after[j] == files[j];
    assert forall j :: i <= j < |after| ==> after[j] == files[j + 1];
  }

  /** Entry j of a list into which an extent was put in front of entry m. */
  function InsertedAt(files: FileList, m: nat, e: Extent, j: nat): Option<Extent>
    requires m <= |files| && j <= |files|
  {
    if j < m then files[j] else if j == m then Some(e) else files[j - 1]
  }

  lemma {:induction false} InsertedKeepsLayout(files: FileList, m: nat, e: Extent, total: nat)
    requires Layout(files, total) && m < |files| && files[m].Some? && e.from < e.to
    requires forall j :: 0 <= j < m && files[j].Some? ==> files[j].value.to <= e.from
    ensures Layout(files[..m] + [Some(e)] + files[m..], total) <==> e.to <= files[m].value.from
  {
    var after := files[..m] + [Some(e)] + files[m..];
    assert after[m] == Some(e) && after[m + 1] == files[m];
    if e.to <= files[m].value.from {
      hide Layout;
      forall j: nat | j < |after|
        ensures after[j] == InsertedAt(files, m, e, j)
      {
      }
      hide InsertedAt;
      forall i: nat, j: nat | i < j < |after|
        ensures LieInOrder(after[i], after[j], total)
      {
        InsertedPair(files, m, e, total, i, j);
      }
      AllInOrder(after, total);
    }
  }

  /** Two entries of a list as the layout asks for them. */
  predicate LieInOrder(a: Option<Extent>, b: Option<Extent>, total: nat) {
    a.Some? ==> b.Some? && a.value.from < a.value.to <= b.value.from < b.value.to <= total
  }

  lemma {:induction false} InsertedPair(files: FileList, m: nat, e: Extent, total: nat, i: nat, j: nat)
    requires Layout(files, total) && m < |files| && files[m].Some? && e.from < e.to <= files[m].value.from
    requires forall k :: 0 <= k < m && files[k].Some? ==> files[k].value.to <= e.from
    requires i < j <= |files|
    ensures LieInOrder(InsertedAt(files, m, e, i), InsertedAt(files, m, e, j), total)
  {
  }

  lemma {:induction false} AllInOrder(files: FileList, total: nat)
    requires |files| >= 2 && forall i: nat, j: nat :: i < j < |files| ==> LieInOrder(files[i], files[j], total)
    requires forall i: nat :: i < |files| && files[i].Some? ==> files[i].value.from < files[i].value.to <= total
    ensures Layout(files, total)
  {
  }

  lemma {:induction false} EndIsBehindAll(files: FileList, start: nat, size: nat, total: nat, from: nat)
    requires from <= |files|
    requires FirstFit(files, from, start, size, total).AtEnd?
    requires InDiskOrder(files, total)
    requires forall i :: 0 <= i < from && files[i].Some? ==> files[i].value.to <= start
    ensures forall i :: 0 <= i < |files| && files[i].Some? ==>
              files[i].value.to <= FirstFit(files, from, start, size, total).start
    decreases |files| - from
  {
    if from < |files| {
      EndIsBehindAll(files, if files[from].None? then start else files[from].value.to, size, total, from + 1);
    }
  }

  lemma {:induction false} PlacedAtEnd(files: FileList, i: nat, start: nat, length: nat, size: nat, total: nat)
    requires Layout(files, total) && total < UINT64_SPAN && 0 < size && 0 < length
    requires i < |files| && files[i].None?
    requires FirstFit(files, 0, 0, size, total) == AtEnd(start)
    ensures Layout(Placed(files, i, AtEnd(start), length), total) <==> i == |files| - 1 && start + length <= total
  {
    EndIsBehindAll(files, 0, size, total, 0);
    var after := Placed(files, i, AtEnd(start), length);
    assert after[i] == Some(Extent(start, start + length));
    if i < |files| - 1 {
      var last := |files| - 1;
      assert after[last] == files[last];
      if files[last].Some? {
        assert files[last].value.to <= start;
        assert !InDiskOrder(after, total);
      } else {
        assert !NewFilesFirst(after);
      }
    }
  }

  /** A file that was moved and not written keeps the layout exactly if it was moved to the start of
      the media: everywhere else it stands between files that are on the media. */
  lemma {:induction false} MovedKeepsLayout(files: FileList, i: nat, size: nat, total: nat)
    requires Layout(files, total) && total < UINT64_SPAN && 0 < size
    requires i < |files| && files[i].None?
    requires !FirstFit(files, 0, 0, size, total).VolumeFull?
    ensures Layout(Moved(files, i, FirstFit(files, 0, 0, size, total)), total)
            <==> StaysInFront(FirstFit(files, 0, 0, size, total))
  {
    var space := FirstFit(files, 0, 0, size, total);
    if space.Before? {
      hide FirstFit, MoveBefore;
      GapIsBehindNew(files, i, space.index, space.start, size, total);
      StartIsZeroIffNoneBefore(files, space.index, 0, size, total);
      MovedNewFile(files, i, space.index, total);
    }
  }

  lemma {:induction false} MovedNewFile(files: FileList, i: nat, k: nat, total: nat)
    requires Layout(files, total) && i < k < |files| && files[i].None? && files[k].Some?
    ensures Layout(MoveBefore(files, i, k), total) <==> forall j :: 0 <= j < k ==> files[j].None?
  {
    var after := MoveBefore(files, i, k);
    assert forall j :: 0 <= j < |after| ==>
        after[j] == files[if j < i then j else if j < k - 1 then j + 1 else if j == k - 1 then i else j];
    if Layout(after, total) {
      forall j | 0 <= j < k
        ensures files[j].None?
      {
        assert after[k - 1].None?;
        if j != i {
          assert after[if j < i then j else j - 1] == files[j];
        }
      }
    }
  }

  lemma {:induction false} StartIsZeroIffNoneBefore(files: FileList, k: nat, from: nat, size: nat, total: nat)
    requires from <= |files| && InDiskOrder(files, total) && total < UINT64_SPAN && size > 0
    requires forall j :: 0 <= j < from ==> files[j].None?
    requires FirstFit(files, from, 0, size, total).Before?
    requires k == FirstFit(files, from, 0, size, total).index
    ensures FirstFit(files, from, 0, size, total).start == 0 <==> forall j :: 0 <= j < k ==> files[j].None?
    decreases |files| - from
  {
    if files[from].None? {
      StartIsZeroIffNoneBefore(files, k, from + 1, size, total);
    } else if Sub64(files[from].value.from, 0) < size {
      StartOnlyRises(files, from + 1, files[from].value.to, size, total);
    }
  }

  lemma {:induction false} StartOnlyRises(files: FileList, from: nat, start: nat, size: nat, total: nat)
    requires from <= |files| && InDiskOrder(files, total) && start > 0
    requires FirstFit(files, from, start, size, total).Before?
    ensures FirstFit(files, from, start, size, total).start > 0
    decreases |files| - from
  {
    if files[from].None? {
      StartOnlyRises(files, from + 1, start, size, total);
    } else if Sub64(files[from].value.from, start) < size {
      StartOnlyRises(files, from + 1, files[from].value.to, size, total);
    }
  }

  /** Once a file was placed behind all others without being relinked, the next new file is
      given the start of the media, on top of whatever lies there. */
  lemma {:induction false} UnlinkedTailIsOverlooked(files: FileList, i: nat, size: nat, length: nat, next: nat,
                                                    total: nat)
    requires Layout(files, total) && total < UINT64_SPAN
    requires i < |files| && files[i].None? && (forall j :: 0 <= j < i ==> files[j].None?)
    requires 0 < size && 0 < length
    requires FirstFit(files, 0, 0, size, total).AtEnd?
    requires 0 < next <= FirstFit(files, 0, 0, size, total).start
    ensures var space := FirstFit(files, 0, 0, size, total);
            FirstFit([None] + Placed(files, i, space, length), 0, 0, next, total) == Before(i + 1, 0)
    ensures var space := FirstFit(files, 0, 0, size, total);
            (exists j :: 0 <= j < |files| && files[j].Some? && files[j].value.from < next) ==>
              !IsFree([None] + Placed(files, i, space, length), 0, next, total)
  {
    var space := FirstFit(files, 0, 0, size, total);
    EndIsBehindAll(files, 0, size, total, 0);
    var after := [None] + Placed(files, i, space, length);
    assert after[i + 1] == Some(Extent(space.start, space.start + length));
    assert forall j :: 0 <= j <= i ==> after[j] == None by {
      assert forall j :: 0 < j <= i ==> after[j] == files[j - 1];
    }
    assert space.start <= total by { ScanIsCorrect(files, 0, 0, size, total); }
    SkipsNewFiles(after, 0, i + 1, next, total);
    if j :| 0 <= j < |files| && files[j].Some? && files[j].value.from < next {
      assert after[j + 1] == files[j];
    }
  }

  lemma {:induction false} SkipsNewFiles(files: FileList, k: nat, n: nat, size: nat, total: nat)
    requires k <= n <= |files| && (forall j :: k <= j < n ==> files[j].None?)
    ensures FirstFit(files, k, 0, size, total) == FirstFit(files, n, 0, size, total)
    decreases n - k
  {
    if k < n {
      SkipsNewFiles(files, k + 1, n, size, total);
    }
  }

  // ---------- files apart in any order ----------

  /** A file put somewhere leaves the files apart exactly if its place is free of all others. */
  lemma {:induction false} WrittenStaysApart(files: FileList, k: nat, e: Extent, total: nat)
    requires AreApart(files, total) && k < |files| && e.from < e.to
    ensures AreApart(files[k := Some(e)], total) <==> IsFree(files[k := None], e.from, e.to - e.from, total)
  {
    var after, others := files[k := Some(e)], files[k := None];
    assert after[k] == Some(e) && others[k] == None;
    assert forall i :: 0 <= i < |files| && i != k ==> after[i] == files[i] && others[i] == files[i];
    assert e.from + (e.to - e.from) == e.to;
    if AreApart(after, total) {
      assert after[k].value.to <= total;
    }
    if IsFree(others, e.from, e.to - e.from, total) {
      forall i, j | 0 <= i < |after| && 0 <= j < |after| && i != j && after[i].Some? && after[j].Some?
        ensures after[i].value.to <= after[j].value.from || after[j].value.to <= after[i].value.from
      {
        assert i != k ==> others[i] == after[i];
        assert j != k ==> others[j] == after[j];
      }
    }
  }

  /** The space in front of a file starts before it. */
  lemma {:induction false} GapIsInFront(files: FileList, from: nat, start: nat, size: nat, total: nat)
    requires from <= |files| && InDiskOrder(files, total)
    requires FirstFit(files, from, start, size, total).Before?
    requires forall i :: from <= i < |files| && files[i].Some? ==> start <= files[i].value.from
    ensures var space := FirstFit(files, from, start, size, total); space.start <= files[space.index].value.from
    decreases |files| - from
  {
    if files[from].None? {
      GapIsInFront(files, from + 1, start, size, total);
    } else if Sub64(files[from].value.from, start) < size {
      GapIsInFront(files, from + 1, files[from].value.to, size, total);
    }
  }

  /** On a list in disk order the place found for a new file is free up to where its space ends. */
  lemma {:induction false} SpaceIsFree(files: FileList, size: nat, length: nat, total: nat)
    requires Layout(files, total) && total < UINT64_SPAN && size > 0 && length > 0
    requires !FirstFit(files, 0, 0, size, total).VolumeFull?
    ensures var space := FirstFit(files, 0, 0, size, total);
            IsFree(files, space.start, length, total) <==> space.start + length <= EndOf(files, space, total)
  {
    hide FirstFit;
    var space := FirstFit(files, 0, 0, size, total);
    if space.Before? {
      GapNeighbours(files, space.index, 0, size, total, 0);
      GapIsInFront(files, 0, 0, size, total);
      var next := files[space.index].value;
      assert space.start <= next.from < next.to;
    } else {
      EndIsBehindAll(files, 0, size, total, 0);
    }
  }

  /** The room of a file on the media is free of all others up to the next file. */
  lemma {:induction false} RoomIsFree(files: FileList, k: nat, length: nat, total: nat)
    requires Layout(files, total) && k < |files| && files[k].Some? && length > 0
    ensures IsFree(files[k := None], files[k].value.from, length, total)
            <==> files[k].value.from + length <= RoomEnd(files, k, total)
  {
    var others, end := files[k := None], files[k].value.from + length;
    if k + 1 < |files| {
      assert others[k + 1] == files[k + 1];
    }
    if end <= RoomEnd(files, k, total) {
      forall i | 0 <= i < |others| && others[i].Some?
        ensures end <= others[i].value.from || others[i].value.to <= files[k].value.from
      {
        assert others[i] == files[i];
      }
    }
  }

  // ---------- every change of the list ----------

  /** Where the room of a file already on the media ends. */
  function RoomEnd(files: FileList, i: nat, total: nat): nat
    requires i < |files|
  {
    if i + 1 < |files| && files[i + 1].Some? then files[i + 1].value.from else total
  }

  // A file created; a new file moved to the space found for it and written there, with the length
  // its description tells, which is less than what was asked for if the flush stopped; a new file
  // moved but not described on the media, because the flush stopped earlier; a file on the media
  // given another length; a file deleted.
  datatype Change =
    | Create
    | WriteNew(index: nat, size: nat, length: nat)
    | Relink(index: nat, size: nat)
    | Resize(index: nat, length: nat)
    | Delete(index: nat)

  predicate Possible(files: FileList, change: Change, total: nat) {
    match change
    case Create => true
    case WriteNew(i, size, length) =>
      i < |files| && files[i].None? && 0 < size && 0 < length && !FirstFit(files, 0, 0, size, total).VolumeFull?
    case Relink(i, size) =>
      i < |files| && files[i].None? && 0 < size && !FirstFit(files, 0, 0, size, total).VolumeFull?
    case Resize(i, length) => i < |files| && files[i].Some? && 0 < length
    case Delete(i) => i < |files|
  }

  function Changed(files: FileList, change: Change, total: nat): FileList
    requires Possible(files, change, total)
  {
    match change
    case Create => [None] + files
    case WriteNew(i, size, length) => Placed(files, i, FirstFit(files, 0, 0, size, total), length)
    case Relink(i, size) => Moved(files, i, FirstFit(files, 0, 0, size, total))
    case Resize(i, length) => files[i := Some(Extent(files[i].value.from, files[i].value.from + length))]
    case Delete(i) => Remove(files, i)
  }

  /** The condition, known before the change, under which it keeps the layout. */
  predicate Harmless(files: FileList, change: Change, total: nat)
    requires Possible(files, change, total)
  {
    match change
    case WriteNew(i, size, length) =>
      var space := FirstFit(files, 0, 0, size, total);
      (space.Before? || i == |files| - 1) && space.start + length <= EndOf(files, space, total)
    case Relink(i, size) => StaysInFront(FirstFit(files, 0, 0, size, total))
    case Resize(i, length) => files[i].value.from + length <= RoomEnd(files, i, total)
    case _ => true
  }

  lemma {:induction false} ChangeKeepsLayout(files: FileList, change: Change, total: nat)
    requires Layout(files, total) && total < UINT64_SPAN
    requires Possible(files, change, total)
    ensures Layout(Changed(files, change, total), total) <==> Harmless(files, change, total)
  {
    match change
    case Create =>
      assert forall j :: 0 < j <= |files| ==> ([None] + files)[j] == files[j - 1];
    case WriteNew(i, size, length) =>
      PlacedKeepsLayout(files, i, size, length, total);
    case Relink(i, size) =>
      MovedKeepsLayout(files, i, size, total);
    case Resize(i, length) =>
      ResizedKeepsLayout(files, i, length, total);
    case Delete(i) =>
      RemovedKeepsLayout(files, i, total);
  }

  lemma {:induction false} ResizedKeepsLayout(files: FileList, i: nat, length: nat, total: nat)
    requires Layout(files, total)
    requires i < |files| && files[i].Some? && 0 < length
    ensures Layout(files[i := Some(Extent(files[i].value.from, files[i].value.from + length))], total)
            <==> files[i].value.from + length <= RoomEnd(files, i, total)
  {
    var after := files[i := Some(Extent(files[i].value.from, files[i].value.from + length))];
    assert after[i] == Some(Extent(files[i].value.from, files[i].value.from + length));
    if i + 1 < |files| {
      var next := files[i + 1];
      assert next.Some? && after[i + 1] == next;
      assert forall j :: i < j < |files| && files[j].Some? ==> next.value.from <= files[j].value.from;
    }
  }

  /** A run of changes, each possible when its turn comes. */
  ghost predicate PossibleRun(files: FileList, run: seq<Change>, total: nat)
    decreases |run|
  {
    run != [] ==> Possible(files, run[0], total) && PossibleRun(Changed(files, run[0], total), run[1..], total)
  }

  ghost predicate HarmlessRun(files: FileList, run: seq<Change>, total: nat)
    requires PossibleRun(files, run, total)
    decreases |run|
  {
    run != [] ==> Harmless(files, run[0], total) && HarmlessRun(Changed(files, run[0], total), run[1..], total)
  }

  ghost predicate LayoutThroughout(files: FileList, run: seq<Change>, total: nat)
    requires PossibleRun(files, run, total)
    decreases |run|
  {
    Layout(files, total) && (run != [] ==> LayoutThroughout(Changed(files, run[0], total), run[1..], total))
  }

  /** The layout holds after every step of a run exactly if every step was harmless. */
  lemma {:induction false} RunKeepsLayout(files: FileList, run: seq<Change>, total: nat)
    requires Layout(files, total) && total < UINT64_SPAN
    requires PossibleRun(files, run, total)
    ensures LayoutThroughout(files, run, total) <==> HarmlessRun(files, run, total)
    decreases |run|
  {
    if run != [] {
      ChangeKeepsLayout(files, run[0], total);
      if Harmless(files, run[0], total) {
        RunKeepsLayout(Changed(files, run[0], total), run[1..], total);
      }
    }
  }
}
