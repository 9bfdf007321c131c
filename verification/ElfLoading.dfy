/** Loading an ELF file in two phases: first the program headers become a list of copies and
    zero-fills, then, when the firmware has been shut down, the list is replayed. */
module ElfLoading {
  import opened Bytes

  // The parts of a program header that matter; loadable stands for the type PT_LOAD.
  datatype Segment = Segment(loadable: bool, offset: nat, vaddr: nat, filesz: nat, memsz: nat)

  datatype Node = Copy(to: nat, from: nat, length: nat) | Zero(to: nat, length: nat)

  datatype Status = Success | InvalidParameter | OutOfResources

  type Memory = seq<Byte>

  function Add64(a: nat, b: nat): nat {
    (a + b) % 0x1_0000_0000_0000_0000
  }

  // ---------- the first phase ----------

  function NodesOf(image: nat, s: Segment): seq<Node> {
    if !s.loadable then []
    else
      (if s.filesz != 0 then [Copy(s.vaddr, Add64(image, s.offset), s.filesz)] else [])
      + (if s.memsz > s.filesz then [Zero(Add64(s.vaddr, s.filesz), s.memsz - s.filesz)] else [])
  }

  function Nodes(image: nat, segments: seq<Segment>): seq<Node> {
    if segments == [] then []
    else Nodes(image, segments[..|segments| - 1]) + NodesOf(image, segments[|segments| - 1])
  }

  function ImageSize(segments: seq<Segment>): nat {
    if segments == [] then 0
    else
      var s := segments[|segments| - 1];
      ImageSize(segments[..|segments| - 1]) + if s.loadable then s.memsz else 0
  }

  function Lengths(nodes: seq<Node>): nat {
    if nodes == [] then 0 else Lengths(nodes[..|nodes| - 1]) + nodes[|nodes| - 1].length
  }

  predicate WellFormed(s: Segment) {
    s.loadable ==> s.filesz <= s.memsz
  }

  class LoadList {
    var nodes: seq<Node>
    // Which requests for memory are granted is unknown.
    const grants: nat -> bool
    var requests: nat

    constructor (grants: nat -> bool)
      ensures nodes == []
    {
      this.grants := grants;
      nodes, requests := [], 0;
    }

    method Append(node: Node) returns (ok: bool)
      modifies this`nodes, this`requests
      ensures ok == grants(old(requests)) && requests == old(requests) + 1
      ensures nodes == if ok then old(nodes) + [node] else old(nodes)
    {
      ok := grants(requests);
      requests := requests + 1;
      if ok {
        nodes := nodes + [node];
      }
    }

    /** A segment becomes a copy of its file bytes and a zero-fill of the rest; when memory runs
        out in between, the copy stays in the list. */
    method LoadSegment(image: nat, s: Segment) returns (status: Status)
      requires s.loadable
      modifies this`nodes, this`requests
      ensures status == InvalidParameter <==> !WellFormed(s)
      ensures status == Success ==> nodes == old(nodes) + NodesOf(image, s)
      ensures old(nodes) <= nodes <= old(nodes) + NodesOf(image, s)
      ensures (forall n :: grants(n)) ==> status != OutOfResources
    {
      if s.filesz > s.memsz {
        return InvalidParameter;
      }
      if s.filesz != 0 {
        var ok := Append(Copy(s.vaddr, Add64(image, s.offset), s.filesz));
        if !ok {
          return OutOfResources;
        }
      }
      if s.memsz - s.filesz > 0 {
        var ok := Append(Zero(Add64(s.vaddr, s.filesz), s.memsz - s.filesz));
        if !ok {
          return OutOfResources;
        }
      }
      status := Success;
    }

    /** The loop over the program headers. */
    method LoadFile(image: nat, segments: seq<Segment>) returns (status: Status)
      requires nodes == []
      modifies this`nodes, this`requests
      ensures status == Success ==>
                && nodes == Nodes(image, segments) && (forall s :: s in segments ==> WellFormed(s))
                && Lengths(nodes) == ImageSize(segments) != 0
      ensures status in {Success, InvalidParameter}
      ensures (forall n :: grants(n)) ==>
                (status == Success <==>
                   && (forall s :: s in segments ==> WellFormed(s))
                   && ImageSize(segments) % 0x1_0000_0000_0000_0000 != 0)
    {
      hide Nodes, NodesOf, ImageSize, Lengths;
      NoSegment(image);
      var imageSize, k := 0, 0;
      while k < |segments|
        invariant 0 <= k <= |segments| && nodes == Nodes(image, segments[..k])
        invariant imageSize == ImageSize(segments[..k]) % 0x1_0000_0000_0000_0000
        invariant forall s :: s in segments[..k] ==> WellFormed(s)
      {
        var s := segments[k];
        OneSegmentMore(image, segments, k);
        if s.loadable {
          var loaded := LoadSegment(image, s);
          if loaded != Success {
            return InvalidParameter;
          }
          imageSize := Add64(imageSize, s.memsz);
        }
        k := k + 1;
      }
      assert segments[..k] == segments;
      NodesCoverImage(image, segments);
      status := if imageSize == 0 then InvalidParameter else Success;
    }
  }

  lemma NoSegment(image: nat)
    ensures Nodes(image, []) == [] && ImageSize([]) == 0
  {
  }

  /** What one program header adds to the nodes and to the size. */
  lemma OneSegmentMore(image: nat, segments: seq<Segment>, k: nat)
    requires k < |segments|
    ensures Nodes(image, segments[..k + 1]) == Nodes(image, segments[..k]) + NodesOf(image, segments[k])
    ensures !segments[k].loadable ==> Nodes(image, segments[..k + 1]) == Nodes(image, segments[..k])
    ensures var before, size := ImageSize(segments[..k]), if segments[k].loadable then segments[k].memsz else 0;
            && ImageSize(segments[..k + 1]) == before + size
            && Add64(before % 0x1_0000_0000_0000_0000, size) == (before + size) % 0x1_0000_0000_0000_0000
    ensures (forall s :: s in segments[..k + 1] ==> WellFormed(s)) <==>
            (forall s :: s in segments[..k] ==> WellFormed(s)) && WellFormed(segments[k])
  {
    assert segments[..k + 1][..k] == segments[..k];
    assert segments[..k + 1] == segments[..k] + [segments[k]];
  }

  lemma {:induction false} LengthsConcat(a: seq<Node>, b: seq<Node>)
    ensures Lengths(a + b) == Lengths(a) + Lengths(b)
  {
    if b == [] {
      assert a + b == a;
    } else {
      LengthsConcat(a, b[..|b| - 1]);
      assert (a + b)[..|a + b| - 1] == a + b[..|b| - 1];
    }
  }

  /** The nodes of one segment cover its memory part. */
  lemma {:induction false} NodesCoverSegment(image: nat, s: Segment)
    requires WellFormed(s)
    ensures Lengths(NodesOf(image, s)) == if s.loadable then s.memsz else 0
  {
    var copy := if s.filesz != 0 then [Copy(s.vaddr, Add64(image, s.offset), s.filesz)] else [];
    var zero := if s.memsz > s.filesz then [Zero(Add64(s.vaddr, s.filesz), s.memsz - s.filesz)] else [];
    LengthsConcat(copy, zero);
    OneLength(Copy(s.vaddr, Add64(image, s.offset), s.filesz));
    if s.memsz > s.filesz {
      OneLength(Zero(Add64(s.vaddr, s.filesz), s.memsz - s.filesz));
    }
  }

  lemma OneLength(node: Node)
    ensures Lengths([node]) == node.length && Lengths([]) == 0
  {
    assert [node][..0] == [];
  }

  /** The nodes together cover as many bytes as the segments. */
  lemma {:induction false} NodesCoverImage(image: nat, segments: seq<Segment>)
    requires forall s :: s in segments ==> WellFormed(s)
    ensures Lengths(Nodes(image, segments)) == ImageSize(segments)
  {
    hide NodesOf;
    if segments != [] {
      var n := |segments| - 1;
      assert segments[n] in segments;
      NodesCoverImage(image, segments[..n]);
      NodesCoverSegment(image, segments[n]);
      LengthsConcat(Nodes(image, segments[..n]), NodesOf(image, segments[n]));
    }
  }

  // ---------- the second phase ----------

  predicate InBounds(node: Node, size: nat) {
    node.to + node.length <= size && (node.Copy? ==> node.from + node.length <= size)
  }

  /** Copies read all their bytes before they write any. */
  function Applied(memory: Memory, node: Node): (r: Memory)
    requires InBounds(node, |memory|)
    ensures |r| == |memory|
  {
    memory[..node.to]
    + (if node.Copy? then memory[node.from..node.from + node.length] else Zeros(node.length))
    + memory[node.to + node.length..]
  }

  function Replayed(memory: Memory, nodes: seq<Node>): (r: Memory)
    requires forall node :: node in nodes ==> InBounds(node, |memory|)
    ensures |r| == |memory|
  {
    if nodes == [] then memory
    else Applied(Replayed(memory, nodes[..|nodes| - 1]), nodes[|nodes| - 1])
  }

  /** The loop that replays the list. */
  method ReplayLoadList(memory: array<Byte>, nodes: seq<Node>)
    requires forall node :: node in nodes ==> InBounds(node, memory.Length)
    modifies memory
    ensures memory[..] == Replayed(old(memory[..]), nodes)
  {
    var k := 0;
    while k < |nodes|
      invariant 0 <= k <= |nodes|
      invariant memory[..] == Replayed(old(memory[..]), nodes[..k])
    {
      var node := nodes[k];
      assert node in nodes;
      ghost var before := memory[..];
      assert nodes[..k + 1][..k] == nodes[..k];
      if node.Zero? {
        ZeroMem(memory, node.to, node.length);
      } else {
        CopyMem(memory, node.to, node.from, node.length);
      }
      assert memory[..] == Applied(before, node);
      k := k + 1;
    }
    assert nodes[..k] == nodes;
  }

  method ZeroMem(memory: array<Byte>, to: nat, length: nat)
    requires to + length <= memory.Length
    modifies memory
    ensures memory[..] == Applied(old(memory[..]), Zero(to, length))
  {
    forall i | to <= i < to + length {
      memory[i] := 0;
    }
  }

  method CopyMem(memory: array<Byte>, to: nat, from: nat, length: nat)
    requires to + length <= memory.Length && from + length <= memory.Length
    modifies memory
    ensures memory[..] == Applied(old(memory[..]), Copy(to, from, length))
  {
    forall i | 0 <= i < length {
      memory[to + i] := memory[from + i];
    }
  }

  // ---------- what the program headers mean ----------

  /** The segment and its file bytes lie inside the memory. */
  predicate Fits(image: nat, s: Segment, size: nat) {
    && size < 0x1_0000_0000_0000_0000
    && WellFormed(s)
    && (s.loadable ==> s.vaddr + s.memsz <= size && image + s.offset + s.filesz <= size)
  }

  ghost predicate AllFit(image: nat, segments: seq<Segment>, size: nat) {
    forall s :: s in segments ==> Fits(image, s, size)
  }

  predicate Covers(s: Segment, a: nat) {
    s.loadable && s.vaddr <= a < s.vaddr + s.memsz
  }

  predicate HasFileByte(s: Segment, a: nat) {
    Covers(s, a) && a < s.vaddr + s.filesz
  }

  function FileByteAt(image: nat, s: Segment, a: nat): nat
    requires HasFileByte(s, a)
  {
    image + s.offset + (a - s.vaddr)
  }

  // Where a byte of the loaded program comes from: a byte of the memory as it was, or nowhere.
  datatype Origin = Nowhere | At(address: nat)

  function Value(memory: Memory, origin: Origin): Byte
    requires origin.At? ==> origin.address < |memory|
  {
    if origin.Nowhere? then 0 else memory[origin.address]
  }

  /** What the headers say about a byte: the last segment that covers it provides a byte of the
      file or zero; without such a segment it stays as it was. */
  function Meant(image: nat, segments: seq<Segment>, a: nat): Origin {
    if segments == [] then At(a)
    else
      var s := segments[|segments| - 1];
      if HasFileByte(s, a) then At(FileByteAt(image, s, a))
      else if Covers(s, a) then Nowhere
      else Meant(image, segments[..|segments| - 1], a)
  }

  /** Where the replay takes a byte from: a copy finds what earlier copies left at its source. */
  function Taken(image: nat, segments: seq<Segment>, a: nat): Origin {
    if segments == [] then At(a)
    else
      var s := segments[|segments| - 1];
      var before := segments[..|segments| - 1];
      if HasFileByte(s, a) then Taken(image, before, FileByteAt(image, s, a))
      else if Covers(s, a) then Nowhere
      else Taken(image, before, a)
  }

  lemma {:induction false} OriginsInRange(image: nat, segments: seq<Segment>, a: nat, size: nat)
    requires AllFit(image, segments, size) && a < size
    ensures Taken(image, segments, a).At? ==> Taken(image, segments, a).address < size
    ensures Meant(image, segments, a).At? ==> Meant(image, segments, a).address < size
  {
    if segments != [] {
      var n := |segments| - 1;
      assert segments[n] in segments;
      OriginsInRange(image, segments[..n], a, size);
      if HasFileByte(segments[n], a) {
        OriginsInRange(image, segments[..n], FileByteAt(image, segments[n], a), size);
      }
    }
  }

  lemma {:induction false} ReplayedConcat(memory: Memory, a: seq<Node>, b: seq<Node>)
    requires forall node :: node in a + b ==> InBounds(node, |memory|)
    ensures (forall node :: node in a ==> InBounds(node, |memory|))
            && (forall node :: node in b ==> InBounds(node, |memory|))
    ensures Replayed(memory, a + b) == Replayed(Replayed(memory, a), b)
  {
    assert forall node :: node in a ==> node in a + b;
    assert forall node :: node in b ==> node in a + b;
    if b == [] {
      assert a + b == a;
    } else {
      var n := |b| - 1;
      assert a + b[..n] == (a + b)[..|a + b| - 1];
      ReplayedConcat(memory, a, b[..n]);
    }
  }

  lemma OneNode(memory: Memory, node: Node)
    requires InBounds(node, |memory|)
    ensures Replayed(memory, [node]) == Applied(memory, node)
  {
    assert [node][..0] == [];
  }

  lemma AppliedAt(memory: Memory, node: Node, a: nat)
    requires InBounds(node, |memory|) && a < |memory|
    ensures Applied(memory, node)[a] ==
            if !(node.to <= a < node.to + node.length) then memory[a]
            else if node.Copy? then memory[node.from + (a - node.to)] else 0
  {
  }

  lemma NodesInBounds(image: nat, s: Segment, size: nat)
    requires Fits(image, s, size)
    ensures forall node :: node in NodesOf(image, s) ==> InBounds(node, size)
    ensures s.loadable && s.filesz != 0 ==> Add64(image, s.offset) == image + s.offset
    ensures s.loadable && s.memsz > s.filesz ==> Add64(s.vaddr, s.filesz) == s.vaddr + s.filesz
  {
  }

  /** What the nodes of one segment do to a byte. */
  lemma {:induction false} SegmentReplayed(memory: Memory, image: nat, s: Segment, a: nat)
    requires Fits(image, s, |memory|) && a < |memory|
    ensures forall node :: node in NodesOf(image, s) ==> InBounds(node, |memory|)
    ensures Replayed(memory, NodesOf(image, s))[a] ==
            if HasFileByte(s, a) then memory[FileByteAt(image, s, a)] else if Covers(s, a) then 0 else memory[a]
  {
    hide Applied, Add64, Replayed;
    NodesInBounds(image, s, |memory|);
    if s.loadable && s.memsz > 0 {
      var copy, zero := Copy(s.vaddr, image + s.offset, s.filesz), Zero(s.vaddr + s.filesz, s.memsz - s.filesz);
      if s.filesz == 0 {
        assert NodesOf(image, s) == [zero];
        OneNode(memory, zero);
        AppliedAt(memory, zero, a);
      } else if s.memsz == s.filesz {
        assert NodesOf(image, s) == [copy];
        OneNode(memory, copy);
        AppliedAt(memory, copy, a);
      } else {
        assert NodesOf(image, s) == [copy, zero];
        TwoNodes(memory, copy, zero);
        AppliedAt(memory, copy, a);
        AppliedAt(Applied(memory, copy), zero, a);
      }
    } else {
      assert NodesOf(image, s) == [];
      NoNode(memory);
    }
  }

  lemma NoNode(memory: Memory)
    ensures Replayed(memory, []) == memory
  {
  }

  lemma TwoNodes(memory: Memory, first: Node, second: Node)
    requires InBounds(first, |memory|) && InBounds(second, |memory|)
    ensures Replayed(memory, [first, second]) == Applied(Applied(memory, first), second)
  {
    hide Applied;
    OneNode(memory, first);
    assert [first, second][..1] == [first];
  }

  /** The replay of all nodes moves every byte from where Taken says. */
  lemma {:induction false} ReplayTakes(memory: Memory, image: nat, segments: seq<Segment>, a: nat)
    requires AllFit(image, segments, |memory|) && a < |memory|
    ensures forall node :: node in Nodes(image, segments) ==> InBounds(node, |memory|)
    ensures Taken(image, segments, a).At? ==> Taken(image, segments, a).address < |memory|
    ensures Replayed(memory, Nodes(image, segments))[a] == Value(memory, Taken(image, segments, a))
  {
    OriginsInRange(image, segments, a, |memory|);
    if segments != [] {
      var n := |segments| - 1;
      var s := segments[n];
      assert s in segments;
      ReplayTakes(memory, image, segments[..n], a);
      var before := Replayed(memory, Nodes(image, segments[..n]));
      SegmentReplayed(before, image, s, a);
      ReplayedConcat(memory, Nodes(image, segments[..n]), NodesOf(image, s));
      if HasFileByte(s, a) {
        ReplayTakes(memory, image, segments[..n], FileByteAt(image, s, a));
      }
    }
  }

  // ---------- when the replay means what the headers say ----------

  /** The byte that segment k provides at an address is not covered by a later segment. */
  ghost predicate IsVisible(segments: seq<Segment>, k: nat, a: nat) {
    k < |segments| && HasFileByte(segments[k], a) && forall j :: k < j < |segments| ==> !Covers(segments[j], a)
  }

  /** Every file byte that stays visible is still in place when its segment is copied. */
  ghost predicate FileSurvives(image: nat, segments: seq<Segment>, size: nat) {
    forall k: nat, a: nat :: a < size && IsVisible(segments, k, a) ==>
      var source := FileByteAt(image, segments[k], a);
      Taken(image, segments[..k], source) == At(source)
  }

  ghost predicate MeansHeaders(image: nat, segments: seq<Segment>, size: nat)
    requires AllFit(image, segments, size)
  {
    forall memory: Memory, a: nat :: |memory| == size && a < size ==>
      LoadsByte(memory, image, segments, a)
  }

  /** The replay leaves at an address what the headers say. */
  ghost predicate LoadsByte(memory: Memory, image: nat, segments: seq<Segment>, a: nat)
    requires AllFit(image, segments, |memory|) && a < |memory|
  {
    ReplayTakes(memory, image, segments, a);
    OriginsInRange(image, segments, a, |memory|);
    Replayed(memory, Nodes(image, segments))[a] == Value(memory, Meant(image, segments, a))
  }

  lemma {:induction false} VisibleOrigin(image: nat, segments: seq<Segment>, k: nat, a: nat)
    requires IsVisible(segments, k, a)
    ensures Meant(image, segments, a) == At(FileByteAt(image, segments[k], a))
    ensures Taken(image, segments, a) == Taken(image, segments[..k], FileByteAt(image, segments[k], a))
    decreases |segments|
  {
    var n := |segments| - 1;
    if k < n {
      VisibleOrigin(image, segments[..n], k, a);
      assert segments[..n][..k] == segments[..k];
    }
  }

  lemma {:induction false} FindVisible(image: nat, segments: seq<Segment>, a: nat) returns (k: nat)
    ensures IsVisible(segments, k, a) || Taken(image, segments, a) == Meant(image, segments, a)
  {
    k := 0;
    if segments != [] {
      var n := |segments| - 1;
      if HasFileByte(segments[n], a) {
        k := n;
      } else if !Covers(segments[n], a) {
        k := FindVisible(image, segments[..n], a);
      }
    }
  }

  /** The loaded program is what the headers say, for every content of the file and the memory,
      if and only if no visible file byte is overwritten before it is copied. */
  lemma {:induction false} MeansHeadersIffFileSurvives(image: nat, segments: seq<Segment>, size: nat)
    requires AllFit(image, segments, size)
    ensures MeansHeaders(image, segments, size) <==> FileSurvives(image, segments, size)
  {
    if FileSurvives(image, segments, size) {
      forall memory: Memory, a: nat | |memory| == size && a < size
        ensures LoadsByte(memory, image, segments, a)
      {
        ReplayTakes(memory, image, segments, a);
        var k := FindVisible(image, segments, a);
        if IsVisible(segments, k, a) {
          VisibleOrigin(image, segments, k, a);
        }
      }
    }
    if MeansHeaders(image, segments, size) {
      forall k: nat, a: nat | a < size && IsVisible(segments, k, a)
        ensures var source := FileByteAt(image, segments[k], a);
                Taken(image, segments[..k], source) == At(source)
      {
        var source := FileByteAt(image, segments[k], a);
        assert segments[k] in segments;
        VisibleOrigin(image, segments, k, a);
        var memory: Memory := Zeros(size)[source := 1];
        ReplayTakes(memory, image, segments, a);
        assert LoadsByte(memory, image, segments, a);
      }
    }
  }

  /** It is enough that no segment is loaded over file bytes of a later one. */
  ghost predicate SourcesAreClear(image: nat, segments: seq<Segment>) {
    forall i, j, a :: 0 <= i < j < |segments| && HasFileByte(segments[j], a) ==>
      !Covers(segments[i], FileByteAt(image, segments[j], a))
  }

  lemma {:induction false} ClearSourcesSurvive(image: nat, segments: seq<Segment>, size: nat)
    requires SourcesAreClear(image, segments)
    ensures FileSurvives(image, segments, size)
  {
    forall k: nat, a: nat | a < size && IsVisible(segments, k, a)
      ensures Taken(image, segments[..k], FileByteAt(image, segments[k], a)) == At(FileByteAt(image, segments[k], a))
    {
      Uncovered(image, segments[..k], FileByteAt(image, segments[k], a));
    }
  }

  lemma {:induction false} Uncovered(image: nat, segments: seq<Segment>, a: nat)
    requires forall i :: 0 <= i < |segments| ==> !Covers(segments[i], a)
    ensures Taken(image, segments, a) == At(a)
  {
    if segments != [] {
      Uncovered(image, segments[..|segments| - 1], a);
    }
  }
}
