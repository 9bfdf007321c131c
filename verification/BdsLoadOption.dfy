/** Boot options: the packed form of section 3.1.3 of the UEFI specification, and the
    variables Boot#### and BootOrder. */
module BdsLoadOption {
  import opened Bytes
  import opened Options
  import opened BdsBootOrder

  // ---------- device paths ----------

  const END_TYPE: Byte := 0x7F
  const END_ENTIRE: Byte := 0xFF
  const NODE_HEADER: nat := 4
  const END_NODE: seq<Byte> := [0x7F, 0xFF, 4, 0]

  function NodeLength(b: seq<Byte>): nat
    requires |b| >= NODE_HEADER
  {
    BytesHalf(b[2..4])
  }

  predicate IsEndType(b: seq<Byte>)
    requires |b| >= NODE_HEADER
  {
    b[0] == END_TYPE
  }

  /** Complete nodes up to one that ends the entire path. More bytes may follow. */
  predicate IsPath(b: seq<Byte>) {
    && |b| >= NODE_HEADER
    && NODE_HEADER <= NodeLength(b) <= |b|
    && ((IsEndType(b) && b[1] == END_ENTIRE) || IsPath(b[NodeLength(b)..]))
  }

  /** The size of a path, all its instances and the last node included. */
  function PathSize(b: seq<Byte>): (size: nat)
    requires IsPath(b)
    ensures NODE_HEADER <= size <= |b|
  {
    if IsEndType(b) && b[1] == END_ENTIRE then NodeLength(b) else NodeLength(b) + PathSize(b[NodeLength(b)..])
  }

  /** Where the first instance ends: at the first node of the end type, whatever it ends. */
  function FirstEnd(b: seq<Byte>): (at: nat)
    requires IsPath(b)
    ensures at + NODE_HEADER <= PathSize(b)
  {
    if IsEndType(b) then 0 else NodeLength(b) + FirstEnd(b[NodeLength(b)..])
  }

  /** The one node that makes a path end with its first instance. */
  lemma {:induction false} FirstEndIsLast(b: seq<Byte>)
    requires IsPath(b)
    ensures FirstEnd(b) + NODE_HEADER == PathSize(b) <==> b[FirstEnd(b)..FirstEnd(b) + NODE_HEADER] == END_NODE
  {
    if !IsEndType(b) {
      hide IsPath, NodeLength;
      FirstNodeSize(b);
      var n := NodeLength(b);
      FirstEndIsLast(b[n..]);
      var at := FirstEnd(b[n..]);
      SliceBehind(b, n, at, NODE_HEADER);
    } else {
      hide IsPath, NodeLength, PathSize;
      EndNodeBytes(b);
      EndTypeSize(b);
    }
  }

  lemma SliceBehind(b: seq<Byte>, n: nat, at: nat, length: nat)
    requires n + at + length <= |b|
    ensures b[n..][at..at + length] == b[n + at..n + at + length]
  {
  }

  lemma EndTypeSize(b: seq<Byte>)
    requires IsPath(b) && IsEndType(b)
    ensures PathSize(b) == NODE_HEADER <==> b[1] == END_ENTIRE && NodeLength(b) == NODE_HEADER
  {
    hide FirstEnd, BytesHalf;
  }

  lemma FirstNodeSize(b: seq<Byte>)
    requires IsPath(b) && !IsEndType(b)
    ensures NodeLength(b) <= |b| && IsPath(b[NodeLength(b)..])
  {
  }

  lemma EndNodeBytes(b: seq<Byte>)
    requires |b| >= NODE_HEADER
    ensures b[..NODE_HEADER] == END_NODE <==> IsEndType(b) && b[1] == END_ENTIRE && NodeLength(b) == NODE_HEADER
  {
    assert b[..NODE_HEADER] == [b[0], b[1]] + b[2..4];
    assert BytesHalf(b[2..4]) == 4 <==> b[2..4] == [4, 0];
  }

  // ---------- text ----------

  /** 16-bit characters and the zero that ends them. */
  function TextBytes(text: seq<Half>): (b: seq<Byte>)
    ensures |b| == 2 * (|text| + 1)
  {
    if text == [] then [0, 0] else HalfBytes(text[0]) + TextBytes(text[1..])
  }

  /** Reading characters up to a zero; nothing if the bytes end before. */
  function TextIn(b: seq<Byte>): Option<seq<Half>> {
    if |b| < 2 then None
    else
      var c := BytesHalf(b[..2]);
      if c == 0 then Some([])
      else
        match TextIn(b[2..])
        case None => None
        case Some(rest) => Some([c] + rest)
  }

  lemma {:induction false} TextRoundTrip(text: seq<Half>, rest: seq<Byte>)
    requires 0 !in text
    ensures TextIn(TextBytes(text) + rest) == Some(text)
  {
    var b := TextBytes(text) + rest;
    if text == [] {
      assert b[..2] == [0, 0];
    } else {
      assert text[0] in text;
      HalfRoundTrip(text[0]);
      TextRoundTrip(text[1..], rest);
      assert [text[0]] + text[1..] == text;
      assert b[..2] == HalfBytes(text[0]) && b[2..] == TextBytes(text[1..]) + rest;
    }
  }

  // ---------- the packed form ----------

  datatype Fields = Fields(attributes: Word, pathLength: Half, description: seq<Half>, path: seq<Byte>,
                           optionalData: seq<Byte>)

  /** What packing expects: text without zeros, and the true length of the path. */
  predicate Packable(f: Fields) {
    0 !in f.description && IsPath(f.path) && PathSize(f.path) == f.pathLength
  }

  function PathAt(f: Fields): nat {
    6 + 2 * (|f.description| + 1)
  }

  function PackedSize(f: Fields): nat {
    PathAt(f) + f.pathLength + |f.optionalData|
  }

  function Head(f: Fields): (b: seq<Byte>)
    ensures |b| == PathAt(f)
  {
    WordBytes(f.attributes) + HalfBytes(f.pathLength) + TextBytes(f.description)
  }

  /** The bytes that are written one after the other. */
  function Written(f: Fields): (b: seq<Byte>)
    requires Packable(f)
    ensures |b| <= PackedSize(f)
  {
    Head(f) + f.path[..FirstEnd(f.path)] + END_NODE + f.optionalData
  }

  /** The packed option: what was written, in a buffer that was zero before. */
  function Packed(f: Fields): (b: seq<Byte>)
    requires Packable(f)
    ensures |b| == PackedSize(f)
  {
    Written(f) + Zeros(PackedSize(f) - |Written(f)|)
  }

  // Where the parts lie in the packed option. A size may have wrapped.
  datatype View = View(attributes: Word, pathLength: Half, description: seq<Half>, pathAt: nat, optionalAt: nat,
                       optionalSize: nat)

  datatype ParseResult = Ok(view: View) | BadBufferSize | Overrun

  const SMALLEST_OPTION: nat := 12

  /** The parts of a packed option; the scan for the end of the description knows no limit. */
  function Parse(b: seq<Byte>): ParseResult {
    if |b| < SMALLEST_OPTION then BadBufferSize
    else
      match TextIn(b[6..])
      case None => Overrun
      case Some(description) =>
        var pathLength := BytesHalf(b[4..6]);
        var pathAt := 6 + 2 * (|description| + 1);
        var end := pathAt + pathLength;
        if end == |b| then Ok(View(BytesWord(b[..4]), pathLength, description, pathAt, 0, 0))
        else Ok(View(BytesWord(b[..4]), pathLength, description, pathAt, end, (|b| - end) % 0x1_0000_0000_0000_0000))
  }

  /** The optional data lies inside the option exactly if the path does: the length of the
      path is not checked against the size. */
  lemma {:induction false} OptionalDataIsInside(b: seq<Byte>)
    requires Parse(b).Ok? && |b| < 0x8000_0000_0000_0000
    ensures var v := Parse(b).view;
            v.optionalAt + v.optionalSize <= |b| <==> v.pathAt + v.pathLength <= |b|
  {
  }

  /** The fields as the view shows them. */
  function FieldsOf(b: seq<Byte>, v: View): Fields
    requires v.pathAt + v.pathLength <= |b| && v.optionalAt + v.optionalSize <= |b|
  {
    Fields(v.attributes, v.pathLength, v.description, b[v.pathAt..v.pathAt + v.pathLength],
           b[v.optionalAt..v.optionalAt + v.optionalSize])
  }

  lemma {:induction false} PackedIsParsed(f: Fields)
    requires Packable(f) && PackedSize(f) < 0x1_0000_0000_0000_0000
    ensures Parse(Packed(f)) == Ok(View(f.attributes, f.pathLength, f.description, PathAt(f),
                                        if f.optionalData == [] then 0 else PathAt(f) + f.pathLength, |f.optionalData|))
  {
    hide IsPath, PathSize, FirstEnd, TextBytes;
    var b, rest := Packed(f), Packed(f)[PathAt(f)..];
    assert b[..PathAt(f)] == Head(f);
    assert b[..4] == WordBytes(f.attributes);
    assert b[4..6] == HalfBytes(f.pathLength);
    assert b[6..] == TextBytes(f.description) + rest;
    WordRoundTrip(f.attributes);
    HalfRoundTrip(f.pathLength);
    TextRoundTrip(f.description, rest);
  }

  /** What follows the head of a packed option. */
  lemma {:induction false} PackedTail(f: Fields)
    requires Packable(f)
    ensures var n := FirstEnd(f.path);
            Packed(f)[PathAt(f)..] == f.path[..n] + END_NODE + f.optionalData + Zeros(f.pathLength - n - NODE_HEADER)
  {
    hide IsPath, PathSize, FirstEnd, TextBytes, Head;
  }

  /** The fields that a packed option shows. */
  function Reread(f: Fields): Fields
    requires Packable(f) && PackedSize(f) < 0x1_0000_0000_0000_0000
  {
    PackedIsParsed(f);
    FieldsOf(Packed(f), Parse(Packed(f)).view)
  }

  /** The path that a packed option shows. */
  lemma {:induction false} RereadFields(f: Fields)
    requires Packable(f) && PackedSize(f) < 0x1_0000_0000_0000_0000
    ensures var n, g := FirstEnd(f.path), Reread(f);
            && g.path ==
               (f.path[..n] + END_NODE + f.optionalData + Zeros(f.pathLength - n - NODE_HEADER))[..f.pathLength]
            && (n + NODE_HEADER == f.pathLength ==> g.optionalData == f.optionalData)
            && g.attributes == f.attributes && g.description == f.description && g.pathLength == f.pathLength
  {
    hide IsPath, PathSize, FirstEnd, TextBytes, Head, Parse, Packed;
    PackedIsParsed(f);
    PackedTail(f);
    var at, n, tail := PathAt(f), FirstEnd(f.path), Packed(f)[PathAt(f)..];
    assert Packed(f)[at..at + f.pathLength] == tail[..f.pathLength];
    if n + NODE_HEADER == f.pathLength {
      assert Packed(f)[at + f.pathLength..] == tail[f.pathLength..] == f.optionalData;
    }
  }

  lemma Middle(a: seq<Byte>, b: seq<Byte>, c: seq<Byte>, n: nat)
    requires |a| + |b| <= n <= |a + b + c|
    ensures (a + b + c)[..n][|a|..|a| + |b|] == b
  {
  }

  /** Parsing gives back everything that was packed if and only if the path has one instance:
      the copy stops at the first node of the end type, and of a path with more instances
      the rest is lost and the optional data moves up. */
  lemma {:induction false} RoundTripIffOneInstance(f: Fields)
    requires Packable(f) && PackedSize(f) < 0x1_0000_0000_0000_0000
    ensures Reread(f) == f.(path := f.path[..f.pathLength]) <==> FirstEnd(f.path) + NODE_HEADER == f.pathLength
    ensures |Written(f)| == PackedSize(f) <==> FirstEnd(f.path) + NODE_HEADER == f.pathLength
  {
    hide IsPath, PathSize, FirstEnd, TextBytes, Head, Parse, Packed, Reread;
    RereadFields(f);
    FirstEndIsLast(f.path);
    var n, g := FirstEnd(f.path), Reread(f);
    Middle(f.path[..n], END_NODE, f.optionalData + Zeros(f.pathLength - n - NODE_HEADER), f.pathLength);
    assert f.path[..n] + END_NODE + f.optionalData + Zeros(f.pathLength - n - NODE_HEADER)
        == f.path[..n] + END_NODE + (f.optionalData + Zeros(f.pathLength - n - NODE_HEADER));
    assert f.path[..f.pathLength][n..n + NODE_HEADER] == f.path[n..n + NODE_HEADER];
    if n + NODE_HEADER == f.pathLength {
      assert f.path[..f.pathLength] == f.path[..n] + f.path[n..n + NODE_HEADER];
    }
  }

  lemma PathIsLong(b: seq<Byte>)
    requires IsPath(b)
    ensures |b| >= NODE_HEADER && NODE_HEADER <= NodeLength(b) <= |b|
  {
  }

  lemma EndIsFirst(b: seq<Byte>)
    requires IsPath(b) && |b| >= NODE_HEADER && IsEndType(b)
    ensures FirstEnd(b) == 0
  {
  }

  lemma FirstNode(path: seq<Byte>)
    requires IsPath(path) && !IsEndType(path)
    ensures var n := NodeLength(path);
            NODE_HEADER <= n <= |path| && IsPath(path[n..]) && FirstEnd(path) == n + FirstEnd(path[n..])
  {
  }

  lemma NodeInFront(node: seq<Byte>, rest: seq<Byte>)
    requires |node| >= NODE_HEADER && NodeLength(node) == |node| && !IsEndType(node) && IsPath(rest)
    ensures IsPath(node + rest)
    ensures PathSize(node + rest) == |node| + PathSize(rest) && FirstEnd(node + rest) == |node| + FirstEnd(rest)
  {
    assert (node + rest)[2..4] == node[2..4];
    assert (node + rest)[|node|..] == rest;
  }

  lemma EndNodeIsPath(rest: seq<Byte>)
    ensures IsPath(END_NODE + rest) && PathSize(END_NODE + rest) == NODE_HEADER && FirstEnd(END_NODE + rest) == 0
  {
    assert (END_NODE + rest)[2..4] == [4, 0];
  }

  lemma {:induction false} CutPath(path: seq<Byte>, rest: seq<Byte>)
    requires IsPath(path)
    ensures var cut := path[..FirstEnd(path)] + END_NODE + rest;
            IsPath(cut) && PathSize(cut) == FirstEnd(path) + NODE_HEADER && FirstEnd(cut) == FirstEnd(path)
  {
    hide IsPath, PathSize, FirstEnd;
    PathIsLong(path);
    var cut := path[..FirstEnd(path)] + END_NODE + rest;
    if IsEndType(path) {
      EndIsFirst(path);
      EndNodeIsPath(rest);
      assert cut == END_NODE + rest;
    } else {
      var node, others := path[..NodeLength(path)], path[NodeLength(path)..];
      FirstNode(path);
      var cutOthers := others[..FirstEnd(others)] + END_NODE + rest;
      CutPath(others, rest);
      assert node[2..4] == path[2..4];
      NodeInFront(node, cutOthers);
      assert cut == node + cutOthers;
    }
  }

  /** An option read back after an update can be packed again exactly if its path has one instance. */
  lemma {:induction false} RereadIsPackable(f: Fields)
    requires Packable(f) && PackedSize(f) < 0x1_0000_0000_0000_0000
    ensures Packable(Reread(f)) <==> FirstEnd(f.path) + NODE_HEADER == f.pathLength
  {
    hide IsPath, PathSize, FirstEnd, TextBytes, Head, Parse, Packed, Reread;
    RereadFields(f);
    var n, g := FirstEnd(f.path), Reread(f);
    var rest := (f.optionalData + Zeros(f.pathLength - n - NODE_HEADER))[..f.pathLength - n - NODE_HEADER];
    assert g.path == f.path[..n] + END_NODE + rest;
    CutPath(f.path, rest);
  }

  // ---------- packing ----------

  method CopyMem(buffer: array<Byte>, at: nat, bytes: seq<Byte>)
    requires at + |bytes| <= buffer.Length
    modifies buffer
    ensures buffer[..] == old(buffer[..at]) + bytes + old(buffer[at + |bytes|..])
  {
    forall i | 0 <= i < |bytes| {
      buffer[at + i] := bytes[i];
    }
  }

  /** The buffer has been written up to some point and is zero behind it. */
  ghost predicate IsFilled(buffer: array<Byte>, written: seq<Byte>)
    reads buffer
  {
    |written| <= buffer.Length && buffer[..] == written + Zeros(buffer.Length - |written|)
  }

  method Append(buffer: array<Byte>, at: nat, bytes: seq<Byte>, ghost written: seq<Byte>) returns (next: nat)
    requires IsFilled(buffer, written) && at == |written| && at + |bytes| <= buffer.Length
    modifies buffer
    ensures IsFilled(buffer, written + bytes) && next == |written + bytes|
  {
    CopyMem(buffer, at, bytes);
    next := at + |bytes|;
    assert old(buffer[..at]) == written;
    assert old(buffer[at + |bytes|..]) == Zeros(buffer.Length - next);
  }

  /** The nodes up to the first of the end type, one after the other. */
  method CopyNodes(buffer: array<Byte>, at: nat, path: seq<Byte>, ghost head: seq<Byte>) returns (next: nat)
    requires IsPath(path) && IsFilled(buffer, head) && at == |head| && at + FirstEnd(path) <= buffer.Length
    modifies buffer
    ensures IsFilled(buffer, head + path[..FirstEnd(path)]) && next == at + FirstEnd(path)
  {
    hide IsPath, FirstEnd, PathSize;
    var node := path;
    next := at;
    ghost var done := 0;
    assert head + path[..0] == head;
    PathIsLong(path);
    while !IsEndType(node)
      invariant IsPath(node) && |node| >= NODE_HEADER && done <= |path| && node == path[done..]
      invariant FirstEnd(path) == done + FirstEnd(node)
      invariant IsFilled(buffer, head + path[..done]) && next == |head + path[..done]|
      decreases |node|
    {
      PathIsLong(node);
      NextNode(path, done);
      var length := NodeLength(node);
      next := Append(buffer, next, node[..length], head + path[..done]);
      assert head + path[..done] + node[..length] == head + path[..done + length];
      node := node[length..];
      done := done + length;
      PathIsLong(node);
    }
    EndIsFirst(node);
  }

  lemma NextNode(path: seq<Byte>, done: nat)
    requires done <= |path| && IsPath(path[done..]) && |path[done..]| >= NODE_HEADER && !IsEndType(path[done..])
    ensures var length := NodeLength(path[done..]);
            && length <= |path[done..]|
            && path[done + length..] == path[done..][length..] && IsPath(path[done + length..])
            && FirstEnd(path[done..]) == length + FirstEnd(path[done + length..])
  {
    FirstNode(path[done..]);
    var length := NodeLength(path[done..]);
    assert path[done..][length..] == path[done + length..];
  }

  /** The packed option is built in a zeroed buffer of the full size. */
  method Pack(f: Fields) returns (buffer: array<Byte>)
    requires Packable(f)
    ensures fresh(buffer) && buffer[..] == Packed(f)
  {
    hide IsPath, PathSize, FirstEnd, TextBytes;
    buffer := new Byte[PackedSize(f)](i => 0);
    assert IsFilled(buffer, []);
    var next := Append(buffer, 0, WordBytes(f.attributes), []);
    next := Append(buffer, next, HalfBytes(f.pathLength), [] + WordBytes(f.attributes));
    next := Append(buffer, next, TextBytes(f.description), [] + WordBytes(f.attributes) + HalfBytes(f.pathLength));
    assert [] + WordBytes(f.attributes) + HalfBytes(f.pathLength) + TextBytes(f.description) == Head(f);
    next := CopyNodes(buffer, next, f.path, Head(f));
    ghost var written := Head(f) + f.path[..FirstEnd(f.path)];
    next := Append(buffer, next, END_NODE, written);
    if f.optionalData != [] {
      next := Append(buffer, next, f.optionalData, written + END_NODE);
    }
    assert written + END_NODE + f.optionalData == Written(f);
  }

  // ---------- the option and its variables ----------

  class Variables {
    var bootOrder: Option<seq<Half>>
    var options: map<Half, seq<Byte>>
  }

  datatype Status = Success | OutOfResources

  class LoadOption {
    var fields: Fields
    // The packed option this one was read from or last written to, and its size.
    var packed: Option<seq<Byte>>
    var size: nat
    var index: Half

    ghost predicate Valid()
      reads this
    {
      Packable(fields) && PackedSize(fields) < 0x1_0000_0000_0000_0000
    }

    /** What the option remembers of earlier writes. */
    function State(): OptionState
      reads this`packed, this`size, this`index
    {
      if size == 0 then New else if packed.None? then Refused(index) else Stored(index)
    }

    /** The fields from the packed option. */
    method ParseLoadOption()
      requires Valid() && packed == Some(Packed(fields)) && size == PackedSize(fields)
      modifies this`fields
      ensures fields == Reread(old(fields))
    {
      PackedIsParsed(fields);
      var b := packed.value;
      var result := Parse(b);
      fields := FieldsOf(b, result.view);
    }

    /** Writing an option whose size is not zero updates its variable, after which the fields are
        those of the packed option; any other is new, gets the smallest unused index and is put
        last in the boot order. */
    method ToLoadOptionVariable(v: Variables, granted: bool) returns (status: Status)
      requires Valid()
      modifies this, v
      ensures status == if granted then Success else OutOfResources
      ensures State() == OptionAfter(old(v.bootOrder), old(State()), granted)
      ensures v.bootOrder == OrderAfter(old(v.bootOrder), old(State()), granted)
      ensures size == PackedSize(old(fields))
      ensures fields == if granted && old(size) > 0 && old(packed).Some? then Reread(old(fields)) else old(fields)
      ensures index == if old(size) > 0 then old(index) else AllocatedIndex(old(v.bootOrder))
      ensures !granted ==> packed == None && v.bootOrder == old(v.bootOrder) && v.options == old(v.options)
      ensures granted ==>
                && packed == Some(Packed(old(fields)))
                && v.options == old(v.options)[index := Packed(old(fields))]
                && v.bootOrder == (if old(size) > 0 && old(packed).Some? then old(v.bootOrder)
                                   else Some((if old(v.bootOrder).None? then [] else old(v.bootOrder.value)) + [index]))
    {
      var before := if size > 0 then packed else None;
      if size == 0 {
        index := BootOptionAllocateBootIndex(v.bootOrder);
      }
      size := PackedSize(fields);
      packed := None;
      if !granted {
        return OutOfResources;
      }
      var buffer := Pack(fields);
      packed := Some(buffer[..]);
      v.options := v.options[index := buffer[..]];
      if before.Some? {
        ParseLoadOption();
      }
      if before.None? {
        v.bootOrder := Some((if v.bootOrder.None? then [] else v.bootOrder.value) + [index]);
      }
      status := Success;
    }
  }
}
