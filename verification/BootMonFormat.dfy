/** The on-media description of a BootMonFs file: its byte layout, its checksum and the
    test that recognises it. */
module BootMonFormat {
  import opened Bytes

  const MAX_WORD: int := 0xFFFF_FFFF
  const MAX_NAME_LENGTH: nat := 32
  const REGION_MAX: nat := 4
  const DESCRIPTION_SIZE: nat := 136

  const SIGNATURE_1: Word := 0x464C_5348
  const SIGNATURE_2: Word := 0x464F_4F54
  const VERSION_1: Word := 1
  const OFFSET_1: Word := 92
  const VERSION_2: Word := 2
  const OFFSET_2: Word := 96

  /** What is left of a number stored in a 32-bit field. */
  function Low32(x: nat): Word {
    x % 0x1_0000_0000
  }

  // ---------- words and bytes ----------

  function Serialize(words: seq<Word>): (b: seq<Byte>)
    ensures |b| == 4 * |words|
  {
    if words == [] then [] else WordBytes(words[0]) + Serialize(words[1..])
  }

  function Parse(b: seq<Byte>): (words: seq<Word>)
    requires |b| % 4 == 0
    ensures |words| == |b| / 4
  {
    if b == [] then [] else [BytesWord(b[..4])] + Parse(b[4..])
  }

  lemma {:induction false} SerializeRoundTrip(words: seq<Word>)
    ensures Parse(Serialize(words)) == words
  {
    if words != [] {
      var b := Serialize(words);
      assert b[..4] == WordBytes(words[0]) && b[4..] == Serialize(words[1..]);
      WordRoundTrip(words[0]);
      SerializeRoundTrip(words[1..]);
    }
  }

  // ---------- the checksum ----------

  /** Ones' complement addition: a carry out of bit 31 is added back in at bit 0. */
  function AddWithCarry(a: Word, b: Word): Word {
    if a + b > MAX_WORD then a + b - MAX_WORD else a + b
  }

  function Sum(words: seq<Word>): nat {
    if words == [] then 0 else Sum(words[..|words| - 1]) + words[|words| - 1]
  }

  /** The one representative of a sum modulo 2^32 - 1 that is zero for the sum zero only. */
  function Reduce(sum: nat): Word {
    if sum == 0 then 0 else 1 + (sum - 1) % 0xFFFF_FFFF
  }

  lemma ReduceAdd(sum: nat, w: Word)
    ensures Reduce(sum + w) == AddWithCarry(Reduce(sum), w)
  {
  }

  lemma ReduceIsCongruent(sum: nat)
    ensures (Reduce(sum) - sum) % 0xFFFF_FFFF == 0
  {
    if sum > 0 {
      assert sum - 1 == (sum - 1) / 0xFFFF_FFFF * 0xFFFF_FFFF + (sum - 1) % 0xFFFF_FFFF;
    }
  }

  lemma CarryIsAddedBack(a: Word, w: Word)
    ensures ((if w > MAX_WORD - a then (a + 1) % 0x1_0000_0000 else a) + w) % 0x1_0000_0000 == AddWithCarry(a, w)
  {
  }

  function Checksum(words: seq<Word>): Word {
    MAX_WORD - Reduce(Sum(words))
  }

  /** The accumulator loop computes the complement of the sum modulo 2^32 - 1. */
  method BootMonFsChecksum(words: seq<Word>) returns (checksum: Word)
    ensures checksum == Checksum(words)
    ensures checksum == MAX_WORD <==> forall i :: 0 <= i < |words| ==> words[i] == 0
    ensures (MAX_WORD - checksum - Sum(words)) % 0xFFFF_FFFF == 0
  {
    var accumulator: Word := 0;
    var index := 0;
    while index < |words|
      invariant 0 <= index <= |words|
      invariant accumulator == Reduce(Sum(words[..index]))
    {
      var word := words[index];
      assert words[..index + 1][..index] == words[..index];
      ReduceAdd(Sum(words[..index]), word);
      CarryIsAddedBack(accumulator, word);
      if word > MAX_WORD - accumulator {
        accumulator := (accumulator + 1) % 0x1_0000_0000;
      }
      accumulator := (accumulator + word) % 0x1_0000_0000;
      index := index + 1;
    }
    assert words[..index] == words;
    SumIsZero(words);
    ReduceIsCongruent(Sum(words));
    checksum := MAX_WORD - accumulator;
  }

  lemma {:induction false} SumIsZero(words: seq<Word>)
    ensures Sum(words) == 0 <==> forall i :: 0 <= i < |words| ==> words[i] == 0
  {
    if words != [] {
      var n := |words| - 1;
      SumIsZero(words[..n]);
      assert forall i :: 0 <= i < n ==> words[..n][i] == words[i];
    }
  }

  lemma {:induction false} SumSplit(a: seq<Word>, b: seq<Word>)
    ensures Sum(a + b) == Sum(a) + Sum(b)
  {
    if b == [] {
      assert a + b == a;
    } else {
      var n := |b| - 1;
      SumSplit(a, b[..n]);
      assert (a + b)[..|a + b| - 1] == a + b[..n];
    }
  }

  lemma {:induction false} SumUpdate(words: seq<Word>, k: nat, w: Word)
    requires k < |words|
    ensures Sum(words[k := w]) + words[k] == Sum(words) + w
  {
    var a, b := words[..k], words[k + 1..];
    assert words == a + [words[k]] + b && words[k := w] == a + [w] + b;
    SumSplit(a + [words[k]], b);
    SumSplit(a, [words[k]]);
    SumSplit(a + [w], b);
    SumSplit(a, [w]);
    assert Sum([words[k]]) == words[k] && Sum([w]) == w by {
      assert [words[k]][..0] == [] && [w][..0] == [];
    }
  }

  /** A single changed word escapes the checksum in one case only: zero and all-ones are
      interchangeable as soon as any other word is not zero. */
  lemma {:induction false} ChangeIsDetected(words: seq<Word>, k: nat, w: Word)
    requires k < |words|
    ensures Checksum(words[k := w]) == Checksum(words) <==>
            w == words[k] || ({w, words[k]} == {0, MAX_WORD} && Sum(words) != words[k])
  {
    SumUpdate(words, k, w);
    var rest := Sum(words) - words[k];
    SumAtLeast(words, k);
    assert Sum(words[k := w]) == rest + w;
    ReduceDistinguishes(rest, w, words[k]);
    if {w, words[k]} == {0, MAX_WORD} {
      assert w in {0, MAX_WORD} && words[k] in {0, MAX_WORD};
      assert 0 in {w, words[k]} && MAX_WORD in {w, words[k]};
    }
    if w == 0 && words[k] == MAX_WORD {
      assert {w, words[k]} == {0, MAX_WORD};
    }
    if w == MAX_WORD && words[k] == 0 {
      assert {w, words[k]} == {0, MAX_WORD};
    }
  }

  lemma {:induction false} SumAtLeast(words: seq<Word>, k: nat)
    requires k < |words|
    ensures Sum(words) >= words[k]
  {
    var n := |words| - 1;
    if k < n {
      SumAtLeast(words[..n], k);
    }
  }

  lemma ReduceDistinguishes(rest: nat, a: Word, b: Word)
    ensures Reduce(rest + a) == Reduce(rest + b) <==>
            a == b || (rest != 0 && ((a == 0 && b == MAX_WORD) || (a == MAX_WORD && b == 0)))
  {
    var x, y := rest + a, rest + b;
    if x != 0 && y != 0 && Reduce(x) == Reduce(y) {
      assert (x - 1) % 0xFFFF_FFFF == (y - 1) % 0xFFFF_FFFF;
      SameRemainder(x - 1, y - 1);
    }
    if rest != 0 {
      assert (rest - 1 + 0xFFFF_FFFF) % 0xFFFF_FFFF == (rest - 1) % 0xFFFF_FFFF;
    }
  }

  lemma SameRemainder(x: nat, y: nat)
    requires x % 0xFFFF_FFFF == y % 0xFFFF_FFFF
    ensures x == y || x >= y + 0xFFFF_FFFF || y >= x + 0xFFFF_FFFF
  {
    var p, q := x / 0xFFFF_FFFF, y / 0xFFFF_FFFF;
    assert x - y == (p - q) * 0xFFFF_FFFF;
  }

  // ---------- the description ----------

  datatype Region = Region(loadAddress: Word, size: Word, offset: Word, checksum: Word)

  const NO_REGION := Region(0, 0, 0, 0)

  datatype Description = Description(
    entryPoint: Word,
    attributes: Word,
    regionCount: Word,
    regions: seq<Region>,
    blockStart: Word,
    blockEnd: Word,
    footerChecksum: Word,
    filename: seq<Byte>,
    offset: Word,
    version: Word,
    signature1: Word,
    signature2: Word)

  /** The C arrays have fixed sizes. */
  predicate Shaped(d: Description) {
    |d.regions| == REGION_MAX && |d.filename| == MAX_NAME_LENGTH
  }

  function RegionWords(r: Region): seq<Word> {
    [r.loadAddress, r.size, r.offset, r.checksum]
  }

  function HeadWords(d: Description): (words: seq<Word>)
    requires Shaped(d)
    ensures |words| == 22
  {
    [d.entryPoint, d.attributes, d.regionCount]
    + RegionWords(d.regions[0]) + RegionWords(d.regions[1]) + RegionWords(d.regions[2]) + RegionWords(d.regions[3])
    + [d.blockStart, d.blockEnd, d.footerChecksum]
  }

  function TailWords(d: Description): (words: seq<Word>)
    ensures |words| == 4
  {
    [d.offset, d.version, d.signature1, d.signature2]
  }

  function Encode(d: Description): (b: seq<Byte>)
    requires Shaped(d)
    ensures |b| == DESCRIPTION_SIZE
  {
    Serialize(HeadWords(d)) + d.filename + Serialize(TailWords(d))
  }

  function RegionAt(w: seq<Word>, i: nat): Region
    requires i + 4 <= |w|
  {
    Region(w[i], w[i + 1], w[i + 2], w[i + 3])
  }

  function Decode(b: seq<Byte>): (d: Description)
    requires |b| == DESCRIPTION_SIZE
    ensures Shaped(d)
  {
    var h := Parse(b[..88]);
    var t := Parse(b[120..]);
    Description(h[0], h[1], h[2],
                [RegionAt(h, 3), RegionAt(h, 7), RegionAt(h, 11), RegionAt(h, 15)],
                h[19], h[20], h[21], b[88..120], t[0], t[1], t[2], t[3])
  }

  lemma {:induction false} DescriptionRoundTrip(d: Description)
    requires Shaped(d)
    ensures Decode(Encode(d)) == d
  {
    var b := Encode(d);
    assert b[..88] == Serialize(HeadWords(d));
    assert b[88..120] == d.filename;
    assert b[120..] == Serialize(TailWords(d));
    SerializeRoundTrip(HeadWords(d));
    SerializeRoundTrip(TailWords(d));
    assert Decode(b).regions == d.regions;
  }

  /** The description as it is summed: no checksum, and nothing in the regions not in use. */
  function Blanked(d: Description): (r: Description)
    requires Shaped(d)
    ensures Shaped(r)
  {
    d.(attributes := 1, footerChecksum := 0,
       regions := seq(REGION_MAX, i requires 0 <= i < REGION_MAX =>
                                    if i < d.regionCount then d.regions[i] else NO_REGION))
  }

  function FooterChecksum(d: Description): Word
    requires Shaped(d)
  {
    Checksum(Parse(Encode(Blanked(d))))
  }

  function WithFooterChecksum(d: Description): (r: Description)
    requires Shaped(d)
    ensures Shaped(r)
  {
    d.(attributes := 1, footerChecksum := FooterChecksum(d))
  }

  /** Summing twice changes nothing, and neither the old checksum nor the attributes nor what
      lies in unused regions has any influence. */
  lemma {:induction false} FooterChecksumIsStable(d: Description, e: Description)
    requires Shaped(d) && Shaped(e)
    requires e == d.(attributes := e.attributes, footerChecksum := e.footerChecksum, regions := e.regions)
    requires forall i :: 0 <= i < REGION_MAX && i < d.regionCount ==> e.regions[i] == d.regions[i]
    ensures FooterChecksum(e) == FooterChecksum(d)
    ensures WithFooterChecksum(WithFooterChecksum(d)) == WithFooterChecksum(d)
  {
    assert Blanked(e) == Blanked(d) by {
      assert Blanked(e).regions == Blanked(d).regions;
    }
    assert Blanked(WithFooterChecksum(d)) == Blanked(d) by {
      assert Blanked(WithFooterChecksum(d)).regions == Blanked(d).regions;
    }
  }

  /** The marks every description must carry. */
  predicate HasMarks(d: Description) {
    && d.signature1 == SIGNATURE_1 && d.signature2 == SIGNATURE_2
    && (if d.version == VERSION_1 then d.offset == OFFSET_1 else d.version == VERSION_2 && d.offset == OFFSET_2)
  }

  /** A mismatch of the checksum is reported but does not make an image invalid. */
  predicate IsImageValid(d: Description, lba: nat) {
    HasMarks(d) && d.blockEnd == lba && d.blockStart <= d.blockEnd
  }

  lemma {:induction false} ZerosAreNoImage(lba: nat)
    ensures !IsImageValid(Decode(Zeros(DESCRIPTION_SIZE)), lba)
  {
    var b := Zeros(DESCRIPTION_SIZE);
    assert b[120..][4..][4..][..4] == [0, 0, 0, 0];
    var t := Parse(b[120..]);
    assert t[2] == Parse(b[120..][4..])[1] == Parse(b[120..][4..][4..])[0] == BytesWord([0, 0, 0, 0]);
  }

  // ---------- names ----------

  predicate IsName(name: seq<Byte>) {
    |name| < MAX_NAME_LENGTH && 0 !in name
  }

  /** The string in a buffer: everything before the first zero byte. */
  function StringIn(buffer: seq<Byte>): seq<Byte> {
    if buffer == [] || buffer[0] == 0 then [] else [buffer[0]] + StringIn(buffer[1..])
  }

  /** Copying a string leaves what lies behind its terminator. */
  function StringCopy(buffer: seq<Byte>, name: seq<Byte>): (r: seq<Byte>)
    requires |buffer| == MAX_NAME_LENGTH && |name| < MAX_NAME_LENGTH
    ensures |r| == MAX_NAME_LENGTH
  {
    name + [0] + buffer[|name| + 1..]
  }

  lemma {:induction false} StringCopied(name: seq<Byte>, rest: seq<Byte>)
    requires 0 !in name
    ensures StringIn(name + [0] + rest) == name
  {
    var buffer := name + [0] + rest;
    if name != [] {
      StringCopied(name[1..], rest);
      assert buffer[1..] == name[1..] + [0] + rest;
    }
  }

  // ---------- describing a file ----------

  /** The block offset of the last block of a file that holds some bytes of data. */
  function BlockSpan(dataSize: nat, blockSize: nat): nat
    requires blockSize > 0
  {
    BlocksOf(dataSize + DESCRIPTION_SIZE, blockSize)
  }

  /** The last block as the driver computes it, in 32 bits. */
  function LastBlockOf(start: Word, dataSize: Word, blockSize: nat): Word
    requires blockSize > 0
  {
    Low32(start + BlocksOf(Low32(dataSize + DESCRIPTION_SIZE), blockSize))
  }

  function BlocksOf(size: nat, blockSize: nat): nat
    requires blockSize > 0
  {
    size / blockSize
  }

  lemma LastBlockIsExact(start: Word, dataSize: Word, blockSize: nat)
    requires blockSize > 0
    requires dataSize + DESCRIPTION_SIZE < 0x1_0000_0000
    requires start + BlockSpan(dataSize, blockSize) < 0x1_0000_0000
    ensures LastBlockOf(start, dataSize, blockSize) == start + BlockSpan(dataSize, blockSize)
  {
    assert Low32(dataSize + DESCRIPTION_SIZE) == dataSize + DESCRIPTION_SIZE;
  }

  /** The description a file gets when it is written with some name and size. */
  function Describe(previous: Description, name: seq<Byte>, dataSize: nat, fileStart: nat,
                    blockSize: nat): (d: Description)
    requires Shaped(previous) && IsName(name) && blockSize > 0
    ensures Shaped(d)
  {
    var start := Low32(BlocksOf(fileStart, blockSize));
    WithFooterChecksum(previous.(
      attributes := 1,
      blockStart := start,
      blockEnd := LastBlockOf(start, Low32(dataSize), blockSize),
      filename := StringCopy(previous.filename, name),
      offset := OFFSET_2, version := VERSION_2, signature1 := SIGNATURE_1, signature2 := SIGNATURE_2,
      regionCount := 1,
      regions := previous.regions[0 :=
        previous.regions[0].(checksum := 0, offset := Low32(start * blockSize), size := Low32(dataSize))]))
  }

  lemma DescribedPlace(previous: Description, name: seq<Byte>, dataSize: nat, fileStart: nat, blockSize: nat)
    requires Shaped(previous) && IsName(name) && blockSize > 0
    requires dataSize + DESCRIPTION_SIZE < 0x1_0000_0000
    requires BlocksOf(fileStart, blockSize) + BlockSpan(dataSize, blockSize) < 0x1_0000_0000
    ensures var d := Describe(previous, name, dataSize, fileStart, blockSize);
            && d.blockStart == BlocksOf(fileStart, blockSize)
            && d.blockEnd == BlocksOf(fileStart, blockSize) + BlockSpan(dataSize, blockSize)
            && d.regions[0].size == dataSize
  {
    hide FooterChecksum, StringCopy, LastBlockOf;
    LastBlockIsExact(BlocksOf(fileStart, blockSize), dataSize, blockSize);
  }

  /** Every description the driver writes is recognised at its own last block and nowhere
      else, carries the right name and a matching checksum, and survives the media. */
  lemma {:induction false} DescribeIsRecognised(previous: Description, name: seq<Byte>, dataSize: nat, fileStart: nat,
                                                blockSize: nat, lba: nat)
    requires Shaped(previous) && IsName(name) && blockSize > 0
    requires dataSize + DESCRIPTION_SIZE < 0x1_0000_0000
    requires BlocksOf(fileStart, blockSize) + BlockSpan(dataSize, blockSize) < 0x1_0000_0000
    ensures var d := Decode(Encode(Describe(previous, name, dataSize, fileStart, blockSize)));
            && d == Describe(previous, name, dataSize, fileStart, blockSize)
            && (IsImageValid(d, lba) <==> lba == d.blockEnd)
            && WithFooterChecksum(d) == d
            && StringIn(d.filename) == name
            && d.blockStart == BlocksOf(fileStart, blockSize)
            && d.blockEnd == BlocksOf(fileStart, blockSize) + BlockSpan(dataSize, blockSize)
            && d.regions[0].size == dataSize && d.regionCount == 1
  {
    var d := Describe(previous, name, dataSize, fileStart, blockSize);
    DescriptionRoundTrip(d);
    DescribedPlace(previous, name, dataSize, fileStart, blockSize);
    StringCopied(name, previous.filename[|name| + 1..]);
    FooterChecksumIsStable(d.(footerChecksum := 0), d);
  }
}
