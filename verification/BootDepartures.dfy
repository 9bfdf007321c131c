/** Inputs at which the boot options and the ELF loader do not do what they should. */
module BootDepartures {
  import opened Bytes
  import opened Options
  import opened BdsBootOrder
  import opened BdsLoadOption
  import ElfLoading

  // A path of two instances, each of them empty.
  const TWO_INSTANCES: seq<Byte> := [0x7F, 0x01, 4, 0, 0x7F, 0xFF, 4, 0]

  /** Packing an option with two instances loses the second one, and what is read back does not end
      where it should. */
  lemma {:induction false} SecondInstanceIsLost()
    ensures var f := Fields(1, 8, [], TWO_INSTANCES, []);
            && Packable(f) && PackedSize(f) == 16
            && Reread(f).path == [0x7F, 0xFF, 4, 0, 0, 0, 0, 0] && !Packable(Reread(f))
  {
    hide IsPath, PathSize, FirstEnd, Parse, Packed, Reread, TextBytes;
    var f := Fields(1, 8, [], TWO_INSTANCES, []);
    TwoInstances();
    RereadFields(f);
    RereadIsPackable(f);
    assert TWO_INSTANCES[..0] + END_NODE + [] + Zeros(4) == [0x7F, 0xFF, 4, 0, 0, 0, 0, 0];
  }

  lemma TwoInstances()
    ensures IsPath(TWO_INSTANCES) && PathSize(TWO_INSTANCES) == 8 && FirstEnd(TWO_INSTANCES) == 0
  {
    assert TWO_INSTANCES[4..] == END_NODE && TWO_INSTANCES[2..4] == [4, 0] && END_NODE[2..4] == [4, 0];
    assert IsPath(END_NODE) && PathSize(END_NODE) == 4;
  }

  /** Twelve bytes that claim a path of 65535. */
  const LONG_PATH: seq<Byte> := [0, 0, 0, 0, 0xFF, 0xFF, 0, 0, 0x7F, 0xFF, 4, 0]

  lemma {:induction false} LongPathIsAccepted()
    ensures Parse(LONG_PATH).Ok?
    ensures var v := Parse(LONG_PATH).view; v.pathLength == 65535 && v.optionalAt + v.optionalSize > |LONG_PATH|
  {
    assert LONG_PATH[6..][..2] == [0, 0] && LONG_PATH[4..6] == [0xFF, 0xFF];
    assert TextIn(LONG_PATH[6..]) == Some([]);
    OptionalDataIsInside(LONG_PATH);
  }

  /** Two new options, no boot order yet. The first is refused memory, the second created, the first
      tried again: index zero is listed twice. */
  lemma {:induction false} IndexIsListedTwice()
    ensures var s := BootState(None, [New, New]);
            var run := [Write(0, false), Write(1, true), Write(0, true)];
            IsRun(s, run) && !NoDuplicatesThroughout(s, run) && !HarmlessThroughout(s, run)
  {
    var s := BootState(None, [New, New]);
    var run := [Write(0, false), Write(1, true), Write(0, true)];
    KeptIndexIsTaken(s, 0, 1);
    var refused := Next(s, run[0]);
    var created := Next(refused, run[1]);
    assert run[1..][0] == Write(1, true) && run[1..][1..][0] == Write(0, true) && run[1..][1..][1..] == [];
    assert IsRun(refused, run[1..]) && IsRun(created, run[1..][1..]);
    assert refused.order == None && IndexFor(None, New) == 0 && [] + [0] == [0];
    assert created.order == Some([0]) && created.options[0] == Refused(0);
    assert !Harmless(created, Write(0, true));
    assert !HarmlessThroughout(created, run[1..][1..]);
    assert !HarmlessThroughout(refused, run[1..]);
    RunKeepsNoDuplicates(s, run);
  }

  /** The first segment is loaded on top of the file bytes of the second one, which is copied later. */
  lemma {:induction false} FileIsOverwritten()
    ensures var first, second := ElfLoading.Segment(true, 0, 4, 2, 2), ElfLoading.Segment(true, 4, 8, 2, 2);
            ElfLoading.AllFit(0, [first, second], 16) && !ElfLoading.MeansHeaders(0, [first, second], 16)
  {
    var first, second := ElfLoading.Segment(true, 0, 4, 2, 2), ElfLoading.Segment(true, 4, 8, 2, 2);
    var segments := [first, second];
    assert segments[..1] == [first] && [first][..0] == [];
    assert ElfLoading.IsVisible(segments, 1, 8);
    assert ElfLoading.Taken(0, [], 0) == ElfLoading.At(0);
    assert ElfLoading.Taken(0, segments[..1], 4) == ElfLoading.At(0);
    assert !ElfLoading.FileSurvives(0, segments, 16);
    ElfLoading.MeansHeadersIffFileSurvives(0, segments, 16);
  }
}
