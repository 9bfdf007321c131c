/** The BootOrder variable and the search for an index that is not in use. */
module BdsBootOrder {
  import opened Bytes
  import opened Options

  const INDEX_COUNT: nat := 0x1_0000

  /** The smallest index from some point on that is not listed; the count of indices if there is none. */
  function FirstUnused(order: seq<Half>, from: nat): (index: nat)
    requires from <= INDEX_COUNT
    ensures from <= index <= INDEX_COUNT
    decreases INDEX_COUNT - from
  {
    if from == INDEX_COUNT || from !in order then from else FirstUnused(order, from + 1)
  }

  /** Without a BootOrder variable, and when every index is listed, the answer is zero. */
  function AllocatedIndex(order: Option<seq<Half>>): Half {
    match order
    case None => 0
    case Some(listed) => if FirstUnused(listed, 0) == INDEX_COUNT then 0 else FirstUnused(listed, 0)
  }

  method BootOptionAllocateBootIndex(order: Option<seq<Half>>) returns (index: Half)
    ensures index == AllocatedIndex(order)
  {
    if order.None? {
      return 0;
    }
    var listed, bootIndex := order.value, 0;
    while bootIndex <= 0xFFFF
      invariant 0 <= bootIndex <= INDEX_COUNT
      invariant FirstUnused(listed, 0) == FirstUnused(listed, bootIndex)
    {
      var found, i := false, 0;
      while i < |listed|
        invariant 0 <= i <= |listed| && !found && bootIndex !in listed[..i]
      {
        if listed[i] == bootIndex {
          found := true;
          break;
        }
        i := i + 1;
      }
      if !found {
        assert listed[..i] == listed;
        return bootIndex;
      }
      bootIndex := bootIndex + 1;
    }
    index := 0;
  }

  ghost predicate NoDuplicates(order: seq<Half>) {
    forall i, j :: 0 <= i < j < |order| ==> order[i] != order[j]
  }

  lemma {:induction false} UnusedIsSmallest(order: seq<Half>, from: nat)
    requires from <= INDEX_COUNT
    ensures var index := FirstUnused(order, from);
            (index < INDEX_COUNT ==> index !in order) && (forall k :: from <= k < index ==> k in order)
    decreases INDEX_COUNT - from
  {
    if from < INDEX_COUNT && from in order {
      UnusedIsSmallest(order, from + 1);
    }
  }

  function Elements(order: seq<Half>): set<int> {
    set i | 0 <= i < |order| :: order[i] as int
  }

  lemma {:induction false} ElementsCount(order: seq<Half>)
    ensures |Elements(order)| <= |order|
    ensures NoDuplicates(order) ==> |Elements(order)| == |order|
  {
    if order != [] {
      var n := |order| - 1;
      ElementsCount(order[..n]);
      assert Elements(order) == Elements(order[..n]) + {order[n] as int} by {
        forall x | x in Elements(order)
          ensures x in Elements(order[..n]) + {order[n] as int}
        {
          var i :| 0 <= i < |order| && order[i] == x;
          if i < n {
            assert order[..n][i] == x;
          }
        }
        assert forall i :: 0 <= i < n ==> order[..n][i] == order[i];
      }
      if NoDuplicates(order) {
        assert forall i :: 0 <= i < n ==> order[..n][i] == order[i] != order[n];
      }
    }
  }

  lemma {:induction false} CountBelow(numbers: set<int>, n: nat)
    ensures (forall x :: x in numbers ==> 0 <= x < n) ==> |numbers| <= n
    ensures (forall x :: 0 <= x < n ==> x in numbers) ==> n <= |numbers|
  {
    if n > 0 {
      CountBelow(numbers - {n - 1}, n - 1);
    } else if forall x :: x in numbers ==> 0 <= x < n {
      assert numbers == {};
    }
  }

  /** Pigeonhole: on a list without duplicates some index is unused exactly if the list is
      shorter than the count of indices. */
  lemma {:induction false} UnusedExists(order: seq<Half>)
    requires NoDuplicates(order)
    ensures FirstUnused(order, 0) < INDEX_COUNT <==> |order| < INDEX_COUNT
  {
    var index := FirstUnused(order, 0);
    UnusedIsSmallest(order, 0);
    ElementsCount(order);
    if index == INDEX_COUNT {
      forall x: int | 0 <= x < INDEX_COUNT
        ensures x in Elements(order)
      {
        assert x in order;
        var i :| 0 <= i < |order| && order[i] == x;
        assert order[i] as int in Elements(order);
      }
      CountBelow(Elements(order), INDEX_COUNT);
    } else {
      assert index !in Elements(order);
      CountBelow(Elements(order) + {index}, INDEX_COUNT);
    }
  }

  // ---------- runs of writes ----------

  // What an option remembers between writes: nothing yet, or an index, which a refused allocation
  // leaves behind without the packed option, or an index with the packed option.
  datatype OptionState = New | Refused(index: Half) | Stored(index: Half)

  // The boot order, and the options in memory.
  datatype BootState = BootState(order: Option<seq<Half>>, options: seq<OptionState>) {
    function Listed(): seq<Half> {
      if order.None? then [] else order.value
    }
  }

  // An option is written, and memory is granted for it or not.
  datatype Write = Write(option: nat, granted: bool)

  function IndexFor(order: Option<seq<Half>>, option: OptionState): Half {
    if option.New? then AllocatedIndex(order) else option.index
  }

  /** The option after a write. */
  function OptionAfter(order: Option<seq<Half>>, option: OptionState, granted: bool): OptionState {
    if granted then Stored(IndexFor(order, option)) else Refused(IndexFor(order, option))
  }

  /** The boot order after a write: anything that has no packed option counts as new. */
  function OrderAfter(order: Option<seq<Half>>, option: OptionState, granted: bool): Option<seq<Half>> {
    if !granted || option.Stored? then order
    else Some((if order.None? then [] else order.value) + [IndexFor(order, option)])
  }

  function Next(s: BootState, write: Write): BootState
    requires write.option < |s.options|
  {
    var option := s.options[write.option];
    BootState(OrderAfter(s.order, option, write.granted),
              s.options[write.option := OptionAfter(s.order, option, write.granted)])
  }

  /** A write that leaves the order as it is, or lists an index that it does not hold: a new option as
      long as there is an index left, an option that kept an index through a refused allocation only
      while nobody else has been given that index. */
  predicate Harmless(s: BootState, write: Write)
    requires write.option < |s.options|
  {
    write.granted ==>
      match s.options[write.option]
      case Stored(_) => true
      case New => |s.Listed()| < INDEX_COUNT
      case Refused(index) => index !in s.Listed()
  }

  lemma {:induction false} WriteKeepsNoDuplicates(s: BootState, write: Write)
    requires write.option < |s.options| && NoDuplicates(s.Listed())
    ensures s.Listed() <= Next(s, write).Listed()
    ensures NoDuplicates(Next(s, write).Listed()) <==> Harmless(s, write)
  {
    var order, option := s.Listed(), s.options[write.option];
    if write.granted && !option.Stored? {
      NewIndexIsUnused(s.order);
      AppendKeepsNoDuplicates(order, IndexFor(s.order, option));
    }
  }

  lemma AppendKeepsNoDuplicates(order: seq<Half>, index: Half)
    requires NoDuplicates(order)
    ensures NoDuplicates(order + [index]) <==> index !in order
  {
    var after := order + [index];
    assert after[|order|] == index && forall i :: 0 <= i < |order| ==> after[i] == order[i];
  }

  lemma {:induction false} NewIndexIsUnused(order: Option<seq<Half>>)
    requires order.Some? ==> NoDuplicates(order.value)
    ensures order.Some? ==> (AllocatedIndex(order) !in order.value <==> |order.value| < INDEX_COUNT)
  {
    if order.Some? {
      UnusedExists(order.value);
      UnusedIsSmallest(order.value, 0);
    }
  }

  ghost predicate IsRun(s: BootState, run: seq<Write>)
    decreases |run|
  {
    run != [] ==> run[0].option < |s.options| && IsRun(Next(s, run[0]), run[1..])
  }

  ghost predicate NoDuplicatesThroughout(s: BootState, run: seq<Write>)
    requires IsRun(s, run)
    decreases |run|
  {
    NoDuplicates(s.Listed()) && (run != [] ==> NoDuplicatesThroughout(Next(s, run[0]), run[1..]))
  }

  ghost predicate HarmlessThroughout(s: BootState, run: seq<Write>)
    requires IsRun(s, run)
    decreases |run|
  {
    run != [] ==> Harmless(s, run[0]) && HarmlessThroughout(Next(s, run[0]), run[1..])
  }

  /** Options are written in any order, with and without memory: the boot order stays free of duplicates
      exactly if every write is harmless. */
  lemma {:induction false} RunKeepsNoDuplicates(s: BootState, run: seq<Write>)
    requires IsRun(s, run) && NoDuplicates(s.Listed())
    ensures NoDuplicatesThroughout(s, run) <==> HarmlessThroughout(s, run)
    decreases |run|
  {
    if run != [] {
      hide NoDuplicates, Harmless;
      WriteKeepsNoDuplicates(s, run[0]);
      if Harmless(s, run[0]) {
        RunKeepsNoDuplicates(Next(s, run[0]), run[1..]);
      }
    }
  }

  /** An index that a refused allocation left with its option is given to the next new option as well.
      Writing the first one again lists it twice. */
  lemma {:induction false} KeptIndexIsTaken(s: BootState, a: nat, b: nat)
    requires a < |s.options| && b < |s.options| && a != b
    requires s.options[a] == New && s.options[b] == New
    ensures IsRun(s, [Write(a, false), Write(b, true), Write(a, true)])
    ensures var after := Next(Next(Next(s, Write(a, false)), Write(b, true)), Write(a, true));
            after.Listed() == s.Listed() + [AllocatedIndex(s.order), AllocatedIndex(s.order)]
  {
    var refused := Next(s, Write(a, false));
    var created := Next(refused, Write(b, true));
    var retried := Next(created, Write(a, true));
    var run := [Write(a, false), Write(b, true), Write(a, true)];
    assert run[1..][1..] == [Write(a, true)] && run[1..][1..][1..] == [];
    assert IsRun(retried, []);
    assert IsRun(created, run[1..][1..]);
    assert IsRun(refused, run[1..]);
  }

  /** An update that was refused is taken for a new option when it is written again: its index, listed
      already, is listed once more. */
  lemma {:induction false} RefusedUpdateIsListedTwice(s: BootState, a: nat)
    requires a < |s.options| && s.options[a].Stored? && s.options[a].index in s.Listed()
    ensures var after := Next(Next(s, Write(a, false)), Write(a, true));
            after.Listed() == s.Listed() + [s.options[a].index] && !NoDuplicates(after.Listed())
  {
    var index := s.options[a].index;
    var after := Next(Next(s, Write(a, false)), Write(a, true));
    var i :| 0 <= i < |s.Listed()| && s.Listed()[i] == index;
    assert after.Listed()[i] == after.Listed()[|s.Listed()|];
  }
}
