/** The argument vector of a kernel (drivers/kernel.c, src/cl_kernel.c). */
module Kernel {
  import opened Bits
  import opened Codes
  import opened Objects

  const TWO32: nat := 0x1_0000_0000

  /** What `calloc` leaves in a slot. */
  const BLANK: KernArg := NotUsed(0)

  function Blanks(n: nat): (b: seq<KernArg>)
    ensures |b| == n && forall i :: 0 <= i < n ==> b[i] == BLANK
  {
    seq(n, i requires 0 <= i => BLANK)
  }

  /** The vector cut or extended to `n` slots. */
  function Resized(args: seq<KernArg>, n: nat): (r: seq<KernArg>)
    ensures |r| == n
  {
    if n <= |args| then args[..n] else args + Blanks(n - |args|)
  }

  /** The vector after argument `i` was set to `arg`. */
  function Placed(args: seq<KernArg>, i: nat, arg: KernArg): seq<KernArg> {
    Resized(args, if i < |args| then |args| else i + 1)[i := arg.(index := i)]
  }

  /** A slot that was ever set carries its own index. */
  ghost predicate Indexed(args: seq<KernArg>) {
    forall i :: 0 <= i < |args| ==> args[i] == BLANK || args[i].index == i
  }

  class Kernel {
    /** The zero-terminated name. */
    var name: HostCell
    var args: array?<KernArg>
    var numArgs: nat

    ghost predicate Valid()
      reads this, args
    {
      && numArgs < TWO32
      && (numArgs == 0 <==> args == null)
      && (args != null ==> args.Length == numArgs)
      && Indexed(Args())
    }

    function Args(): seq<KernArg>
      reads this, args
    {
      if args == null then [] else args[..]
    }

    constructor (name: HostCell)
      ensures Valid() && Args() == [] && this.name == name
    {
      this.name := name;
      args := null;
      numArgs := 0;
    }

    /** `kern_set_num_args`; `memory` says whether calloc succeeded. */
    method SetNumArgs(num: nat, memory: bool) returns (r: int)
      requires Valid() && num < TWO32
      modifies this`args, this`numArgs
      ensures Valid() && (args == null || args == old(args) || fresh(args))
      ensures num == 0 || memory ==> r == CL_SUCCESS && Args() == Resized(old(Args()), num)
      ensures num != 0 && !memory ==> r == CL_OUT_OF_HOST_MEMORY && Args() == old(Args())
    {
      if num == 0 {
        args := null;
        numArgs := 0;
        return CL_SUCCESS;
      }
      if !memory {
        return CL_OUT_OF_HOST_MEMORY;
      }
      var a := new KernArg[num](_ => BLANK);
      if args != null {
        var n := if numArgs < num then numArgs else num;
        for i := 0 to n
          invariant args != null && n <= args.Length == numArgs
          invariant forall j :: 0 <= j < i ==> a[j] == args[j]
          invariant forall j :: i <= j < num ==> a[j] == BLANK
          invariant unchanged(this) && args == old(args) && args[..] == old(Args())
        {
          a[i] := args[i];
        }
      }
      args := a;
      numArgs := num;
      return CL_SUCCESS;
    }

    /** `kern_get_arg` */
    method GetArg(i: nat) returns (r: int, arg: KernArg)
      requires Valid()
      ensures i < |Args()| ==> r == CL_SUCCESS && arg == Args()[i]
      ensures i >= |Args()| ==> r == CL_INVALID_VALUE
    {
      arg := BLANK;
      if numArgs <= i {
        return CL_INVALID_VALUE, arg;
      }
      if args == null {
        return CL_INVALID_KERNEL, arg;
      }
      return CL_SUCCESS, args[i];
    }

    /** `kern_set_arg` */
    method SetArg(i: nat, arg: KernArg) returns (r: int)
      requires Valid()
      modifies args
      ensures Valid()
      ensures i < |old(Args())| ==> r == CL_SUCCESS && Args() == old(Args())[i := arg.(index := i)]
      ensures i >= |old(Args())| ==> r == CL_INVALID_VALUE && Args() == old(Args())
    {
      if numArgs <= i {
        return CL_INVALID_VALUE;
      }
      args[i] := arg;
      args[i] := args[i].(index := i);
      return CL_SUCCESS;
    }

    /** `in_clSetKernelArg`. The index after the largest 32-bit one wraps to zero: for that single index the
        call fails and the whole vector is lost; for every other one it does what it promises. */
    method SetKernelArg(argIndex: nat, argSize: nat, argValue: HostCell?, memory: bool) returns (r: int)
      requires Valid() && argIndex < TWO32
      modifies this`args, this`numArgs, args
      ensures Valid() && (args == null || args == old(args) || fresh(args))
      ensures argValue == null ==> r == CL_INVALID_ARG_VALUE && Args() == old(Args())
      ensures argValue != null && argIndex != TWO32 - 1 && (memory || argIndex < |old(Args())|) ==>
        && r == CL_SUCCESS
        && Args() == Placed(old(Args()), argIndex,
                            if argSize == 8 then Mem(argIndex, 8, argValue.handle) else Val(argIndex, argSize, argValue))
        && argIndex < |Args()|
        && Args()[argIndex] == if argSize == 8 then Mem(argIndex, 8, argValue.handle) else Val(argIndex, argSize, argValue)
      ensures argValue != null && argIndex != TWO32 - 1 && !memory && argIndex >= |old(Args())| ==>
        r == CL_OUT_OF_HOST_MEMORY && Args() == old(Args())
      ensures argValue != null && argIndex == TWO32 - 1 ==> r == CL_INVALID_VALUE && Args() == []
    {
      if argValue == null {
        return CL_INVALID_ARG_VALUE;
      }
      var arg;
      if argSize == 8 {
        arg := Mem(0, argSize, argValue.handle);
      } else {
        arg := Val(0, argSize, argValue);
      }
      var num := numArgs;
      if num <= argIndex {
        r := SetNumArgs((argIndex + 1) % TWO32, memory);
        if r != CL_SUCCESS {
          return;
        }
      }
      r := SetArg(argIndex, arg);
    }
  }

  /** A sequence of calls on one object is what the calls say: the last call for an index decides its slot, a buffer if it
      gave eight bytes and a direct value of the caller's size at the caller's address otherwise; the other slots are
      unused, and there are none behind the largest index. */
  method SetKernelArgs(k: Kernel, calls: seq<Setting>)
    requires k.Valid() && k.Args() == []
    requires forall c :: c in calls ==> c.index < TWO32 - 1
    modifies k`args, k`numArgs, k.args
    ensures k.Valid()
    ensures k.Args() == ArgsAfter(Values(calls)) && |k.Args()| == Needed(Values(calls))
    ensures forall j :: 0 <= j < |calls| && IsLast(calls, j) ==>
      var c := calls[j];
      && c.index < |k.Args()|
      && k.Args()[c.index] == if c.size == 8 then Mem(c.index, 8, c.value.handle) else Val(c.index, c.size, c.value)
    ensures forall i :: 0 <= i < |k.Args()| && (forall j :: 0 <= j < |calls| ==> calls[j].index != i) ==>
      k.Args()[i] == NotUsed(0)
  {
    hide ArgsAfter, Placed, Indexed, Needed, IsLast, Resized;
    ghost var all := Values(calls);
    EmptyCalls(all);
    for i := 0 to |calls|
      invariant k.Valid() && (k.args == null || k.args == old(k.args) || fresh(k.args))
      invariant k.Args() == ArgsAfter(all[..i])
      invariant Values(calls) == all
    {
      assert calls[i] in calls;
      CallsNext(all, i);
      var r := k.SetKernelArg(calls[i].index, calls[i].size, calls[i].value, true);
    }
    assert all[..|calls|] == all;
    LastCalls(calls);
  }

  /** No later call is for the index of call `j`. */
  ghost predicate IsLast(calls: seq<Setting>, j: nat)
    requires j < |calls|
  {
    forall l :: j < l < |calls| ==> calls[l].index != calls[j].index
  }

  lemma LastCalls(calls: seq<Setting>)
    ensures var args := ArgsAfter(Values(calls));
            && |args| == Needed(Values(calls))
            && (forall j :: 0 <= j < |calls| && IsLast(calls, j) ==>
                  var c := calls[j];
                  && c.index < |args|
                  && args[c.index] == if c.size == 8 then Mem(c.index, 8, c.value.handle) else Val(c.index, c.size, c.value))
            && (forall i :: 0 <= i < |args| && (forall j :: 0 <= j < |calls| ==> calls[j].index != i) ==> args[i] == NotUsed(0))
  {
    hide ArgsAfter, LastValue, Needed;
    var all := Values(calls);
    LastWriterWins(all);
    forall j | 0 <= j < |calls| && IsLast(calls, j)
      ensures calls[j].index < Needed(all) && LastValue(all, calls[j].index) == all[j].arg.(index := calls[j].index)
    {
      LastValueAt(all, j);
    }
    forall i | 0 <= i < Needed(all) && forall j :: 0 <= j < |calls| ==> calls[j].index != i
      ensures LastValue(all, i) == BLANK
    {
      NeverCalled(all, i);
    }
  }

  lemma {:induction false} LastValueAt(calls: seq<Call>, j: nat)
    requires j < |calls| && forall l :: j < l < |calls| ==> calls[l].index != calls[j].index
    ensures calls[j].index < Needed(calls) && LastValue(calls, calls[j].index) == calls[j].arg.(index := calls[j].index)
  {
    if j < |calls| - 1 {
      LastValueAt(calls[..|calls| - 1], j);
    }
  }

  lemma {:induction false} NeverCalled(calls: seq<Call>, i: nat)
    requires forall j :: 0 <= j < |calls| ==> calls[j].index != i
    ensures LastValue(calls, i) == BLANK
  {
    if calls != [] {
      NeverCalled(calls[..|calls| - 1], i);
    }
  }

  /** One call of `in_clSetKernelArg`. */
  datatype Setting = Setting(index: nat, size: nat, value: HostCell)

  function Values(calls: seq<Setting>): (vs: seq<Call>)
    reads set c | c in calls :: c.value
    ensures |vs| == |calls|
    ensures forall i :: 0 <= i < |vs| ==>
      vs[i] == Call(calls[i].index, Classified(calls[i].index, calls[i].size, calls[i].value))
  {
    if calls == [] then []
    else
      var c := calls[|calls| - 1];
      Values(calls[..|calls| - 1]) + [Call(c.index, Classified(c.index, c.size, c.value))]
  }

  lemma EmptyCalls(calls: seq<Call>)
    ensures ArgsAfter(calls[..0]) == []
  {
  }

  lemma CallsNext(calls: seq<Call>, i: nat)
    requires i < |calls|
    ensures ArgsAfter(calls[..i + 1]) == Placed(ArgsAfter(calls[..i]), calls[i].index, calls[i].arg)
  {
    hide Placed;
    assert calls[..i + 1][..i] == calls[..i];
  }

  /** How the call classifies its value: by its size alone. */
  function Classified(index: nat, size: nat, value: HostCell): KernArg
    reads value
  {
    if size == 8 then Mem(index, size, value.handle) else Val(index, size, value)
  }

  // ------------------------------------------------------------------------------------------
  // Sequences of calls.

  datatype Call = Call(index: nat, arg: KernArg)

  function ArgsAfter(calls: seq<Call>): seq<KernArg> {
    if calls == [] then []
    else
      var last := calls[|calls| - 1];
      Placed(ArgsAfter(calls[..|calls| - 1]), last.index, last.arg)
  }

  /** The value of the last call for slot `i`, if there was any. */
  function LastValue(calls: seq<Call>, i: nat): KernArg {
    if calls == [] then BLANK
    else if calls[|calls| - 1].index == i then calls[|calls| - 1].arg.(index := i)
    else LastValue(calls[..|calls| - 1], i)
  }

  /** One more than the largest index set. */
  function Needed(calls: seq<Call>): nat {
    if calls == [] then 0
    else
      var n, i := Needed(calls[..|calls| - 1]), calls[|calls| - 1].index;
      if i < n then n else i + 1
  }

  /** After any calls the vector ends at the largest index set, every slot holds the value of the last call
      for it under its own index, and the slots never set are still unused. */
  lemma {:induction false} LastWriterWins(calls: seq<Call>)
    ensures |ArgsAfter(calls)| == Needed(calls)
    ensures forall i :: 0 <= i < Needed(calls) ==> ArgsAfter(calls)[i] == LastValue(calls, i)
  {
    if calls != [] {
      LastWriterWins(calls[..|calls| - 1]);
      NeverSet(calls[..|calls| - 1]);
    }
  }

  lemma {:induction false} NeverSet(calls: seq<Call>)
    ensures forall i: nat :: i >= Needed(calls) ==> LastValue(calls, i) == BLANK
  {
    if calls != [] {
      NeverSet(calls[..|calls| - 1]);
    }
  }
}
