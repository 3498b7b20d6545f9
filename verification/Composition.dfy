/** The launch protocol over the debug link: what the device operations promise is what the link delivers. */
module Composition {
  import opened Bits
  import opened Codes
  import opened CommArea
  import opened Device
  import opened DeviceMemory
  import opened GdbLink
  import opened Kernel
  import opened Launch
  import opened Objects
  import opened Program
  import opened Requests
  import opened Stub

  /** Every transfer stays in the range the link can address. */
  predicate Addressable(ops: seq<Op>) {
    forall i :: 0 <= i < |ops| ==> InRange(ops[i])
  }

  /** Whatever the fault-free calls of `d` have been since its last successful reset, sending the same
      operations over the link to a stub in the same initial state ends in the same device state, and the link
      hands back what those reads returned. */
  method Replay(d: Device, link: Link, openocd: bool) returns (answers: seq<seq<byte>>)
    requires d.Valid() && !d.faulted && Addressable(d.trace)
    requires WorldOk(link.world) && link.Ready() && link.world.kernels == d.env.kernels && link.stub.dev == d.origin
    requires openocd || forall n :: link.world.console(n) == []
    modifies link
    ensures link.stub.dev == d.dev
    ensures answers == Answers(d.env.kernels, d.origin, d.trace)
    ensures if d.dev.running then link.Started() else link.Ready()
  {
    hide WorldOk, Paired, After, Answers;
    LegalTrace(d.trace);
    answers := link.Session(d.trace, openocd);
  }

  lemma LegalTrace(ops: seq<Op>)
    requires Paired(ops) && Addressable(ops)
    ensures Legal(ops)
  {
    hide Paired;
  }

  /** Chunks inside the 64-bit address space and an area below 2^56 are enough for every operation of a launch. */
  lemma LaunchAddressable(chunks: seq<Chunk>, comm: Comm, trace: seq<Op>)
    requires Reachable(chunks, comm) && Grown(Opening(chunks), trace, comm.addr, Span(comm))
    ensures Addressable(trace)
  {
    hide AllComplete, Traffic;
    var n := |Opening(chunks)|;
    forall i | 0 <= i < |trace|
      ensures InRange(trace[i])
    {
      if 0 < i < n {
        TrafficInRange(chunks, |chunks|);
        assert trace[i] == Traffic(chunks, |chunks|)[i - 1];
      } else if n <= i && trace[i].ReadMem? {
        BelowComplete(trace[i].addr, trace[i].len);
      }
    }
  }

  ghost predicate Reachable(chunks: seq<Chunk>, comm: Comm) {
    && (forall i :: 0 <= i < |chunks| ==> chunks[i].paddr + |chunks[i].bytes| <= TWO64)
    && comm.addr + Span(comm) <= 0x100_0000_0000_0000
  }

  lemma {:induction false} TrafficInRange(chunks: seq<Chunk>, n: nat)
    requires n <= |chunks| && forall i :: 0 <= i < |chunks| ==> chunks[i].paddr + |chunks[i].bytes| <= TWO64
    ensures forall j :: 0 <= j < |Traffic(chunks, n)| ==> InRange(Traffic(chunks, n)[j])
  {
    if n > 0 {
      TrafficInRange(chunks, n - 1);
    }
  }

  /** A launch and its replay over the link. A launch that succeeds leaves the stub's device halted and the queue
      empty; what came over the link is what the reads of the launch returned, and each writable host buffer holds
      what the stub's memory holds in the buffer's last slot. */
  method LaunchOverLink(d: Device, kernel: Kernel, prg: Program, link: Link, openocd: bool)
    returns (r: int, answers: seq<seq<byte>>, ghost args: seq<KernArg>, ghost es: seq<Entry>)
    requires Ready(kernel) && d !in Owned(kernel) && prg.chunks !in Owned(kernel) && link !in Owned(kernel)
    requires forall i :: 0 <= i < |AllArgs(kernel)| ==> NoWrap(prg.comm, |EntryOrBlank(AllArgs(kernel)[i]).data|)
    requires prg.Valid() && Reachable(prg.chunks[..], prg.comm)
    requires WorldOk(link.world) && link.Ready() && link.world.kernels == d.env.kernels && link.stub.dev == d.dev
    requires openocd || forall n :: link.world.console(n) == []
    modifies d, prg.chunks, Mems(AllArgs(kernel))`data, link
    ensures args == old(AllArgs(kernel)) && |es| == |args|
    ensures forall i :: 0 <= i < |es| ==> es[i] == old(EntryOrBlank(args[i]))
    ensures r == CL_SUCCESS ==>
      && link.Ready() && link.stub.dev == d.dev && !d.dev.running
      && answers == Answers(d.env.kernels, old(d.dev), d.trace)
      && MagicOk(link.stub.dev.mem, prg.comm) && Done(link.stub.dev.mem, prg.comm)
      && forall m :: m in Mems(args) ==>
           m.data == Final(link.stub.dev.mem, prg.comm, Sizes(es), args, |args|, m, m.flags & 3 != 0, old(m.data))
  {
    hide WorldOk, Paired, After, Answers, Final, MagicOk, Done, Addressable, NoWrap;
    hide Given, Loaded, HeldApart, Cached, AllLoaded, AllSendable, Refused, Undone;
    hide StrLen, Shown, Contents, Grown, Opening, Reachable, Anchored, RanSince;
    ghost var st;
    ghost var chunks := prg.chunks[..];
    answers := [];
    r, args, es, st := EnqueueNDRangeKernel(d, kernel, prg);
    if r == CL_SUCCESS {
      LaunchAddressable(chunks, prg.comm, d.trace);
      answers := Replay(d, link, openocd);
    }
  }
}
