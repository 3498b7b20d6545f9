/** A kernel launch (src/cl_enqueue.c: enqueue_arg, dequeue_arg and in_clEnqueueNDRangeKernel). */
module Launch {
  import opened Bits
  import opened Codes
  import opened CommArea
  import opened Device
  import opened DeviceMemory
  import opened Kernel
  import opened Objects
  import opened Program

  const ARG_HEADER: nat := 16
  const POLLS: nat := 10000

  // ------------------------------------------------------------------------------------------
  // Arguments as values.

  function Refs(arg: KernArg): set<object> {
    match arg
    case NotUsed(_) => {}
    case Val(_, _, p) => {p}
    case Mem(_, _, m) => if m == null then {} else {m}
  }

  /** Where a direct value is read from. */
  function Source(arg: KernArg): (s: set<HostCell>)
    ensures forall p :: p in s ==> p in Refs(arg)
  {
    if arg.Val? then {arg.ptr} else {}
  }

  /** What the caller owes: a direct value points to at least `size` bytes. */
  predicate Usable(arg: KernArg)
    reads Source(arg)
  {
    arg.Val? ==> arg.size <= |arg.ptr.data|
  }

  predicate Sendable(arg: KernArg) {
    arg.Val? || (arg.Mem? && arg.mem != null)
  }

  function EntryOf(arg: KernArg): Entry
    requires Sendable(arg) && Usable(arg)
    reads Refs(arg)
  {
    if arg.Val? then Entry(ARG_VAL, arg.index, arg.ptr.data[..arg.size], true)
    else Entry(ARG_MEM, arg.index, arg.mem.data, arg.mem.CanRead())
  }

  /** The argument as the kernel is to see it; an argument that cannot be sent counts as empty. */
  function EntryOrBlank(arg: KernArg): Entry
    reads Refs(arg)
  {
    if Sendable(arg) && Usable(arg) then EntryOf(arg) else Entry(0, 0, [], false)
  }

  /** What an argument holds when the launch is called. */
  datatype Content = Nothing | Value(bytes: seq<byte>) | Buffer(flags: bv32, bytes: seq<byte>)

  function ContentOf(arg: KernArg): Content
    reads Refs(arg)
  {
    match arg
    case NotUsed(_) => Nothing
    case Val(_, size, p) => if size <= |p.data| then Value(p.data[..size]) else Nothing
    case Mem(_, _, m) => if m == null then Nothing else Buffer(m.flags, m.data)
  }

  ghost function Contents(args: seq<KernArg>): (cs: seq<Content>)
    reads set i, o | 0 <= i < |args| && o in Refs(args[i]) :: o
    ensures |cs| == |args| && forall i :: 0 <= i < |cs| ==> cs[i] == ContentOf(args[i])
  {
    seq(|args|, i requires 0 <= i < |args| reads (if 0 <= i < |args| then Refs(args[i]) else {}) => ContentOf(args[i]))
  }

  /** The kernel reads from buffers with bit 0 (CL_MEM_READ_WRITE) or bit 2 (CL_MEM_READ_ONLY) set. */
  ghost predicate EntryHas(e: Entry, c: Content) {
    match c
    case Nothing => true
    case Value(bs) => e.argtype == 1 && e.data == bs && e.sent
    case Buffer(flags, bs) => e.argtype == 2 && e.data == bs && (e.sent <==> flags & 5 != 0)
  }

  /** Entries and contents are two accounts of the same arguments. */
  ghost predicate Holding(args: seq<KernArg>, es: seq<Entry>, cs: seq<Content>) {
    && |args| == |es| == |cs|
    && forall i :: 0 <= i < |es| ==> EntryHas(es[i], cs[i]) && (Sendable(args[i]) ==> cs[i] != Nothing)
  }

  lemma HoldingNow(k: Kernel, args: seq<KernArg>, es: seq<Entry>)
    requires Snapshot(k, args, es)
    ensures Holding(args, es, Contents(args))
  {
    hide EntryHas, StrLen, EntryOrBlank;
    forall i | 0 <= i < |es|
      ensures EntryHas(es[i], ContentOf(args[i])) && (Sendable(args[i]) ==> ContentOf(args[i]) != Nothing)
    {
      NthArg(k, args, es, i);
      EntryHasContent(args[i]);
    }
  }

  lemma EntryHasContent(arg: KernArg)
    requires Usable(arg)
    ensures EntryHas(EntryOrBlank(arg), ContentOf(arg))
    ensures Sendable(arg) ==> ContentOf(arg) != Nothing
  {
  }

  function StrLen(s: seq<byte>): (n: nat)
    ensures n <= |s| && 0 !in s[..n] && (0 in s ==> n < |s| && s[n] == 0)
  {
    if s == [] || s[0] == 0 then 0 else 1 + StrLen(s[1..])
  }

  /** argv[0], the kernel name with its final zero. */
  function NameArg(k: Kernel): KernArg
    reads k, k.name
  {
    Val(NAME_INDEX, StrLen(k.name.data) + 1, k.name)
  }

  function AllArgs(k: Kernel): (args: seq<KernArg>)
    reads k, k.name, k.args
    ensures |args| == |k.Args()| + 1
  {
    [NameArg(k)] + k.Args()
  }

  /** Everything a launch reads through the kernel object. */
  ghost function Owned(k: Kernel): set<object?>
    reads k, k.args
  {
    {k, k.name, k.args} + (set i, o | 0 <= i < |k.Args()| && o in Refs(k.Args()[i]) :: o)
  }

  ghost function Sources(args: seq<KernArg>): set<HostCell> {
    set i, p | 0 <= i < |args| && p in Source(args[i]) :: p
  }

  /** What the caller of a launch owes. */
  ghost predicate Ready(k: Kernel)
    reads k, k.args, k.name, Sources(k.Args())
  {
    && k.Valid() && k.numArgs < TWO32 - 1
    && 0 in k.name.data
    && forall i :: 0 <= i < |k.Args()| ==> Usable(k.Args()[i])
  }

  /** `args` are the arguments, name first, and `es` is what they are now. */
  ghost predicate Snapshot(k: Kernel, args: seq<KernArg>, es: seq<Entry>)
    reads k, k.args, Owned(k)
  {
    && Ready(k)
    && args == AllArgs(k)
    && |es| == |args|
    && forall i :: 0 <= i < |es| ==> es[i] == EntryOrBlank(args[i])
  }

  // ------------------------------------------------------------------------------------------

  /** One turn of the chunk loop. */
  method LoadChunk(d: Device, prg: Program, i: nat, ghost all: Memory) returns (r: int)
    requires d.Valid() && !d.faulted && !d.dev.running && prg.Valid() && i < prg.chunks.Length
    modifies d, prg.chunks
    ensures d.Valid() && !d.dev.running && d.dev.runs == old(d.dev.runs)
    ensures d.past == old(d.past) && d.stops == old(d.stops) && d.origin == old(d.origin)
    ensures prg.chunks[..] ==
      if r == CL_SUCCESS then old(prg.chunks[..])[i := Marked(old(prg.chunks[i]), i)] else old(prg.chunks[..])
    ensures r == CL_SUCCESS ==> !d.faulted && d.trace == old(d.trace) + TrafficOf(old(prg.chunks[i]))
    ensures r != CL_SUCCESS ==> d.Failed(r) && d.trace == old(d.trace) && TrafficOf(old(prg.chunks[i])) != []
    ensures Progress(old(d.dev.mem), old(prg.chunks[..]), i) ==>
      if r == CL_SUCCESS then Progress(d.dev.mem, prg.chunks[..], i + 1) else CacheOk(d.dev.mem, prg.chunks[..])
    ensures r == CL_SUCCESS && Progress(old(d.dev.mem), old(prg.chunks[..]), i) && SameBytes(old(d.dev.mem), all) ==>
      SameBytes(d.dev.mem, Write(all, old(prg.chunks[i].paddr), old(prg.chunks[i].bytes)))
  {
    hide SameOutside, Read, Write, After, Step, Progress, CacheOk, SameBytes;
    ghost var now, mem := prg.chunks[..], d.dev.mem;
    ghost var good := Progress(mem, now, i);
    var chunk;
    r, chunk := prg.GetChunk(i);
    if r != CL_SUCCESS {
      return;
    }
    if chunk.readonly && chunk.loaded {
      if good {
        ProgressSkip(mem, now, i);
        if SameBytes(mem, all) {
          SkippedAgrees(mem, all, chunk);
        }
      }
      return CL_SUCCESS;
    }
    r := d.WriteMem(chunk.paddr, chunk.bytes);
    if r != CL_SUCCESS {
      if good {
        ProgressFail(mem, d.dev.mem, now, i);
      }
      return;
    }
    if SameBytes(mem, all) {
      WrittenAgrees(mem, all, chunk);
    }
    chunk := chunk.(loaded := true);
    if good {
      ProgressWrite(mem, now, i, chunk.(index := i));
    }
    r := prg.SetChunk(i, chunk);
  }

  /** The chunk loop: read-only chunks that are already loaded are skipped, and still device memory is afterwards,
      byte for byte, what writing all chunks makes of it. */
  method LoadChunks(d: Device, prg: Program) returns (r: int, ghost n: nat)
    requires d.Valid() && !d.faulted && !d.dev.running && prg.Valid()
    modifies d, prg.chunks
    ensures d.Valid() && !d.dev.running && d.dev.runs == old(d.dev.runs)
    ensures d.past == old(d.past) && d.stops == old(d.stops) && d.origin == old(d.origin)
    ensures Passed(old(prg.chunks[..]), prg.chunks[..], n)
    ensures r == CL_SUCCESS ==>
      && n == prg.chunks.Length && !d.faulted
      && d.trace == old(d.trace) + Traffic(old(prg.chunks[..]), prg.chunks.Length)
    ensures r != CL_SUCCESS ==>
      && d.Failed(r) && n < prg.chunks.Length && TrafficOf(old(prg.chunks[..])[n]) != []
      && d.trace == old(d.trace) + Traffic(old(prg.chunks[..]), n)
    ensures Disjoint(old(prg.chunks[..])) && CacheOk(old(d.dev.mem), old(prg.chunks[..])) ==>
      && CacheOk(d.dev.mem, prg.chunks[..])
      && (r == CL_SUCCESS ==> Loaded(old(d.dev.mem), d.dev.mem, prg.chunks[..]))
  {
    hide SameBytes, Reloaded, Loaded, SameCode, Traffic, Paired;
    hide Holds, CacheOk, Disjoint, SameOutside, Read, Write, After, Step, Progress, TrafficOf, Passed, Marked;
    ghost var was := prg.chunks[..];
    ghost var good := Disjoint(was) && CacheOk(d.dev.mem, was);
    if good {
      ProgressStart(d.dev.mem, was);
    }
    PassedNone(was);
    TrafficNone(was);
    ghost var mem0 := d.dev.mem;
    ReloadedNone(mem0, was);
    var numChunks := prg.numChunks;
    n := 0;
    for i := 0 to numChunks
      invariant n == i && d.Valid() && !d.faulted && !d.dev.running && d.dev.runs == old(d.dev.runs)
      invariant d.past == old(d.past) && d.stops == old(d.stops) && d.origin == old(d.origin)
      invariant Passed(was, prg.chunks[..], i)
      invariant d.trace == old(d.trace) + Traffic(was, i)
      invariant good ==> Progress(d.dev.mem, prg.chunks[..], i) && SameBytes(d.dev.mem, Reloaded(mem0, was, i))
    {
      PassedNext(was, prg.chunks[..], i);
      TrafficNext(was, i);
      ReloadedNext(mem0, was, i);
      r := LoadChunk(d, prg, i, Reloaded(mem0, was, i));
      if r != CL_SUCCESS {
        return;
      }
      n := n + 1;
    }
    PassedCode(was, prg.chunks[..], n);
    if good {
      ProgressEnd(d.dev.mem, prg.chunks[..], numChunks);
      LoadedAll(mem0, d.dev.mem, was, prg.chunks[..]);
    }
    return CL_SUCCESS, n;
  }

  lemma TrafficNone(chunks: seq<Chunk>)
    ensures Traffic(chunks, 0) == []
  {
  }

  lemma TrafficNext(chunks: seq<Chunk>, i: nat)
    requires i < |chunks|
    ensures Traffic(chunks, i + 1) == Traffic(chunks, i) + TrafficOf(chunks[i])
  {
    hide TrafficOf;
  }

  /** From memory `mem0` the chunks were all loaded: each one is there, and every byte of memory is as if each one had
      been written. */
  ghost predicate Loaded(mem0: Memory, mem: Memory, chunks: seq<Chunk>) {
    && (forall i :: 0 <= i < |chunks| ==> Holds(mem, chunks[i]))
    && SameBytes(mem, Reloaded(mem0, chunks, |chunks|))
  }

  lemma LoadedAll(mem0: Memory, mem: Memory, was: seq<Chunk>, now: seq<Chunk>)
    requires SameCode(was, now) && SameBytes(mem, Reloaded(mem0, was, |was|))
    requires forall i :: 0 <= i < |now| ==> Holds(mem, now[i])
    ensures Loaded(mem0, mem, now)
  {
    hide SameBytes, Reloaded, Holds;
    ReloadedSame(mem0, was, now, |was|);
  }

  lemma LoadedSame(mem0: Memory, mem: Memory, was: seq<Chunk>, now: seq<Chunk>)
    requires SameCode(was, now) && Loaded(mem0, mem, was)
    ensures Loaded(mem0, mem, now)
  {
    hide SameBytes, Reloaded, Read;
    ReloadedSame(mem0, was, now, |was|);
    forall i | 0 <= i < |now|
      ensures Holds(mem, now[i])
    {
      assert Holds(mem, was[i]);
    }
  }

  lemma ReloadedNone(mem: Memory, chunks: seq<Chunk>)
    ensures Reloaded(mem, chunks, 0) == mem && SameBytes(mem, mem)
  {
  }

  lemma ReloadedNext(mem: Memory, chunks: seq<Chunk>, i: nat)
    requires i < |chunks|
    ensures Reloaded(mem, chunks, i + 1) == Write(Reloaded(mem, chunks, i), chunks[i].paddr, chunks[i].bytes)
  {
    hide Write;
  }

  /** The state of the chunk loop before chunk `i`. */
  ghost predicate Progress(mem: Memory, chunks: seq<Chunk>, i: nat) {
    && i <= |chunks| && Disjoint(chunks) && CacheOk(mem, chunks)
    && forall j :: 0 <= j < i ==> Holds(mem, chunks[j])
  }

  lemma ProgressStart(mem: Memory, chunks: seq<Chunk>)
    requires Disjoint(chunks) && CacheOk(mem, chunks)
    ensures Progress(mem, chunks, 0)
  {
  }

  lemma ProgressSkip(mem: Memory, chunks: seq<Chunk>, i: nat)
    requires Progress(mem, chunks, i) && i < |chunks| && chunks[i].readonly && chunks[i].loaded
    ensures Progress(mem, chunks, i + 1) && Holds(mem, chunks[i])
  {
    hide Holds, Disjoint;
  }

  lemma ProgressFail(mem: Memory, w: Memory, chunks: seq<Chunk>, i: nat)
    requires Progress(mem, chunks, i) && i < |chunks| && !(chunks[i].readonly && chunks[i].loaded)
    requires SameOutside(mem, w, chunks[i].paddr, |chunks[i].bytes|)
    ensures CacheOk(w, chunks)
  {
    hide Holds, Disjoint, CacheOk, SameOutside;
    CacheAfterFailure(mem, w, chunks, i);
  }

  lemma ProgressWrite(mem: Memory, chunks: seq<Chunk>, i: nat, now: Chunk)
    requires Progress(mem, chunks, i) && i < |chunks| && !(chunks[i].readonly && chunks[i].loaded)
    requires now.paddr == chunks[i].paddr && now.bytes == chunks[i].bytes && now.readonly == chunks[i].readonly
    ensures Progress(Write(mem, chunks[i].paddr, chunks[i].bytes), chunks[i := now], i + 1)
  {
    hide Holds, Disjoint, CacheOk, SameOutside, Write;
    var w := Write(mem, chunks[i].paddr, chunks[i].bytes);
    CacheAfterWrite(mem, chunks, i, now);
    WriteSameOutside(mem, chunks[i].paddr, chunks[i].bytes);
    SameCodeDisjoint(chunks, chunks[i := now]);
    forall j | 0 <= j < i
      ensures Holds(w, chunks[j])
    {
      OthersKept(mem, w, chunks, i, j);
    }
  }

  lemma ProgressEnd(mem: Memory, chunks: seq<Chunk>, i: nat)
    requires Progress(mem, chunks, i)
    ensures CacheOk(mem, chunks)
    ensures forall j :: 0 <= j < i ==> Holds(mem, chunks[j])
  {
  }

  /** Sizes for which no sum of the source wraps at 2^64. */
  ghost predicate NoWrap(comm: Comm, size: nat) {
    comm.addr + comm.size + 32 + size < TWO64
  }

  /** The switch at the head of `enqueue_arg`: what is to be sent, or why the argument is refused. */
  method Describe(arg: KernArg) returns (r: int, e: Entry)
    requires Usable(arg)
    ensures arg.NotUsed? ==> r == CL_INVALID_KERNEL
    ensures arg.Mem? && arg.mem == null ==> r == CL_INVALID_MEM_OBJECT
    ensures Sendable(arg) ==> r == CL_SUCCESS && e == EntryOf(arg)
  {
    e := Entry(0, 0, [], false);
    match arg {
      case NotUsed(_) =>
        return CL_INVALID_KERNEL, e;
      case Val(index, size, p) =>
        return CL_SUCCESS, Entry(ARG_VAL, index, p.data[..size], true);
      case Mem(index, _, m) =>
        if m == null {
          return CL_INVALID_MEM_OBJECT, e;
        }
        var needWrite := false;
        if m.CanRead() {
          needWrite := true;
        }
        return CL_SUCCESS, Entry(ARG_MEM, index, m.data, needWrite);
    }
  }

  /** The bounds test, with the 64-bit sums of the source. */
  predicate Exceeds(comm: Comm, paddr: nat, size: nat) {
    (comm.addr + comm.size) % TWO64 <= (paddr + ARG_HEADER + size) % TWO64
  }

  /** The test is right exactly when both sums wrap around equally often, or the wrapped sums fall on the right side
      anyway. For an area that does not wrap: when the slot does not either, or wraps to behind the area's end. */
  lemma ExceedsExactly(comm: Comm, paddr: nat, size: nat)
    ensures var top, end := comm.addr + comm.size, paddr + ARG_HEADER + size;
            var right := Exceeds(comm, paddr, size) <==> top <= end;
            && (right <==>
                  || top / TWO64 == end / TWO64
                  || (if top / TWO64 < end / TWO64 then top % TWO64 <= end % TWO64 else end % TWO64 < top % TWO64))
            && (top < TWO64 && end < 2 * TWO64 ==> (right <==> end < TWO64 || top <= end - TWO64))
  {
  }

  /** In particular when nothing wraps. */
  lemma ExceedsPlain(comm: Comm, paddr: nat, size: nat)
    requires NoWrap(comm, size) && CursorInside(comm, paddr)
    ensures Exceeds(comm, paddr, size) <==> comm.addr + comm.size <= paddr + ARG_HEADER + size
    ensures Exceeds(comm, paddr, size) || SlotUnwrapped(paddr, size)
  {
    hide Align8;
    Below64(comm.addr + comm.size);
    Below64(paddr + ARG_HEADER + size);
  }

  /** The slot at `paddr` and the rounding behind it stay below 2^64. */
  ghost predicate SlotUnwrapped(paddr: nat, size: nat) {
    paddr + ARG_HEADER + size + 8 <= TWO64
  }

  /** Where the payload of the slot at `paddr` goes, and where the next slot starts, in 64 bits. */
  function PayloadAt(paddr: nat): (at: nat)
    ensures at < TWO64
    ensures paddr + 16 < TWO64 ==> at == paddr + 16
    ensures TWO64 <= paddr + 16 < 2 * TWO64 ==> at == paddr + 16 - TWO64
  {
    (paddr + ARG_HEADER) % TWO64
  }

  function NextSlot(paddr: nat, size: nat): nat {
    Align8((PayloadAt(paddr) + size) % TWO64) % TWO64
  }

  function SlotPut(mem: Memory, paddr: nat, e: Entry): Memory {
    var m := Write(mem, paddr, ArgHeader(e));
    if e.sent then Write(m, PayloadAt(paddr), e.data) else m
  }

  lemma Unwrapped(mem: Memory, paddr: nat, e: Entry)
    requires SlotUnwrapped(paddr, |e.data|)
    ensures SlotPut(mem, paddr, e) == SlotWritten(mem, paddr, e)
    ensures PayloadAt(paddr) == paddr + ARG_HEADER
  {
    hide Write, ArgHeader;
    Below64(paddr + ARG_HEADER);
  }

  lemma NextUnwrapped(paddr: nat, size: nat)
    requires SlotUnwrapped(paddr, size)
    ensures PayloadAt(paddr) == paddr + ARG_HEADER
    ensures NextSlot(paddr, size) == SlotEnd(paddr, size)
  {
    Below64(paddr + ARG_HEADER);
    Below64(paddr + ARG_HEADER + size);
    Below64(Align8(paddr + ARG_HEADER + size));
  }

  lemma Below64(x: nat)
    requires x < TWO64
    ensures x % TWO64 == x
  {
  }

  predicate CursorInside(comm: Comm, paddr: nat) {
    comm.addr <= paddr <= Align8(comm.addr + comm.size) || paddr == comm.addr + 16
  }

  /** `enqueue_arg` at cursor `paddr`, whatever wraps. */
  method EnqueueArg(d: Device, arg: KernArg, comm: Comm, paddr: nat) returns (r: int, next: nat)
    requires d.Valid() && !d.faulted && !d.dev.running && Usable(arg) && paddr < TWO64
    modifies d
    ensures d.Valid() && !d.dev.running && d.dev.runs == old(d.dev.runs)
    ensures d.past == old(d.past) && d.stops == old(d.stops) && d.origin == old(d.origin)
    ensures arg.NotUsed? ==> r == CL_INVALID_KERNEL && unchanged(d)
    ensures arg.Mem? && arg.mem == null ==> r == CL_INVALID_MEM_OBJECT && unchanged(d)
    ensures Sendable(arg) ==>
      var e := EntryOf(arg);
      if Exceeds(comm, paddr, |e.data|) then r == CL_OUT_OF_RESOURCES && unchanged(d)
      else
        && (r != CL_SUCCESS ==> d.Failed(r))
        && (r == CL_SUCCESS ==>
              !d.faulted && d.dev.mem == SlotPut(old(d.dev.mem), paddr, e) && next == NextSlot(paddr, |e.data|))
        && (SlotUnwrapped(paddr, |e.data|) ==>
              && SameOutside(old(d.dev.mem), d.dev.mem, paddr, ARG_HEADER + |e.data|)
              && Grown(old(d.trace), d.trace, paddr, ARG_HEADER + |e.data|))
    ensures r == CL_SUCCESS && arg.Val? ==>
      d.dev.mem == SlotPut(old(d.dev.mem), paddr, Entry(1, arg.index, arg.ptr.data[..arg.size], true))
    ensures r == CL_SUCCESS && arg.Mem? ==>
      && arg.mem != null
      && d.dev.mem == SlotPut(old(d.dev.mem), paddr, Entry(2, arg.index, arg.mem.data, arg.mem.flags & 5 != 0))
  {
    hide Write, Read, ArgHeader, After, Step, SameOutside, Exceeds, Grown, SlotUnwrapped;
    next := paddr;
    var e;
    r, e := Describe(arg);
    if r != CL_SUCCESS {
      return;
    }
    if Exceeds(comm, paddr, |e.data|) {
      return CL_OUT_OF_RESOURCES, next;
    }
    r := WriteSlot(d, e, paddr);
    next := Align8((PayloadAt(next) + |e.data|) % TWO64) % TWO64;
  }

  /** The two writes of `enqueue_arg`. */
  method WriteSlot(d: Device, e: Entry, paddr: nat) returns (r: int)
    requires d.Valid() && !d.faulted && !d.dev.running
    modifies d
    ensures d.Valid() && !d.dev.running && d.dev.runs == old(d.dev.runs)
    ensures d.past == old(d.past) && d.stops == old(d.stops) && d.origin == old(d.origin)
    ensures r != CL_SUCCESS ==> d.Failed(r)
    ensures r == CL_SUCCESS ==> !d.faulted && d.dev.mem == SlotPut(old(d.dev.mem), paddr, e)
    ensures SlotUnwrapped(paddr, |e.data|) ==>
      && SameOutside(old(d.dev.mem), d.dev.mem, paddr, ARG_HEADER + |e.data|)
      && Grown(old(d.trace), d.trace, paddr, ARG_HEADER + |e.data|)
  {
    hide Write, Read, ArgHeader, After, Step, SameOutside, Grown;
    ghost var mem, was, n := d.dev.mem, d.trace, ARG_HEADER + |e.data|;
    GrownNone(was, paddr, n);
    GrownOne(was, was, Op.WriteMem(paddr, ArgHeader(e)), paddr, n);
    WriteSameOutside(mem, paddr, ArgHeader(e));
    r := d.WriteMem(paddr, ArgHeader(e));
    SameOutsideWider(mem, d.dev.mem, paddr, ARG_HEADER, |e.data|);
    if r != CL_SUCCESS {
      return;
    }
    if e.sent {
      ghost var mid := d.dev.mem;
      var at := PayloadAt(paddr);
      if SlotUnwrapped(paddr, |e.data|) {
        Unwrapped(mem, paddr, e);
        GrownOne(was, d.trace, Op.WriteMem(at, e.data), paddr, n);
      }
      WriteSameOutside(mid, at, e.data);
      r := d.WriteMem(at, e.data);
      if SlotUnwrapped(paddr, |e.data|) {
        SameOutsideJoin(mem, mid, d.dev.mem, paddr, ARG_HEADER, |e.data|);
      }
    }
  }

  // ------------------------------------------------------------------------------------------
  // Sending all arguments.

  /** Bytes from `comm.addr` on that sending may touch. */
  function Span(comm: Comm): nat {
    if comm.size < 16 then 16 else comm.size
  }

  /** The first `n` slots are written, behind the area header, and nothing outside the area has changed. */
  ghost predicate Sent(mem0: Memory, mem: Memory, comm: Comm, es: seq<Entry>, n: nat) {
    && n <= |es|
    && AreaHolds(mem, comm.addr + 16, es, n) && AreaKeeps(mem0, mem, comm.addr + 16, es, n)
    && Read(mem, comm.addr, 16) == AreaHeader(|es|)
    && SameOutside(mem0, mem, comm.addr, Span(comm))
    && (forall j :: 0 <= j < n ==> Fits(comm, Sizes(es), j))
    && CursorInside(comm, Cursor(comm.addr + 16, Sizes(es), n))
  }

  lemma SentStart(mem0: Memory, comm: Comm, es: seq<Entry>)
    ensures var w := Write(mem0, comm.addr, AreaHeader(|es|));
            Sent(mem0, w, comm, es, 0)
  {
    hide Read, Write, AreaHeader, SameOutside, AreaKeeps;
    AreaKeepsNone(mem0, AreaHeader(|es|), comm.addr + 16, es);
    WriteSameOutside(mem0, comm.addr, AreaHeader(|es|));
    SameOutsideInside(mem0, Write(mem0, comm.addr, AreaHeader(|es|)), comm.addr, 16, comm.addr, Span(comm));
    ReadWritten(mem0, comm.addr, AreaHeader(|es|));
  }

  lemma SentFail(mem0: Memory, mem: Memory, w: Memory, comm: Comm, es: seq<Entry>, n: nat)
    requires Sent(mem0, mem, comm, es, n) && n < |es| && Fits(comm, Sizes(es), n)
    requires SameOutside(mem, w, Cursor(comm.addr + 16, Sizes(es), n), 16 + |es[n].data|)
    ensures SameOutside(mem0, w, comm.addr, Span(comm))
  {
    hide SameOutside, AreaHolds, AreaKeeps, AreaHeader, Read, Cursor, CursorInside;
    var at := Cursor(comm.addr + 16, Sizes(es), n);
    SameOutsideInside(mem, w, at, 16 + |es[n].data|, comm.addr, Span(comm));
    SameOutsideTwice(mem0, mem, w, comm.addr, Span(comm));
  }

  lemma SentStep(mem0: Memory, mem: Memory, comm: Comm, es: seq<Entry>, n: nat)
    requires Sent(mem0, mem, comm, es, n) && n < |es| && Fits(comm, Sizes(es), n)
    ensures var w := SlotWritten(mem, Cursor(comm.addr + 16, Sizes(es), n), es[n]);
            Sent(mem0, w, comm, es, n + 1)
  {
    hide SameOutside, AreaHolds, AreaKeeps, AreaHeader, Read, SlotWritten, SlotHolds, Cursor, Align8;
    var at := Cursor(comm.addr + 16, Sizes(es), n);
    var w := SlotWritten(mem, at, es[n]);
    SlotWrittenHolds(mem, at, es[n]);
    SentFail(mem0, mem, w, comm, es, n);
    AreaGrows(mem, comm.addr + 16, es, n);
    AreaKeepsNext(mem0, mem, comm.addr + 16, es, n);
    ReadSame(mem, w, at, 16 + |es[n].data|, comm.addr, 16);
    AlignMonotone(at + 16 + |es[n].data|, comm.addr + comm.size);
    CursorNext(comm.addr + 16, Sizes(es), n);
  }

  /** One argument of the sending loop. */
  method SendArg(d: Device, arg: KernArg, comm: Comm, paddr: nat, ghost mem0: Memory, ghost es: seq<Entry>, ghost n: nat)
    returns (r: int, next: nat)
    requires d.Valid() && !d.faulted && !d.dev.running && Usable(arg)
    requires Sent(mem0, d.dev.mem, comm, es, n) && n < |es| && es[n] == EntryOrBlank(arg)
    requires paddr == Cursor(comm.addr + 16, Sizes(es), n) && NoWrap(comm, |es[n].data|)
    modifies d
    ensures d.Valid() && !d.dev.running && d.dev.runs == old(d.dev.runs)
    ensures d.past == old(d.past) && d.stops == old(d.stops) && d.origin == old(d.origin)
    ensures Grown(old(d.trace), d.trace, comm.addr, Span(comm))
    ensures SameOutside(mem0, d.dev.mem, comm.addr, Span(comm))
    ensures r == CL_SUCCESS ==>
      && !d.faulted && Sendable(arg) && Sent(mem0, d.dev.mem, comm, es, n + 1)
      && next == Cursor(comm.addr + 16, Sizes(es), n + 1)
    ensures r != CL_SUCCESS ==> d.Failed(r) || (!d.faulted && r == Refusal(arg, comm, Sizes(es), n))
  {
    hide SameOutside, SlotWritten, Cursor, AreaHolds, AreaKeeps, AreaHeader, Read, After, Step, SlotEnd, Grown;
    hide SlotPut, NextSlot, PayloadAt, Exceeds, Align8;
    ghost var mem, was := d.dev.mem, d.trace;
    GrownNone(was, comm.addr, Span(comm));
    ExceedsPlain(comm, paddr, |es[n].data|);
    r, next := EnqueueArg(d, arg, comm, paddr);
    CursorNext(comm.addr + 16, Sizes(es), n);
    if Sendable(arg) && Fits(comm, Sizes(es), n) {
      Unwrapped(mem, paddr, es[n]);
      NextUnwrapped(paddr, |es[n].data|);
      GrownWider(was, d.trace, paddr, ARG_HEADER + |es[n].data|, comm.addr, Span(comm));
      SentFail(mem0, mem, d.dev.mem, comm, es, n);
      SentStep(mem0, mem, comm, es, n);
    }
  }

  lemma SnapshotSize(k: Kernel, args: seq<KernArg>, es: seq<Entry>)
    requires Snapshot(k, args, es)
    ensures |es| == |args| == k.numArgs + 1 < TWO32 && k.Valid() && k.Args() == args[1..]
  {
  }

  /** Argument `i` of the launch, 0 being the name: ready to be sent, and as in the snapshot. */
  lemma NthArg(k: Kernel, args: seq<KernArg>, es: seq<Entry>, i: nat)
    requires Snapshot(k, args, es) && i < |es|
    ensures |es| == |args| == k.numArgs + 1 == |k.Args()| + 1 && k.Valid()
    ensures Usable(args[i]) && es[i] == EntryOrBlank(args[i])
    ensures args[i] == if i == 0 then NameArg(k) else k.Args()[i - 1]
  {
    if i == 0 {
      NameUsable(k);
    }
  }

  /** The same for argument `n` of a kernel: the name for 0, then what `kern_get_arg` gives. */
  method SendNth(d: Device, kernel: Kernel, n: nat, comm: Comm, paddr: nat,
                 ghost mem0: Memory, ghost args: seq<KernArg>, ghost es: seq<Entry>)
    returns (r: int, next: nat)
    requires d.Valid() && !d.faulted && !d.dev.running
    requires Snapshot(kernel, args, es) && d !in Owned(kernel) && n < |es| == |args|
    requires Sent(mem0, d.dev.mem, comm, es, n) && AllSendable(args, n)
    requires paddr == Cursor(comm.addr + 16, Sizes(es), n) && NoWrap(comm, |es[n].data|)
    modifies d
    ensures Snapshot(kernel, args, es) && d !in Owned(kernel)
    ensures d.Valid() && !d.dev.running && d.dev.runs == old(d.dev.runs)
    ensures d.past == old(d.past) && d.stops == old(d.stops) && d.origin == old(d.origin)
    ensures Grown(old(d.trace), d.trace, comm.addr, Span(comm))
    ensures SameOutside(mem0, d.dev.mem, comm.addr, Span(comm))
    ensures r == CL_SUCCESS ==>
      && !d.faulted && AllSendable(args, n + 1) && Sent(mem0, d.dev.mem, comm, es, n + 1)
      && next == Cursor(comm.addr + 16, Sizes(es), n + 1)
    ensures r != CL_SUCCESS ==> d.Failed(r) || (!d.faulted && Refused(args, comm, es, r))
  {
    hide Sent, SameOutside, Cursor, Usable, EntryOrBlank, NoWrap, Refused, Refusal, AllSendable, After, Paired, StrLen;
    hide Grown;
    GrownNone(d.trace, comm.addr, Span(comm));
    RefusedAt(mem0, d.dev.mem, args, comm, es, n);
    next := paddr;
    var arg;
    if n == 0 {
      arg := NameArg(kernel);
    } else {
      r, arg := kernel.GetArg(n - 1);
      if r != CL_SUCCESS {
        return;
      }
    }
    NthArg(kernel, args, es, n);
    r, next := SendArg(d, arg, comm, paddr, mem0, es, n);
    if r == CL_SUCCESS {
      AllSendableStep(args, n);
    }
  }

  /** The area header and all arguments, name first. */
  method SendArgs(d: Device, kernel: Kernel, comm: Comm, ghost args: seq<KernArg>, ghost es: seq<Entry>) returns (r: int)
    requires d.Valid() && !d.faulted && !d.dev.running
    requires Snapshot(kernel, args, es) && d !in Owned(kernel)
    requires forall k :: 0 <= k < |es| ==> NoWrap(comm, |es[k].data|)
    modifies d
    ensures d.Valid() && !d.dev.running && d.dev.runs == old(d.dev.runs)
    ensures d.past == old(d.past) && d.stops == old(d.stops) && d.origin == old(d.origin)
    ensures Grown(old(d.trace), d.trace, comm.addr, Span(comm))
    ensures SameOutside(old(d.dev.mem), d.dev.mem, comm.addr, Span(comm))
    ensures r == CL_SUCCESS ==>
      && !d.faulted && Sent(old(d.dev.mem), d.dev.mem, comm, es, |es|) && AllSendable(args, |es|)
      && Snapshot(kernel, args, es)
    ensures r != CL_SUCCESS ==> d.Failed(r) || (!d.faulted && Refused(args, comm, es, r))
  {
    hide Snapshot, Refs, Refused, AllSendable, Sent, SameOutside, Cursor, Usable, EntryOrBlank, NoWrap, After, Paired;
    hide Grown;
    ghost var mem0, was := d.dev.mem, d.trace;
    SnapshotSize(kernel, args, es);
    r := SendHeader(d, kernel, comm, kernel.numArgs, args, es);
    if r != CL_SUCCESS {
      return;
    }
    var paddr := comm.addr + Align8(16);
    CursorStart(comm.addr + 16, Sizes(es));
    AllSendableNone(args);
    ghost var mid := d.trace;
    r, paddr := SendNth(d, kernel, 0, comm, paddr, mem0, args, es);
    GrownTwice(was, mid, d.trace, comm.addr, Span(comm));
    if r != CL_SUCCESS {
      return;
    }
    for i := 0 to kernel.numArgs
      invariant d.Valid() && !d.faulted && !d.dev.running && d.dev.runs == old(d.dev.runs)
      invariant d.past == old(d.past) && d.stops == old(d.stops) && d.origin == old(d.origin)
      invariant Snapshot(kernel, args, es) && d !in Owned(kernel) && |es| == |args| == kernel.numArgs + 1
      invariant Sent(mem0, d.dev.mem, comm, es, i + 1) && SameOutside(mem0, d.dev.mem, comm.addr, Span(comm))
      invariant AllSendable(args, i + 1)
      invariant paddr == Cursor(comm.addr + 16, Sizes(es), i + 1)
      invariant Grown(was, d.trace, comm.addr, Span(comm))
    {
      mid := d.trace;
      r, paddr := SendNth(d, kernel, i + 1, comm, paddr, mem0, args, es);
      GrownTwice(was, mid, d.trace, comm.addr, Span(comm));
      if r != CL_SUCCESS {
        return;
      }
    }
    return CL_SUCCESS;
  }

  ghost predicate AllSendable(args: seq<KernArg>, n: nat) {
    n <= |args| && forall i :: 0 <= i < n ==> Sendable(args[i])
  }

  /** The error for argument `i`, or success if it can be sent. */
  ghost function Refusal(arg: KernArg, comm: Comm, sizes: seq<nat>, i: nat): int
    requires i < |sizes|
  {
    if arg.NotUsed? then CL_INVALID_KERNEL
    else if arg.Mem? && arg.mem == null then CL_INVALID_MEM_OBJECT
    else if !Fits(comm, sizes, i) then CL_OUT_OF_RESOURCES
    else CL_SUCCESS
  }

  /** The first argument that is unused, is not a buffer, or does not fit gives error `r`. */
  ghost predicate Refused(args: seq<KernArg>, comm: Comm, es: seq<Entry>, r: int) {
    |args| == |es| && exists i :: 0 <= i < |es| && RefusedFirst(args, comm, es, i, r)
  }

  ghost predicate RefusedFirst(args: seq<KernArg>, comm: Comm, es: seq<Entry>, i: nat, r: int)
    requires i < |es| == |args|
  {
    && r != CL_SUCCESS && Refusal(args[i], comm, Sizes(es), i) == r
    && forall j :: 0 <= j < i ==> Refusal(args[j], comm, Sizes(es), j) == CL_SUCCESS
  }

  lemma RefusedAt(mem0: Memory, mem: Memory, args: seq<KernArg>, comm: Comm, es: seq<Entry>, n: nat)
    requires |es| == |args| && n < |es| && Sent(mem0, mem, comm, es, n) && AllSendable(args, n)
    ensures var r := Refusal(args[n], comm, Sizes(es), n);
            r != CL_SUCCESS ==> Refused(args, comm, es, r)
  {
    hide Fits, AreaHolds, AreaKeeps, Read, SameOutside, AreaHeader, CursorInside;
    var r := Refusal(args[n], comm, Sizes(es), n);
    if r != CL_SUCCESS {
      assert RefusedFirst(args, comm, es, n, r);
    }
  }

  lemma AllSendableNone(args: seq<KernArg>)
    ensures AllSendable(args, 0)
  {
  }

  lemma AllSendableStep(args: seq<KernArg>, n: nat)
    requires n < |args| && AllSendable(args, n) && Sendable(args[n])
    ensures AllSendable(args, n + 1)
  {
  }

  /** The area header. */
  method SendHeader(d: Device, kernel: Kernel, comm: Comm, numArgs: nat, ghost args: seq<KernArg>, ghost es: seq<Entry>)
    returns (r: int)
    requires d.Valid() && !d.faulted && !d.dev.running && numArgs + 1 == |es| < TWO32
    requires Snapshot(kernel, args, es) && d !in Owned(kernel)
    modifies d
    ensures Snapshot(kernel, args, es) && d !in Owned(kernel)
    ensures d.Valid() && !d.dev.running && d.dev.runs == old(d.dev.runs)
    ensures d.past == old(d.past) && d.stops == old(d.stops) && d.origin == old(d.origin)
    ensures Grown(old(d.trace), d.trace, comm.addr, Span(comm))
    ensures SameOutside(old(d.dev.mem), d.dev.mem, comm.addr, Span(comm))
    ensures r == CL_SUCCESS ==> !d.faulted && Sent(old(d.dev.mem), d.dev.mem, comm, es, 0)
    ensures r != CL_SUCCESS ==> d.Failed(r)
  {
    hide SameOutside, Sent, AreaHeader, Write, After, Step, Snapshot, Paired;
    hide Grown;
    ghost var mem0 := d.dev.mem;
    GrownNone(d.trace, comm.addr, Span(comm));
    GrownOne(d.trace, d.trace, Op.WriteMem(comm.addr, AreaHeader(|es|)), comm.addr, Span(comm));
    SentStart(mem0, comm, es);
    SentEffect(mem0, Write(mem0, comm.addr, AreaHeader(|es|)), comm, es, 0);
    r := d.WriteMem(comm.addr, AreaHeader((numArgs + 1) % TWO32));
    if r != CL_SUCCESS {
      SameOutsideInside(mem0, d.dev.mem, comm.addr, 16, comm.addr, Span(comm));
    }
  }

  lemma SentEffect(mem0: Memory, mem: Memory, comm: Comm, es: seq<Entry>, n: nat)
    requires Sent(mem0, mem, comm, es, n)
    ensures SameOutside(mem0, mem, comm.addr, Span(comm)) && n <= |es|
  {
  }

  lemma NameUsable(k: Kernel)
    requires 0 in k.name.data
    ensures Usable(NameArg(k)) && Sendable(NameArg(k))
  {
  }

  // ------------------------------------------------------------------------------------------
  // Running and polling.

  /** Memory after `n` runs of the kernel, the first of them run number `from`. */
  function Runs(kernels: Kernels, mem: Memory, from: nat, n: nat): Memory {
    if n == 0 then mem else kernels(from + n - 1)(Runs(kernels, mem, from, n - 1))
  }

  predicate MagicOk(mem: Memory, comm: Comm) {
    Field(mem, comm.addr, 4) == 0xbadcafe5
  }

  predicate Done(mem: Memory, comm: Comm) {
    Field(mem, comm.addr + 8, 4) != 0
  }

  lemma HeaderRead(mem: Memory, comm: Comm)
    ensures var h := Read(mem, comm.addr, 16);
            h[..4] == Read(mem, comm.addr, 4) && h[8..12] == Read(mem, comm.addr + 8, 4)
  {
  }

  /** No run up to the `n`-th left the done flag set or the magic number broken. */
  ghost predicate Undone(kernels: Kernels, mem: Memory, from: nat, n: nat, comm: Comm) {
    forall j :: 0 < j <= n ==> UndoneAt(kernels, mem, from, j, comm)
  }

  ghost predicate UndoneAt(kernels: Kernels, mem: Memory, from: nat, j: nat, comm: Comm) {
    var m := Runs(kernels, mem, from, j);
    MagicOk(m, comm) && !Done(m, comm)
  }

  /** One turn of the polling loop: stop, read the header, test it, and run on. */
  method PollOnce(d: Device, comm: Comm, ghost mem0: Memory, ghost from: nat, ghost j: nat) returns (r: int, done: bool)
    requires d.Valid() && !d.faulted && d.dev.running && d.dev.runs == from + j
    requires d.dev.mem == Runs(d.env.kernels, mem0, from, j) && Untouched(d.env.kernels, comm, mem0, d.dev.mem)
    modifies d
    ensures d.Valid() && d.origin == old(d.origin) && d.stops == old(d.stops) + 1 && Further(old(d.past), d.past)
    ensures Untouched(d.env.kernels, comm, mem0, d.dev.mem)
    ensures Grown(old(d.trace), d.trace, comm.addr, Span(comm))
    ensures !d.faulted ==> d.dev.runs == from + j + 1 && d.dev.mem == Runs(d.env.kernels, mem0, from, j + 1)
    ensures r == CL_SUCCESS ==>
      && !d.faulted && MagicOk(d.dev.mem, comm) && (done <==> Done(d.dev.mem, comm))
      && (done <==> !d.dev.running) && |d.past.given| == |old(d.past.given)| + if done then 0 else 1
    ensures r != CL_SUCCESS ==>
      d.Failed(r) || (!d.faulted && r == CL_INVALID_DEVICE && !d.dev.running && !MagicOk(d.dev.mem, comm))
  {
    hide After, FromLE, MagicOk, Done, Read, Runs, Untouched, Grown;
    done := false;
    ghost var kernels, was, a, n := d.env.kernels, d.trace, comm.addr, Span(comm);
    GrownNone(was, a, n);
    GrownOne(was, was, Op.Stop, a, n);
    RunsNext(kernels, mem0, from, j);
    ghost var before := d.dev;
    r := d.Stop();
    UntouchedOn(kernels, comm, mem0, before, d.dev, Op.Stop);
    if r != CL_SUCCESS {
      return;
    }
    GrownOne(was, d.trace, Op.ReadMem(comm.addr, 16), a, n);
    var header: seq<byte> := ToLE(0, 16);
    r, header := d.ReadMem(comm.addr, header);
    if r != CL_SUCCESS {
      return;
    }
    HeaderTests(d.dev.mem, comm, header);
    if FromLE(header[..4]) != COMM_MAGIC {
      return CL_INVALID_DEVICE, false;
    }
    if FromLE(header[8..12]) != 0 {
      return CL_SUCCESS, true;
    }
    GrownOne(was, d.trace, Op.Run, a, n);
    before := d.dev;
    r := d.Run();
    UntouchedOn(kernels, comm, mem0, before, d.dev, Op.Run);
  }

  /** From the first `dev_run` to the end of the polling loop. On success the device is halted after as many
      stops as runs, the kernel ran once for each, and the last of these runs is the first that left the done
      flag set. Without a fault the only other ends are a broken magic number, with the device halted, and the
      timeout, which leaves it running. */
  method RunAndPoll(d: Device, comm: Comm) returns (r: int)
    requires d.Valid() && !d.faulted && !d.dev.running
    modifies d
    ensures d.Valid() && d.origin == old(d.origin) && RunFrom(old(d.past), d.past, old(d.dev.mem))
    ensures Untouched(d.env.kernels, comm, old(d.dev.mem), d.dev.mem)
    ensures Grown(old(d.trace), d.trace, comm.addr, Span(comm))
    ensures old(d.stops) <= d.stops <= old(d.stops) + POLLS
    ensures !d.faulted ==>
      && d.dev.runs == old(d.dev.runs) + (d.stops - old(d.stops))
      && d.dev.mem == Runs(d.env.kernels, old(d.dev.mem), old(d.dev.runs), d.stops - old(d.stops))
    ensures r == CL_SUCCESS ==>
      var n := d.stops - old(d.stops);
      && !d.faulted && !d.dev.running && n >= 1
      && |d.past.given| == |old(d.past.given)| + n
      && MagicOk(d.dev.mem, comm) && Done(d.dev.mem, comm)
      && Undone(d.env.kernels, old(d.dev.mem), old(d.dev.runs), n - 1, comm)
    ensures r != CL_SUCCESS ==> d.Failed(r) || (!d.faulted && r == CL_INVALID_DEVICE)
    ensures r != CL_SUCCESS && !d.faulted ==>
      (if d.dev.running then d.stops == old(d.stops) + POLLS else !MagicOk(d.dev.mem, comm))
  {
    hide After, MagicOk, Done, Runs, Untouched, Grown, UndoneAt, Further, RunFrom;
    ghost var kernels, mem0, from, was := d.env.kernels, d.dev.mem, d.dev.runs, d.trace;
    RunsStart(kernels, mem0, from);
    UntouchedNot(kernels, comm, mem0);
    GrownNone(was, comm.addr, Span(comm));
    GrownOne(was, was, Op.Run, comm.addr, Span(comm));
    ghost var before, past := d.dev, d.past;
    r := d.Run();
    UntouchedOn(kernels, comm, mem0, before, d.dev, Op.Run);
    RunOnce(past, d.past, mem0);
    if r != CL_SUCCESS {
      return;
    }
    var done := false;
    for j := 0 to POLLS
      invariant d.Valid() && !d.faulted && d.dev.running && !done
      invariant d.origin == old(d.origin) && d.dev.runs == from + j
      invariant d.stops == old(d.stops) + j && |d.past.given| == |past.given| + j + 1 && RunFrom(past, d.past, mem0)
      invariant d.dev.mem == Runs(kernels, mem0, from, j) && Untouched(kernels, comm, mem0, d.dev.mem)
      invariant Undone(kernels, mem0, from, j, comm) && Grown(was, d.trace, comm.addr, Span(comm))
    {
      ghost var mid, midPast := d.trace, d.past;
      r, done := PollOnce(d, comm, mem0, from, j);
      FurtherTwice(past, midPast, d.past, mem0);
      GrownTwice(was, mid, d.trace, comm.addr, Span(comm));
      if r != CL_SUCCESS {
        return;
      }
      if done {
        break;
      }
      UndoneNext(kernels, mem0, from, j + 1, comm);
    }
    if !done {
      return CL_INVALID_DEVICE;
    }
    return CL_SUCCESS;
  }

  lemma RunOnce(was: History, now: History, mem: Memory)
    requires now == was.(given := was.given + [mem])
    ensures RunFrom(was, now, mem)
  {
  }

  lemma UndoneNext(kernels: Kernels, mem: Memory, from: nat, j: nat, comm: Comm)
    ensures var m := Runs(kernels, mem, from, j);
            UndoneAt(kernels, mem, from, j, comm) <==> MagicOk(m, comm) && !Done(m, comm)
  {
    hide Runs;
  }

  lemma RunsStart(kernels: Kernels, mem: Memory, from: nat)
    ensures Runs(kernels, mem, from, 0) == mem
  {
  }

  lemma RunsNext(kernels: Kernels, mem: Memory, from: nat, n: nat)
    ensures Runs(kernels, mem, from, n + 1) == kernels(from + n)(Runs(kernels, mem, from, n))
  {
  }

  lemma HeaderTests(mem: Memory, comm: Comm, header: seq<byte>)
    requires header == Read(mem, comm.addr, 16)
    ensures MagicOk(mem, comm) <==> FromLE(header[..4]) == COMM_MAGIC
    ensures Done(mem, comm) <==> FromLE(header[8..12]) != 0
  {
    hide FromLE;
    HeaderRead(mem, comm);
  }

  // ------------------------------------------------------------------------------------------
  // Reading the results back.

  function MemsOf(arg: KernArg): set<ClMem> {
    if arg.Mem? && arg.mem != null then {arg.mem} else {}
  }

  function Mems(args: seq<KernArg>): set<ClMem> {
    set i, m | 0 <= i < |args| && m in MemsOf(args[i]) :: m
  }

  /** Size of the slot of an argument that can be sent. */
  function SizeNow(arg: KernArg): nat
    requires Sendable(arg)
    reads MemsOf(arg)
  {
    if arg.Val? then arg.size else |arg.mem.data|
  }

  /** `dequeue_arg` at cursor `paddr`, whatever wraps. */
  method DequeueArg(d: Device, arg: KernArg, comm: Comm, paddr: nat) returns (r: int, next: nat)
    requires d.Valid() && !d.faulted && !d.dev.running && paddr < TWO64
    modifies d, MemsOf(arg)`data
    ensures d.Valid() && d.dev == old(d.dev) && d.origin == old(d.origin)
    ensures d.past == old(d.past) && d.stops == old(d.stops)
    ensures arg.NotUsed? ==> r == CL_INVALID_KERNEL && unchanged(d)
    ensures arg.Mem? && arg.mem == null ==> r == CL_INVALID_MEM_OBJECT && unchanged(d)
    ensures Sendable(arg) ==>
      && SizeNow(arg) == old(SizeNow(arg))
      && (if Exceeds(comm, paddr, SizeNow(arg)) then r == CL_OUT_OF_RESOURCES && unchanged(d)
          else
            && (r != CL_SUCCESS ==> d.Failed(r))
            && (r == CL_SUCCESS ==> !d.faulted && next == NextSlot(paddr, SizeNow(arg)))
            && (SlotUnwrapped(paddr, SizeNow(arg)) ==> Grown(old(d.trace), d.trace, paddr, ARG_HEADER + SizeNow(arg))))
    ensures arg.Mem? && arg.mem != null && r == CL_SUCCESS ==>
      arg.mem.data ==
        if arg.mem.flags & 3 != 0 then Read(d.dev.mem, PayloadAt(paddr), |old(arg.mem.data)|) else old(arg.mem.data)
  {
    hide Read, After, Step, Exceeds, Grown;
    next := paddr;
    var sizeBuf;
    var needRead := false;
    match arg {
      case NotUsed(_) =>
        return CL_INVALID_KERNEL, next;
      case Val(_, size, _) =>
        sizeBuf := size;
      case Mem(_, _, m) =>
        if m == null {
          return CL_INVALID_MEM_OBJECT, next;
        }
        sizeBuf := |m.data|;
        if m.CanWrite() {
          needRead := true;
        }
    }
    if Exceeds(comm, paddr, sizeBuf) {
      return CL_OUT_OF_RESOURCES, next;
    }
    GrownNone(d.trace, paddr, ARG_HEADER + sizeBuf);
    next := PayloadAt(next);
    r := CL_SUCCESS;
    if needRead {
      if SlotUnwrapped(paddr, sizeBuf) {
        NextUnwrapped(paddr, sizeBuf);
        GrownOne(d.trace, d.trace, Op.ReadMem(next, sizeBuf), paddr, ARG_HEADER + sizeBuf);
      }
      r, arg.mem.data := d.ReadMem(next, arg.mem.data);
      if r != CL_SUCCESS {
        return;
      }
    }
    next := Align8((next + sizeBuf) % TWO64) % TWO64;
  }

  /** The last of the first `n` arguments that is buffer `m`, or -1. */
  function LastSlot(args: seq<KernArg>, n: nat, m: ClMem): (k: int)
    requires n <= |args|
    ensures -1 <= k < n
    ensures k >= 0 ==> args[k].Mem? && args[k].mem == m
    ensures forall j :: k < j < n ==> !(args[j].Mem? && args[j].mem == m)
  {
    if n == 0 then -1
    else if args[n - 1].Mem? && args[n - 1].mem == m then n - 1
    else LastSlot(args, n - 1, m)
  }

  /** What buffer `m` holds after `n` arguments were read back from `mem`: the bytes of its last slot if the
      kernel may write to it, and what it held before otherwise. */
  function Final(mem: Memory, comm: Comm, sizes: seq<nat>, args: seq<KernArg>, n: nat, m: ClMem,
                 writable: bool, was: seq<byte>): (now: seq<byte>)
    requires n <= |args| == |sizes|
    ensures |now| == |was| && (!writable ==> now == was)
  {
    var k := LastSlot(args, n, m);
    if writable && k >= 0 then Read(mem, Cursor(comm.addr + 16, sizes, k) + 16, |was|) else was
  }

  /** One more argument was read back. */
  function Overlaid(mem: Memory, comm: Comm, sizes: seq<nat>, args: seq<KernArg>, n: nat, m: ClMem,
                    writable: bool, was: seq<byte>): seq<byte>
    requires n < |args| == |sizes|
  {
    if m !in MemsOf(args[n]) then Final(mem, comm, sizes, args, n, m, writable, was)
    else if writable then Read(mem, Cursor(comm.addr + 16, sizes, n) + 16, |was|)
    else was
  }

  lemma FinalOne(mem: Memory, comm: Comm, sizes: seq<nat>, args: seq<KernArg>, n: nat, m: ClMem, w: bool, was: seq<byte>)
    requires n < |args| == |sizes|
    ensures Final(mem, comm, sizes, args, n + 1, m, w, was) == Overlaid(mem, comm, sizes, args, n, m, w, was)
  {
    hide Read, Cursor;
    assert LastSlot(args, n + 1, m) == if m in MemsOf(args[n]) then n else LastSlot(args, n, m);
  }

  ghost predicate SizesMatch(args: seq<KernArg>, sizes: seq<nat>)
    reads Mems(args)
  {
    && |args| == |sizes|
    && forall i :: 0 <= i < |args| ==> Sendable(args[i]) && SizeNow(args[i]) == sizes[i]
  }

  /** The first `n` arguments were read back from `mem`, where `was` is what the buffers held before. */
  ghost predicate Received(mem: Memory, comm: Comm, sizes: seq<nat>, args: seq<KernArg>, n: nat, was: map<ClMem, seq<byte>>)
    reads Mems(args)
  {
    && n <= |args| && SizesMatch(args, sizes)
    && forall m :: m in Mems(args) ==>
         m in was && m.data == Final(mem, comm, sizes, args, n, m, m.flags & 3 != 0, was[m])
  }

  lemma ReceivedNone(mem: Memory, comm: Comm, sizes: seq<nat>, args: seq<KernArg>, was: map<ClMem, seq<byte>>)
    requires SizesMatch(args, sizes)
    requires forall m :: m in Mems(args) ==> m in was && was[m] == m.data
    ensures Received(mem, comm, sizes, args, 0, was)
  {
  }

  /** One argument of the read-back loop. */
  method RecvArg(d: Device, comm: Comm, paddr: nat, arg: KernArg,
                 ghost args: seq<KernArg>, ghost sizes: seq<nat>, ghost n: nat, ghost was: map<ClMem, seq<byte>>)
    returns (r: int, next: nat)
    requires d.Valid() && !d.faulted && !d.dev.running
    requires AllFit(comm, sizes) && forall k :: 0 <= k < |sizes| ==> NoWrap(comm, sizes[k])
    requires n < |args| && arg == args[n] && Received(d.dev.mem, comm, sizes, args, n, was)
    requires paddr == Cursor(comm.addr + 16, sizes, n)
    modifies d, Mems(args)`data
    ensures d.Valid() && d.dev == old(d.dev) && d.past == old(d.past) && d.stops == old(d.stops) && d.origin == old(d.origin)
    ensures Grown(old(d.trace), d.trace, comm.addr, Span(comm))
    ensures SizesMatch(args, sizes)
    ensures r != CL_SUCCESS ==> d.Failed(r)
    ensures r == CL_SUCCESS ==>
      && !d.faulted && Received(d.dev.mem, comm, sizes, args, n + 1, was)
      && next == Cursor(comm.addr + 16, sizes, n + 1)
  {
    hide Read, After, Step, Cursor, AllFit, NoWrap, CursorInside, SlotEnd, Final, LastSlot;
    hide Grown, Paired;
    RecvFits(comm, sizes, n);
    CursorNext(comm.addr + 16, sizes, n);
    hide NextSlot, PayloadAt, Exceeds, Align8, SlotUnwrapped;
    assert MemsOf(arg) <= Mems(args);
    ghost var trace := d.trace;
    GrownNone(trace, comm.addr, Span(comm));
    ExceedsPlain(comm, paddr, sizes[n]);
    NextUnwrapped(paddr, sizes[n]);
    FitsInside(comm, sizes, n);
    r, next := DequeueArg(d, arg, comm, paddr);
    GrownWider(trace, d.trace, paddr, ARG_HEADER + sizes[n], comm.addr, Span(comm));
    if r == CL_SUCCESS {
      forall m | m in Mems(args)
        ensures m.data == Final(d.dev.mem, comm, sizes, args, n + 1, m, m.flags & 3 != 0, was[m])
      {
        FinalOne(d.dev.mem, comm, sizes, args, n, m, m.flags & 3 != 0, was[m]);
      }
    }
  }

  /** The same for argument `n` of a kernel: the name for 0, then what `kern_get_arg` gives. */
  method RecvNth(d: Device, kernel: Kernel, n: nat, comm: Comm, paddr: nat,
                 ghost args: seq<KernArg>, ghost sizes: seq<nat>, ghost was: map<ClMem, seq<byte>>)
    returns (r: int, next: nat)
    requires d.Valid() && !d.faulted && !d.dev.running
    requires kernel.Valid() && args == AllArgs(kernel) && n < |args|
    requires AllFit(comm, sizes) && forall k :: 0 <= k < |sizes| ==> NoWrap(comm, sizes[k])
    requires Received(d.dev.mem, comm, sizes, args, n, was) && SizesMatch(args, sizes)
    requires paddr == Cursor(comm.addr + 16, sizes, n)
    modifies d, Mems(args)`data
    ensures d.Valid() && d.dev == old(d.dev) && d.origin == old(d.origin)
    ensures d.past == old(d.past) && d.stops == old(d.stops)
    ensures Grown(old(d.trace), d.trace, comm.addr, Span(comm))
    ensures SizesMatch(args, sizes)
    ensures r != CL_SUCCESS ==> d.Failed(r)
    ensures r == CL_SUCCESS ==>
      && !d.faulted && Received(d.dev.mem, comm, sizes, args, n + 1, was)
      && next == Cursor(comm.addr + 16, sizes, n + 1)
  {
    hide Read, After, Step, Cursor, AllFit, NoWrap, StrLen, SizesMatch, Final, Received;
    hide Grown, Indexed, Paired, Span;
    next := paddr;
    var arg := NameArg(kernel);
    if n > 0 {
      r, arg := kernel.GetArg(n - 1);
    }
    assert arg == args[n];
    r, next := RecvArg(d, comm, paddr, arg, args, sizes, n, was);
  }

  /** The read-back loop. After a successful send it cannot fail but by a fault of the device, because its
      cursor runs through the same positions. */
  method RecvArgs(d: Device, kernel: Kernel, comm: Comm, ghost args: seq<KernArg>, ghost sizes: seq<nat>)
    returns (r: int)
    requires d.Valid() && !d.faulted && !d.dev.running
    requires kernel.Valid() && args == AllArgs(kernel) && SizesMatch(args, sizes)
    requires AllFit(comm, sizes) && forall k :: 0 <= k < |sizes| ==> NoWrap(comm, sizes[k])
    modifies d, Mems(args)`data
    ensures d.Valid() && d.dev == old(d.dev) && d.origin == old(d.origin)
    ensures d.past == old(d.past) && d.stops == old(d.stops)
    ensures Grown(old(d.trace), d.trace, comm.addr, Span(comm))
    ensures SizesMatch(args, sizes)
    ensures r != CL_SUCCESS ==> d.Failed(r)
    ensures r == CL_SUCCESS ==> !d.faulted && forall m :: m in Mems(args) ==>
      m.data == Final(d.dev.mem, comm, sizes, args, |args|, m, m.flags & 3 != 0, old(m.data))
  {
    hide Read, After, Step, Cursor, AllFit, NoWrap, StrLen, SizesMatch, Final, Received;
    hide Grown, Indexed, Paired, Span;
    ghost var was := map m | m in Mems(args) :: m.data;
    ghost var trace, mid := d.trace, d.trace;
    GrownNone(trace, comm.addr, Span(comm));
    ReceivedNone(d.dev.mem, comm, sizes, args, was);
    SizesMatchLength(args, sizes);
    var paddr := comm.addr + 16;
    CursorStart(comm.addr + 16, sizes);
    r, paddr := RecvNth(d, kernel, 0, comm, paddr, args, sizes, was);
    GrownTwice(trace, mid, d.trace, comm.addr, Span(comm));
    if r != CL_SUCCESS {
      return;
    }
    for i := 0 to kernel.numArgs
      invariant d.Valid() && !d.faulted && d.dev == old(d.dev)
      invariant d.past == old(d.past) && d.stops == old(d.stops) && d.origin == old(d.origin)
      invariant kernel.Valid() && AllArgs(kernel) == args
      invariant Received(d.dev.mem, comm, sizes, args, i + 1, was) && SizesMatch(args, sizes)
      invariant paddr == Cursor(comm.addr + 16, sizes, i + 1) && Grown(trace, d.trace, comm.addr, Span(comm))
    {
      mid := d.trace;
      r, paddr := RecvNth(d, kernel, i + 1, comm, paddr, args, sizes, was);
      GrownTwice(trace, mid, d.trace, comm.addr, Span(comm));
      if r != CL_SUCCESS {
        return;
      }
    }
    ReceivedAll(d.dev.mem, comm, sizes, args, was);
    return CL_SUCCESS;
  }

  lemma SizesMatchLength(args: seq<KernArg>, sizes: seq<nat>)
    requires SizesMatch(args, sizes)
    ensures |args| == |sizes|
  {
  }

  lemma ReceivedAll(mem: Memory, comm: Comm, sizes: seq<nat>, args: seq<KernArg>, was: map<ClMem, seq<byte>>)
    requires Received(mem, comm, sizes, args, |args|, was) && |args| == |sizes|
    ensures forall m :: m in Mems(args) ==>
      m in was && m.data == Final(mem, comm, sizes, args, |args|, m, m.flags & 3 != 0, was[m])
  {
  }

  lemma FitsInside(comm: Comm, sizes: seq<nat>, k: nat)
    requires k < |sizes| && Fits(comm, sizes, k) && NoWrap(comm, sizes[k])
    ensures var c := Cursor(comm.addr + 16, sizes, k);
            && comm.addr <= c < TWO64 && c + 16 + sizes[k] < comm.addr + comm.size <= comm.addr + Span(comm)
  {
    hide Cursor;
  }

  lemma RecvFits(comm: Comm, sizes: seq<nat>, k: nat)
    requires AllFit(comm, sizes) && k < |sizes| && forall i :: 0 <= i < |sizes| ==> NoWrap(comm, sizes[i])
    ensures Fits(comm, sizes, k) && CursorInside(comm, Cursor(comm.addr + 16, sizes, k)) && NoWrap(comm, sizes[k])
  {
    hide Align8, NoWrap, Cursor;
    CursorStart(comm.addr + 16, sizes);
    assert Fits(comm, sizes, k);
    if k > 0 {
      assert Fits(comm, sizes, k - 1);
      CursorNext(comm.addr + 16, sizes, k - 1);
      AlignMonotone(Cursor(comm.addr + 16, sizes, k - 1) + 16 + sizes[k - 1], comm.addr + comm.size);
    }
  }

  // ------------------------------------------------------------------------------------------
  // What a launch leaves alone.

  /** No run of the kernel changes the byte at `a`. */
  ghost predicate KernelKeeps(kernels: Kernels, a: nat) {
    forall n: nat, m: Memory :: Get(kernels(n)(m), a) == Get(m, a)
  }

  predicate InArea(comm: Comm, a: nat) {
    comm.addr <= a < comm.addr + Span(comm)
  }

  /** Only the communication area and what the kernel may change differ. */
  ghost predicate Untouched(kernels: Kernels, comm: Comm, mem: Memory, w: Memory) {
    forall a: nat :: KernelKeeps(kernels, a) && !InArea(comm, a) ==> Get(w, a) == Get(mem, a)
  }

  lemma UntouchedTwice(kernels: Kernels, comm: Comm, mem: Memory, w: Memory, x: Memory)
    requires Untouched(kernels, comm, mem, w) && Untouched(kernels, comm, w, x)
    ensures Untouched(kernels, comm, mem, x)
  {
    hide KernelKeeps;
  }

  lemma UntouchedBySending(kernels: Kernels, comm: Comm, mem: Memory, w: Memory)
    requires SameOutside(mem, w, comm.addr, Span(comm))
    ensures Untouched(kernels, comm, mem, w)
  {
    hide KernelKeeps;
  }

  lemma UntouchedByKernel(kernels: Kernels, comm: Comm, n: nat, mem: Memory)
    ensures Untouched(kernels, comm, mem, kernels(n)(mem))
  {
  }

  lemma UntouchedNot(kernels: Kernels, comm: Comm, mem: Memory)
    ensures Untouched(kernels, comm, mem, mem)
  {
  }

  /** A reset, run or stop, successful or not, does to memory no more than the kernel may do. */
  lemma UntouchedOn(kernels: Kernels, comm: Comm, mem: Memory, was: Dev, now: Dev, op: Op)
    requires Untouched(kernels, comm, mem, was.mem) && !op.WriteMem?
    requires now == Step(kernels, was, op) || Device.Broken(kernels, was, now, op)
    ensures Untouched(kernels, comm, mem, now.mem)
  {
    hide Untouched, KernelKeeps;
    UntouchedNot(kernels, comm, was.mem);
    UntouchedByKernel(kernels, comm, was.runs, was.mem);
    if now != was && now != Step(kernels, was, op) {
      var n: nat :| now == was.(mem := kernels(n)(was.mem));
      UntouchedByKernel(kernels, comm, n, was.mem);
    }
    UntouchedTwice(kernels, comm, mem, was.mem, now.mem);
  }

  /** The hypotheses of the load cache: chunks do not overlap, and neither the kernel nor the communication
      area touches a read-only one. */
  ghost predicate Sane(kernels: Kernels, comm: Comm, chunks: seq<Chunk>) {
    && Disjoint(chunks)
    && forall i, a: nat :: 0 <= i < |chunks| && chunks[i].readonly && InChunk(chunks[i], a) ==>
         KernelKeeps(kernels, a) && !InArea(comm, a)
  }

  lemma SaneCode(kernels: Kernels, comm: Comm, a: seq<Chunk>, b: seq<Chunk>)
    requires Sane(kernels, comm, a) && SameCode(a, b)
    ensures Sane(kernels, comm, b)
  {
    hide KernelKeeps, InArea, Disjoint;
    SameCodeDisjoint(a, b);
    forall i, x: nat | 0 <= i < |b| && b[i].readonly && InChunk(b[i], x)
      ensures KernelKeeps(kernels, x) && !InArea(comm, x)
    {
      assert InChunk(a[i], x);
    }
  }

  lemma CacheUntouched(kernels: Kernels, comm: Comm, mem: Memory, w: Memory, chunks: seq<Chunk>)
    requires Sane(kernels, comm, chunks) && Untouched(kernels, comm, mem, w)
    ensures CacheOk(mem, chunks) ==> CacheOk(w, chunks)
    ensures forall i :: 0 <= i < |chunks| && chunks[i].readonly && Holds(mem, chunks[i]) ==> Holds(w, chunks[i])
  {
    hide KernelKeeps, InArea, Disjoint, Get, Holds, CacheOk;
    forall i | 0 <= i < |chunks| && chunks[i].readonly && Holds(mem, chunks[i])
      ensures Holds(w, chunks[i])
    {
      HoldsKept(mem, w, chunks[i]);
    }
    CacheFromHolds(mem, w, chunks);
  }

  lemma CacheFromHolds(mem: Memory, w: Memory, chunks: seq<Chunk>)
    requires forall i :: 0 <= i < |chunks| && chunks[i].readonly && Holds(mem, chunks[i]) ==> Holds(w, chunks[i])
    ensures CacheOk(mem, chunks) ==> CacheOk(w, chunks)
  {
    hide Holds;
  }

  // ------------------------------------------------------------------------------------------
  // The whole launch.

  /** The load cache is in order in memory `mem`, under its hypotheses. */
  ghost predicate Cached(kernels: Kernels, comm: Comm, chunks: seq<Chunk>, mem: Memory) {
    Sane(kernels, comm, chunks) && CacheOk(mem, chunks)
  }

  lemma CachedThrough(kernels: Kernels, comm: Comm, mem: Memory, w: Memory, chunks: seq<Chunk>)
    requires Cached(kernels, comm, chunks, mem) && Untouched(kernels, comm, mem, w)
    ensures Cached(kernels, comm, chunks, w)
  {
    hide Sane, CacheOk, Holds, Untouched;
    CacheUntouched(kernels, comm, mem, w, chunks);
  }

  /** What a launch went through: whether the reset succeeded, memory after a successful one, whether the chunk loop was
      completed, memory after it, and memory before the first run. */
  datatype Stages = Stages(halted: bool, base: Memory, complete: bool, loaded: Memory, sent: Memory)

  /** The stages of a launch between two moments of a device. `given` is what the device's runs were given, and this
      launch caused `runs` of them, from number `k` on. */
  ghost predicate Anchored(kernels: Kernels, comm: Comm, from: Moment, to: Moment, given: seq<Memory>, k: nat, runs: nat, st: Stages) {
    && st.base == Step(kernels, from.dev, Op.Reset).mem
    && (st.complete || to.faulted)
    && (st.complete ==> Untouched(kernels, comm, st.loaded, to.dev.mem))
    && (st.complete && runs == 0 ==> SameOutside(st.loaded, to.dev.mem, comm.addr, Span(comm)))
    && (runs > 0 ==>
          && st.complete && k < |given| && given[k] == st.sent
          && SameOutside(st.loaded, st.sent, comm.addr, Span(comm)))
  }

  /** The chunks that do not share a byte with the communication area are in memory. */
  ghost predicate HeldApart(chunks: seq<Chunk>, comm: Comm, mem: Memory) {
    forall i :: 0 <= i < |chunks| && Apart(chunks[i].paddr, |chunks[i].bytes|, comm.addr, Span(comm)) ==>
      Holds(mem, chunks[i])
  }

  lemma HeldAfterSending(mem0: Memory, loaded: Memory, sent: Memory, chunks: seq<Chunk>, comm: Comm)
    requires Loaded(mem0, loaded, chunks) && SameOutside(loaded, sent, comm.addr, Span(comm))
    ensures HeldApart(chunks, comm, sent)
  {
    hide Read, SameOutside, SameBytes;
    forall i | 0 <= i < |chunks| && Apart(chunks[i].paddr, |chunks[i].bytes|, comm.addr, Span(comm))
      ensures Holds(sent, chunks[i])
    {
      assert Holds(loaded, chunks[i]);
      ReadSame(loaded, sent, comm.addr, Span(comm), chunks[i].paddr, |chunks[i].bytes|);
    }
  }

  /** From the reset to the last byte sent. */
  method Prepare(d: Device, kernel: Kernel, prg: Program, ghost args: seq<KernArg>, ghost es: seq<Entry>)
    returns (r: int, ghost st: Stages)
    requires Snapshot(kernel, args, es) && d !in Owned(kernel) && prg.chunks !in Owned(kernel) && prg.Valid()
    requires forall k :: 0 <= k < |es| ==> NoWrap(prg.comm, |es[k].data|)
    modifies d, prg.chunks
    ensures d.Valid() && d.stops == old(d.stops)
    ensures d.past == old(d.past).(resets := old(d.past.resets) + [ResetCall(old(d.Now()), st.halted)])
    ensures SameCode(old(prg.chunks[..]), prg.chunks[..])
    ensures st.complete ==>
      && st.halted && Grown(Opening(old(prg.chunks[..])), d.trace, prg.comm.addr, Span(prg.comm))
      && SameOutside(st.loaded, d.dev.mem, prg.comm.addr, Span(prg.comm))
    ensures !st.complete ==> d.Failed(r) && !(st.halted && Opening(old(prg.chunks[..])) <= d.trace)
    ensures st.base == Step(d.env.kernels, old(d.dev), Op.Reset).mem
    ensures r == CL_SUCCESS ==>
      && !d.faulted && !d.dev.running && d.origin == old(d.dev) && st.complete && st.sent == d.dev.mem
      && Sent(st.loaded, st.sent, prg.comm, es, |es|) && AllSendable(args, |es|)
      && Snapshot(kernel, args, es) && AllLoaded(prg.chunks[..])
    ensures r != CL_SUCCESS ==> d.Failed(r) || (!d.faulted && st.complete && Refused(args, prg.comm, es, r))
    ensures Cached(d.env.kernels, prg.comm, old(prg.chunks[..]), old(d.dev.mem)) ==>
      && Cached(d.env.kernels, prg.comm, prg.chunks[..], d.dev.mem)
      && (st.complete ==> Loaded(st.base, st.loaded, prg.chunks[..]))
  {
    hide Snapshot, Refused, AllSendable, Sent, SameOutside, Untouched, NoWrap, After, Step;
    hide Cached, Sane, SameCode, Traffic, Loaded, Passed, AllLoaded, Grown;
    ghost var kernels, comm, was, before := d.env.kernels, prg.comm, prg.chunks[..], d.dev;
    ghost var good := Cached(kernels, comm, was, before.mem);
    st := Stages(false, Step(kernels, before, Op.Reset).mem, false, before.mem, before.mem);
    SameCodeSelf(was);
    UntouchedNot(kernels, comm, before.mem);
    r := d.Reset();
    UntouchedOn(kernels, comm, before.mem, before, d.dev, Op.Reset);
    if good {
      CachedThrough(kernels, comm, before.mem, d.dev.mem, was);
    }
    if r != CL_SUCCESS {
      return;
    }
    st := st.(halted := true);
    CachedCache(kernels, comm, was, d.dev.mem);
    ghost var n;
    r, n := LoadChunks(d, prg);
    PassedCode(was, prg.chunks[..], n);
    if good {
      CachedLoaded(kernels, comm, was, prg.chunks[..], d.dev.mem);
    }
    if r != CL_SUCCESS {
      OpeningShort(was, n);
      return;
    }
    st := st.(complete := true, loaded := d.dev.mem);
    ghost var mid := d.trace;
    r := SendArgs(d, kernel, prg.comm, args, es);
    st := st.(sent := d.dev.mem);
    UntouchedBySending(kernels, comm, st.loaded, d.dev.mem);
    if good {
      CachedThrough(kernels, comm, st.loaded, d.dev.mem, prg.chunks[..]);
    }
  }

  /** The operations up to the end of the chunk loop. */
  function Opening(chunks: seq<Chunk>): seq<Op> {
    [Op.Reset] + Traffic(chunks, |chunks|)
  }

  lemma OpeningShort(chunks: seq<Chunk>, n: nat)
    requires n < |chunks| && TrafficOf(chunks[n]) != []
    ensures !(Opening(chunks) <= [Op.Reset] + Traffic(chunks, n))
  {
    hide TrafficOf, Traffic;
    TrafficShort(chunks, n, |chunks|);
  }

  lemma SameCodeSelf(a: seq<Chunk>)
    ensures SameCode(a, a)
  {
  }

  lemma CachedCache(kernels: Kernels, comm: Comm, chunks: seq<Chunk>, mem: Memory)
    ensures Cached(kernels, comm, chunks, mem) ==>
      Disjoint(chunks) && CacheOk(mem, chunks) && Sane(kernels, comm, chunks)
  {
  }

  lemma CachedLoaded(kernels: Kernels, comm: Comm, was: seq<Chunk>, now: seq<Chunk>, mem: Memory)
    requires Sane(kernels, comm, was) && SameCode(was, now) && CacheOk(mem, now)
    ensures Cached(kernels, comm, now, mem)
  {
    SaneCode(kernels, comm, was, now);
  }

  ghost function Datas(mems: set<ClMem>): map<ClMem, seq<byte>>
    reads mems
  {
    map m | m in mems :: m.data
  }

  /** The buffers were read back from `mem`, where `was` is what they held before. */
  ghost predicate Restored(mem: Memory, comm: Comm, sizes: seq<nat>, args: seq<KernArg>, was: map<ClMem, seq<byte>>)
    requires |args| == |sizes|
    reads Mems(args)
  {
    forall m :: m in Mems(args) ==>
      m in was && m.data == Final(mem, comm, sizes, args, |args|, m, m.flags & 3 != 0, was[m])
  }

  /** After `n` runs from memory `sent` on the device is halted, and the last of them is the first that left the done
      flag set. */
  ghost predicate Finished(kernels: Kernels, comm: Comm, sent: Memory, d: Dev, n: nat) {
    && n >= 1 && !d.running && RanSince(kernels, sent, d, n)
    && MagicOk(d.mem, comm) && Done(d.mem, comm)
    && Undone(kernels, sent, d.runs - n, n - 1, comm)
  }

  /** Memory is what the last `n` runs of the kernel made of `mem`. */
  ghost predicate RanSince(kernels: Kernels, mem: Memory, d: Dev, n: nat) {
    d.runs >= n && d.mem == Runs(kernels, mem, d.runs - n, n)
  }

  lemma SnapshotSizes(k: Kernel, args: seq<KernArg>, es: seq<Entry>)
    requires Snapshot(k, args, es) && AllSendable(args, |args|)
    ensures k.Valid() && args == AllArgs(k) && SizesMatch(args, Sizes(es))
  {
    hide StrLen;
    forall i | 0 <= i < |args|
      ensures Sendable(args[i]) && SizeNow(args[i]) == |es[i].data|
    {
      NthArg(k, args, es, i);
    }
  }

  /** From the first run to the last byte read back. */
  method Finish(d: Device, kernel: Kernel, comm: Comm, ghost args: seq<KernArg>, ghost sizes: seq<nat>) returns (r: int)
    requires d.Valid() && !d.faulted && !d.dev.running
    requires kernel.Valid() && args == AllArgs(kernel) && SizesMatch(args, sizes)
    requires AllFit(comm, sizes) && forall k :: 0 <= k < |sizes| ==> NoWrap(comm, sizes[k])
    modifies d, Mems(args)`data
    ensures d.Valid() && d.origin == old(d.origin) && RunFrom(old(d.past), d.past, old(d.dev.mem)) && SizesMatch(args, sizes)
    ensures Grown(old(d.trace), d.trace, comm.addr, Span(comm))
    ensures old(d.stops) <= d.stops <= old(d.stops) + POLLS
    ensures |args| == |sizes|
    ensures r == CL_SUCCESS ==>
      var n := d.stops - old(d.stops);
      && !d.faulted && Finished(d.env.kernels, comm, old(d.dev.mem), d.dev, n)
      && |d.past.given| == |old(d.past.given)| + n
      && Restored(d.dev.mem, comm, sizes, args, old(Datas(Mems(args))))
    ensures Untouched(d.env.kernels, comm, old(d.dev.mem), d.dev.mem)
    ensures !d.faulted ==> RanSince(d.env.kernels, old(d.dev.mem), d.dev, d.stops - old(d.stops))
    ensures r != CL_SUCCESS ==> d.Failed(r) || (!d.faulted && r == CL_INVALID_DEVICE)
    ensures r != CL_SUCCESS && !d.faulted ==>
      if d.dev.running then d.stops == old(d.stops) + POLLS else !MagicOk(d.dev.mem, comm)
  {
    hide SizesMatch, AllFit, NoWrap, Untouched, Runs, MagicOk, Done, Undone, Final, RunFrom;
    hide After, Paired, Step, AllArgs, Grown;
    SizesMatchLength(args, sizes);
    ghost var was := d.trace;
    r := RunAndPoll(d, comm);
    if r != CL_SUCCESS {
      return;
    }
    ghost var mid := d.trace;
    r := RecvArgs(d, kernel, comm, args, sizes);
    GrownTwice(was, mid, d.trace, comm.addr, Span(comm));
  }

  /** What the kernel is given: the area reads as exactly these arguments, the name first with the index -1, each
      other one with its own index and type, every direct value with its bytes. */
  ghost predicate Given(mem: Memory, comm: Comm, args: seq<KernArg>, es: seq<Entry>) {
    && AreaReads(mem, comm.addr, es) && AreaHolds(mem, comm.addr + 16, es, |es|) && AllFit(comm, Sizes(es))
    && |es| == |args|
    && forall i :: 0 <= i < |es| ==> Numbered(args[i], es[i], i)
  }

  ghost predicate Numbered(arg: KernArg, e: Entry, i: nat) {
    && e.index == (if i == 0 then 0xFFFF_FFFF else i - 1)
    && e.argtype == (if arg.Val? then 1 else 2)
    && (arg.Val? ==> e.sent)
  }

  lemma GivenAll(k: Kernel, mem0: Memory, mem: Memory, comm: Comm, args: seq<KernArg>, es: seq<Entry>)
    requires Snapshot(k, args, es) && AllSendable(args, |es|) && Sent(mem0, mem, comm, es, |es|)
    requires forall i :: 0 <= i < |es| ==> NoWrap(comm, |es[i].data|)
    ensures Given(mem, comm, args, es) && SameOutside(mem0, mem, comm.addr, Span(comm))
  {
    hide AreaReads, AreaHolds, AreaKeeps, AreaHeader, SameOutside, Read, Cursor, StrLen, Fits, Numbered, Encodable;
    EncodableAll(k, comm, args, es);
    AreaRoundTrip(mem, comm.addr, es);
  }

  /** The same in the numbers of the format and the flags of the buffers: the name and the direct values with their bytes;
      a buffer with bit 0 or bit 2 of its flags set with its bytes; any other buffer with whatever was in its place in
      memory `before` sending. */
  ghost predicate Shown(before: Memory, mem: Memory, addr: nat, cs: seq<Content>) {
    && Read(mem, addr, 4) == [0xe5, 0xaf, 0xdc, 0xba] && Field(mem, addr + 4, 4) == |cs|
    && Read(mem, addr + 8, 8) == [0, 0, 0, 0, 0, 0, 0, 0]
    && forall i :: 0 <= i < |cs| ==> ShownAt(before, mem, Walk(mem, addr + 16, |cs|)[i], cs[i], i)
  }

  ghost predicate ShownAt(before: Memory, mem: Memory, f: Found, c: Content, i: nat) {
    && f.index == (if i == 0 then 0xFFFF_FFFF else i - 1)
    && match c
       case Nothing => false
       case Value(bs) => f.argtype == 1 && f.size == |bs| && Read(mem, f.payload, f.size) == bs
       case Buffer(flags, bs) =>
         && f.argtype == 2 && f.size == |bs|
         && Read(mem, f.payload, f.size) == if flags & 5 != 0 then bs else Read(before, f.payload, f.size)
  }

  lemma ShownAll(k: Kernel, mem0: Memory, mem: Memory, comm: Comm, args: seq<KernArg>, es: seq<Entry>, cs: seq<Content>)
    requires Snapshot(k, args, es) && AllSendable(args, |es|) && Sent(mem0, mem, comm, es, |es|)
    requires forall i :: 0 <= i < |es| ==> NoWrap(comm, |es[i].data|)
    requires Given(mem, comm, args, es) && Holding(args, es, cs)
    ensures Shown(mem0, mem, comm.addr, cs)
  {
    hide AreaHolds, AreaHeader, SameOutside, Read, Cursor, StrLen, Fits, Walk, EntryHas, SlotKeeps, EntryOrBlank;
    forall i | 0 <= i < |es|
      ensures ShownAt(mem0, mem, Walk(mem, comm.addr + 16, |es|)[i], cs[i], i)
    {
      assert Sendable(args[i]) && EntryHas(es[i], cs[i]);
      assert Numbered(args[i], es[i], i);
      EncodableAll(k, comm, args, es);
      ReaderRecovers(mem, comm.addr + 16, es, i);
      assert SlotKeeps(mem0, mem, Cursor(comm.addr + 16, Sizes(es), i), es[i]);
      ShownOne(mem0, mem, Cursor(comm.addr + 16, Sizes(es), i), Walk(mem, comm.addr + 16, |es|)[i], es[i], cs[i], i);
    }
  }

  lemma ShownOne(mem0: Memory, mem: Memory, at: nat, f: Found, e: Entry, c: Content, i: nat)
    requires EntryReads(mem, f, e) && EntryHas(e, c) && c != Nothing && f.payload == at + 16 && SlotKeeps(mem0, mem, at, e)
    requires f.index == if i == 0 then 0xFFFF_FFFF else i - 1
    ensures ShownAt(mem0, mem, f, c, i)
  {
    hide Read;
  }

  lemma EncodableAll(k: Kernel, comm: Comm, args: seq<KernArg>, es: seq<Entry>)
    requires Snapshot(k, args, es) && AllSendable(args, |es|)
    requires forall i :: 0 <= i < |es| ==> NoWrap(comm, |es[i].data|)
    ensures forall i :: 0 <= i < |es| ==> Numbered(args[i], es[i], i) && Encodable(es[i])
  {
    hide StrLen;
    forall i | 0 <= i < |es|
      ensures Numbered(args[i], es[i], i) && Encodable(es[i])
    {
      NthArg(k, args, es, i);
      assert NoWrap(comm, |es[i].data|);
      if i > 0 {
        assert k.Args()[i - 1] == BLANK || k.Args()[i - 1].index == i - 1;
      }
    }
  }

  lemma AnchoredUnrun(kernels: Kernels, comm: Comm, from: Moment, to: Moment, given: seq<Memory>, st: Stages)
    requires st.base == Step(kernels, from.dev, Op.Reset).mem && (st.complete || to.faulted)
    requires st.complete ==> SameOutside(st.loaded, to.dev.mem, comm.addr, Span(comm))
    ensures Anchored(kernels, comm, from, to, given, |given|, 0, st)
  {
    hide Step, Untouched, SameOutside;
    if st.complete {
      UntouchedBySending(kernels, comm, st.loaded, to.dev.mem);
    }
  }

  lemma AnchoredRun(kernels: Kernels, comm: Comm, from: Moment, to: Moment, was: History, now: History, st: Stages)
    requires st.base == Step(kernels, from.dev, Op.Reset).mem && st.complete
    requires SameOutside(st.loaded, st.sent, comm.addr, Span(comm)) && Untouched(kernels, comm, st.sent, to.dev.mem)
    requires RunFrom(was, now, st.sent)
    ensures was.resets == now.resets && was.given <= now.given && |was.given| < |now.given|
    ensures Anchored(kernels, comm, from, to, now.given, |was.given|, |now.given| - |was.given|, st)
  {
    hide Step, Untouched, SameOutside;
    UntouchedBySending(kernels, comm, st.loaded, st.sent);
    UntouchedTwice(kernels, comm, st.loaded, st.sent, to.dev.mem);
  }

  /** `in_clEnqueueNDRangeKernel`.

      The device methods can only be called while it is halted, so every read and write of device memory, on
      every path and after any fault, meets a halted device. On success the device is halted after as many
      stops as runs, the kernel was shown (in `st.sent`) the area with every argument, and each buffer it may write
      holds what it left in the buffer's last slot. The load cache stays in order whatever happens, and whenever
      the chunk loop is completed, memory is as if every chunk had been written. */
  method EnqueueNDRangeKernel(d: Device, kernel: Kernel, prg: Program)
    returns (r: int, ghost args: seq<KernArg>, ghost es: seq<Entry>, ghost st: Stages)
    requires Ready(kernel) && d !in Owned(kernel) && prg.chunks !in Owned(kernel) && prg.Valid()
    requires forall i :: 0 <= i < |AllArgs(kernel)| ==> NoWrap(prg.comm, |EntryOrBlank(AllArgs(kernel)[i]).data|)
    modifies d, prg.chunks, Mems(AllArgs(kernel))`data
    ensures args == old(AllArgs(kernel)) && |es| == |args|
    ensures forall i :: 0 <= i < |es| ==> es[i] == old(EntryOrBlank(args[i]))
    ensures var name := es[0].data;
            name != [] && name <= old(kernel.name.data) && name[|name| - 1] == 0 && 0 !in name[..|name| - 1]
    ensures d.Valid() && old(d.stops) <= d.stops <= old(d.stops) + 10000
    ensures old(d.past.given) <= d.past.given
    ensures d.past.resets == old(d.past.resets) + [ResetCall(old(d.Now()), st.halted)]
    ensures Anchored(d.env.kernels, prg.comm, old(d.Now()), d.Now(), d.past.given, |old(d.past.given)|,
                     |d.past.given| - |old(d.past.given)|, st)
    ensures st.complete <==> st.halted && Opening(old(prg.chunks[..])) <= d.trace
    ensures SameLengths(old(Mems(AllArgs(kernel))))
    ensures r == CL_SUCCESS ==>
      var n := d.stops - old(d.stops);
      && d.origin == old(d.dev) && !d.faulted && n >= 1 && |d.past.given| == |old(d.past.given)| + n
      && Finished(d.env.kernels, prg.comm, st.sent, d.dev, n)
      && Restored(d.dev.mem, prg.comm, Sizes(es), args, old(Datas(Mems(AllArgs(kernel)))))
      && Grown(Opening(old(prg.chunks[..])), d.trace, prg.comm.addr, Span(prg.comm))
    ensures |d.past.given| > |old(d.past.given)| ==>
      && AllSendable(args, |args|) && AllLoaded(prg.chunks[..])
      && Given(st.sent, prg.comm, args, es)
      && Shown(st.loaded, st.sent, prg.comm.addr, old(Contents(AllArgs(kernel))))
      && (!d.faulted ==> RanSince(d.env.kernels, st.sent, d.dev, d.stops - old(d.stops)))
    ensures r != CL_SUCCESS ==>
      || d.Failed(r)
      || (!d.faulted && st.complete && Refused(args, prg.comm, es, r))
      || (!d.faulted && st.complete && r == CL_INVALID_DEVICE
          && if d.dev.running then d.stops == old(d.stops) + 10000 else !MagicOk(d.dev.mem, prg.comm))
    ensures SameCode(old(prg.chunks[..]), prg.chunks[..])
    ensures Cached(d.env.kernels, prg.comm, old(prg.chunks[..]), old(d.dev.mem)) ==>
      && Cached(d.env.kernels, prg.comm, prg.chunks[..], d.dev.mem)
      && (st.complete ==> Loaded(st.base, st.loaded, prg.chunks[..]))
      && (|d.past.given| > |old(d.past.given)| ==> HeldApart(prg.chunks[..], prg.comm, st.sent))
  {
    hide AllSendable, Refused, Sent, SameOutside, Untouched, NoWrap, After, Paired, Step, Cached, SameCode;
    hide Snapshot, AreaHolds, AllFit, AreaHeader, Read, Final, Runs, MagicOk, Done, SizesMatch, SlotSize;
    hide Given, Shown, ContentOf, Holding, Loaded, HeldApart, Grown, Opening, AllLoaded, Undone, StrLen, RanSince;
    hide Anchored, RunFrom, Further, Restored, Datas, Finished, Indexed;
    args := AllArgs(kernel);
    es := Snap(args);
    ghost var cs := Contents(args);
    NameEntry(kernel, args, es);
    SnapshotNow(kernel, args, es);
    HoldingNow(kernel, args, es);
    ghost var kernels, comm := d.env.kernels, prg.comm;
    ghost var good, from := Cached(kernels, comm, prg.chunks[..], d.dev.mem), d.Now();
    r, st := Prepare(d, kernel, prg, args, es);
    if st.complete {
      GrownPrefix(Opening(old(prg.chunks[..])), d.trace, comm.addr, Span(comm));
    }
    AnchoredUnrun(kernels, comm, from, d.Now(), d.past.given, st);
    if r != CL_SUCCESS {
      return;
    }
    ghost var past := d.past;
    GivenAll(kernel, st.loaded, st.sent, comm, args, es);
    ShownAll(kernel, st.loaded, st.sent, comm, args, es, cs);
    SentFits(st.loaded, st.sent, comm, es);
    SnapshotSizes(kernel, args, es);
    LengthsAre(args, Sizes(es));
    ghost var mid := d.trace;
    r := Finish(d, kernel, prg.comm, args, Sizes(es));
    LengthsAre(args, Sizes(es));
    GrownTwice(Opening(old(prg.chunks[..])), mid, d.trace, comm.addr, Span(comm));
    GrownPrefix(Opening(old(prg.chunks[..])), d.trace, comm.addr, Span(comm));
    AnchoredRun(kernels, comm, from, d.Now(), past, d.past, st);
    if good {
      CachedThrough(kernels, comm, st.sent, d.dev.mem, prg.chunks[..]);
      HeldAfterSending(st.base, st.loaded, st.sent, prg.chunks[..], comm);
    }
  }

  lemma NameEntry(k: Kernel, args: seq<KernArg>, es: seq<Entry>)
    requires Ready(k) && args == AllArgs(k) && |es| == |args| && es[0] == EntryOrBlank(args[0])
    ensures var name := es[0].data;
            name != [] && name <= k.name.data && name[|name| - 1] == 0 && 0 !in name[..|name| - 1]
  {
    NameUsable(k);
  }

  /** Buffers are not resized. */
  twostate predicate SameLengths(mems: set<ClMem>)
    reads mems
  {
    forall m :: m in mems ==> |m.data| == old(|m.data|)
  }

  /** A buffer among the arguments has the size of its slot. */
  ghost function SlotSize(args: seq<KernArg>, sizes: seq<nat>, m: ClMem): nat
    requires |args| == |sizes| && m in Mems(args)
  {
    var i :| 0 <= i < |args| && m in MemsOf(args[i]);
    sizes[i]
  }

  lemma LengthsAre(args: seq<KernArg>, sizes: seq<nat>)
    requires SizesMatch(args, sizes)
    ensures |args| == |sizes| && forall m :: m in Mems(args) ==> |m.data| == SlotSize(args, sizes, m)
  {
    forall m | m in Mems(args)
      ensures |m.data| == SlotSize(args, sizes, m)
    {
      var i :| 0 <= i < |args| && m in MemsOf(args[i]) && sizes[i] == SlotSize(args, sizes, m);
      assert SizeNow(args[i]) == sizes[i];
    }
  }

  lemma SnapshotNow(k: Kernel, args: seq<KernArg>, es: seq<Entry>)
    requires Ready(k) && args == AllArgs(k) && |es| == |args|
    requires forall i :: 0 <= i < |es| ==> es[i] == EntryOrBlank(args[i])
    ensures Snapshot(k, args, es)
  {
  }

  ghost function Snap(args: seq<KernArg>): (es: seq<Entry>)
    reads set i, o | 0 <= i < |args| && o in Refs(args[i]) :: o
    ensures |es| == |args| && forall i :: 0 <= i < |es| ==> es[i] == EntryOrBlank(args[i])
  {
    seq(|args|, i requires 0 <= i < |args| reads (if 0 <= i < |args| then Refs(args[i]) else {}) => EntryOrBlank(args[i]))
  }

  lemma SentFits(mem0: Memory, mem: Memory, comm: Comm, es: seq<Entry>)
    requires Sent(mem0, mem, comm, es, |es|)
    ensures AreaHolds(mem, comm.addr + 16, es, |es|) && Read(mem, comm.addr, 16) == AreaHeader(|es|)
    ensures AllFit(comm, Sizes(es))
  {
  }

  // ------------------------------------------------------------------------------------------
  // Sequences of launches.

  ghost predicate Launchable(k: Kernel, d: Device, prg: Program)
    reads k, k.args, prg, Owned(k)
  {
    && Ready(k) && d !in Owned(k) && prg.chunks !in Owned(k)
    && forall i :: 0 <= i < |AllArgs(k)| ==> NoWrap(prg.comm, |EntryOrBlank(AllArgs(k)[i]).data|)
  }

  /** The buffers `mems` have these sizes. */
  ghost predicate SizedBy(mems: set<ClMem>, sizes: map<ClMem, nat>)
    reads mems
  {
    forall m :: m in mems ==> m in sizes && |m.data| == sizes[m]
  }

  /** The size of a slot, given the sizes of the buffers. */
  ghost function SlotBy(arg: KernArg, sizes: map<ClMem, nat>): nat {
    match arg
    case NotUsed(_) => 0
    case Val(_, size, _) => size
    case Mem(_, _, m) => if m != null && m in sizes then sizes[m] else 0
  }

  ghost predicate Planned(k: Kernel, comm: Comm, sizes: map<ClMem, nat>)
    reads k, k.name, k.args
  {
    forall i :: 0 <= i < |AllArgs(k)| ==> NoWrap(comm, SlotBy(AllArgs(k)[i], sizes))
  }

  /** A kernel stays ready to be launched as long as its buffers keep their sizes. */
  lemma LaunchableBy(k: Kernel, d: Device, prg: Program, mems: set<ClMem>, sizes: map<ClMem, nat>)
    requires Ready(k) && d !in Owned(k) && prg.chunks !in Owned(k)
    requires Mems(AllArgs(k)) <= mems && SizedBy(mems, sizes)
    ensures Launchable(k, d, prg) <==> Planned(k, prg.comm, sizes)
  {
    hide NoWrap;
    var args := AllArgs(k);
    forall i | 0 <= i < |args|
      ensures |EntryOrBlank(args[i]).data| == SlotBy(args[i], sizes)
    {
      NameUsable(k);
      assert i > 0 ==> args[i] == k.Args()[i - 1];
      assert Usable(args[i]);
      if args[i].Mem? && args[i].mem != null {
        assert args[i].mem in MemsOf(args[i]);
      }
    }
  }

  lemma SameCodeTwice(a: seq<Chunk>, b: seq<Chunk>, c: seq<Chunk>)
    requires SameCode(a, b) && SameCode(b, c)
    ensures SameCode(a, c)
  {
  }

  /** The result of one launch, how often it ran the device, and the stages it went through. */
  datatype Launched = Launched(r: int, runs: nat, st: Stages)

  /** After the completed chunk loop every chunk was in memory, and memory was as if all of them had been written; the
      kernel was given all chunks but where the communication area lies over them. */
  ghost predicate LaunchedWell(chunks: seq<Chunk>, comm: Comm, l: Launched) {
    && (l.runs > 0 ==> HeldApart(chunks, comm, l.st.sent))
    && (l.st.complete ==> Loaded(l.st.base, l.st.loaded, chunks))
  }

  ghost predicate AllWell(chunks: seq<Chunk>, comm: Comm, log: seq<Launched>) {
    forall i :: 0 <= i < |log| ==> LaunchedWell(chunks, comm, log[i])
  }

  function TotalRuns(log: seq<Launched>): nat {
    if log == [] then 0 else TotalRuns(log[..|log| - 1]) + log[|log| - 1].runs
  }

  lemma AllWellSnoc(a: seq<Chunk>, b: seq<Chunk>, comm: Comm, log: seq<Launched>, l: Launched)
    requires AllWell(a, comm, log) && SameCode(a, b) && LaunchedWell(b, comm, l)
    ensures AllWell(b, comm, log + [l])
  {
    hide SameCode, Loaded, HeldApart;
    forall i | 0 <= i < |log + [l]|
      ensures LaunchedWell(b, comm, (log + [l])[i])
    {
      if i < |log| {
        assert LaunchedWell(a, comm, log[i]);
        var st := log[i].st;
        if st.complete {
          LoadedSame(st.base, st.loaded, a, b);
        }
        if log[i].runs > 0 {
          HeldSame(a, b, comm, st.sent);
        }
      }
    }
  }

  lemma HeldSame(a: seq<Chunk>, b: seq<Chunk>, comm: Comm, mem: Memory)
    requires SameCode(a, b) && HeldApart(a, comm, mem)
    ensures HeldApart(b, comm, mem)
  {
    hide Read;
    forall i | 0 <= i < |b| && Apart(b[i].paddr, |b[i].bytes|, comm.addr, Span(comm))
      ensures Holds(mem, b[i])
    {
      assert Holds(mem, a[i]);
    }
  }

  ghost predicate AllLaunchable(kernels: seq<Kernel>, d: Device, prg: Program, mems: set<ClMem>)
    reads set k | k in kernels, set k | k in kernels :: k.args, prg, set k, o | k in kernels && o in Owned(k) :: o
  {
    forall k :: k in kernels ==> Launchable(k, d, prg) && Mems(AllArgs(k)) <= mems
  }

  /** One launch of the sequence leaves all kernels ready to be launched. */
  method LaunchOne(d: Device, kernels: seq<Kernel>, i: nat, prg: Program, ghost mems: set<ClMem>)
    returns (r: int, ghost l: Launched)
    requires d.Valid() && prg.Valid() && i < |kernels| && AllLaunchable(kernels, d, prg, mems)
    modifies d, prg.chunks, mems`data
    ensures d.Valid() && AllLaunchable(kernels, d, prg, mems)
    ensures old(d.stops) <= d.stops <= old(d.stops) + POLLS
    ensures l.r == r && (r == CL_SUCCESS ==> l.runs > 0 && !d.faulted)
    ensures d.past.resets == old(d.past.resets) + [ResetCall(old(d.Now()), l.st.halted)]
    ensures old(d.past.given) <= d.past.given && |d.past.given| == |old(d.past.given)| + l.runs
    ensures Anchored(d.env.kernels, prg.comm, old(d.Now()), d.Now(), d.past.given, |old(d.past.given)|, l.runs, l.st)
    ensures SameCode(old(prg.chunks[..]), prg.chunks[..])
    ensures Cached(d.env.kernels, prg.comm, old(prg.chunks[..]), old(d.dev.mem)) ==>
      && Cached(d.env.kernels, prg.comm, prg.chunks[..], d.dev.mem)
      && LaunchedWell(prg.chunks[..], prg.comm, l)
  {
    hide Cached, SameCode, NoWrap, Given, SameOutside, Loaded, HeldApart, Grown, Opening, Step, Anchored, Indexed;
    hide RanSince, Restored, Datas, Shown, Contents;
    hide MagicOk, Refused, EntryOrBlank, Planned, AllSendable, AllLoaded, Finished, StrLen;
    ghost var args, es, st;
    ghost var sizes := map m | m in mems :: |m.data|;
    forall k | k in kernels
      ensures Planned(k, prg.comm, sizes)
    {
      LaunchableBy(k, d, prg, mems, sizes);
    }
    assert Launchable(kernels[i], d, prg);
    r, args, es, st := EnqueueNDRangeKernel(d, kernels[i], prg);
    l := Launched(r, |d.past.given| - |old(d.past.given)|, st);
    forall k | k in kernels
      ensures Launchable(k, d, prg) && Mems(AllArgs(k)) <= mems
    {
      LaunchableBy(k, d, prg, mems, sizes);
    }
  }

  /** The device before each launch of the log, as its resets recorded it, and after the last one. */
  ghost function Moments(resets: seq<ResetCall>, now: Moment): (ms: seq<Moment>)
    ensures |ms| == |resets| + 1 && ms[|resets|] == now
    ensures forall i :: 0 <= i < |resets| ==> ms[i] == resets[i].before
  {
    seq(|resets| + 1, i requires 0 <= i <= |resets| => if i < |resets| then resets[i].before else now)
  }

  /** Every launch of the log is anchored to the device: to its own reset call, to the next one or the present, and to
      what its own runs were given. */
  ghost predicate AllAnchored(kernels: Kernels, comm: Comm, ms: seq<Moment>, given: seq<Memory>, k: nat, log: seq<Launched>) {
    && |ms| == |log| + 1
    && forall i :: 0 <= i < |log| ==> AnchoredAt(kernels, comm, ms, given, k, log, i)
  }

  ghost predicate AnchoredAt(kernels: Kernels, comm: Comm, ms: seq<Moment>, given: seq<Memory>, k: nat, log: seq<Launched>, i: nat)
    requires i < |log| < |ms|
  {
    && Anchored(kernels, comm, ms[i], ms[i + 1], given, k + TotalRuns(log[..i]), log[i].runs, log[i].st)
    && (log[i].r == CL_SUCCESS ==> log[i].runs > 0 && !ms[i + 1].faulted)
  }

  lemma AllAnchoredSnoc(kernels: Kernels, comm: Comm, resets: seq<ResetCall>, call: ResetCall, now: Moment,
                        given: seq<Memory>, more: seq<Memory>, k: nat, log: seq<Launched>, l: Launched)
    requires AllAnchored(kernels, comm, Moments(resets, call.before), given, k, log) && given <= more
    requires Anchored(kernels, comm, call.before, now, more, k + TotalRuns(log), l.runs, l.st)
    requires l.r == CL_SUCCESS ==> l.runs > 0 && !now.faulted
    ensures AllAnchored(kernels, comm, Moments(resets + [call], now), more, k, log + [l])
  {
    hide Untouched, SameOutside, Step, TotalRuns;
    var was, ms, all := Moments(resets, call.before), Moments(resets + [call], now), log + [l];
    forall i | 0 <= i < |all|
      ensures AnchoredAt(kernels, comm, ms, more, k, all, i)
    {
      if i < |log| {
        assert AnchoredAt(kernels, comm, was, given, k, log, i);
        assert all[..i] == log[..i] && ms[i] == was[i] && ms[i + 1] == was[i + 1];
      } else {
        assert all[..i] == log && ms[i] == call.before && ms[i + 1] == now;
      }
    }
  }

  /** Any sequence of launches of one program on one device, whatever fails in between: the load cache agrees with
      always loading everything. The memories in the log are those that the device itself recorded. */
  method LaunchAll(d: Device, kernels: seq<Kernel>, prg: Program, ghost mems: set<ClMem>)
    returns (rs: seq<int>, ghost log: seq<Launched>)
    requires d.Valid() && prg.Valid() && AllLaunchable(kernels, d, prg, mems)
    modifies d, prg.chunks, mems`data
    ensures d.Valid() && |rs| == |log| == |kernels| && forall i :: 0 <= i < |rs| ==> log[i].r == rs[i]
    ensures old(d.past.resets) <= d.past.resets && |d.past.resets| == |old(d.past.resets)| + |kernels|
    ensures old(d.past.given) <= d.past.given && |d.past.given| == |old(d.past.given)| + TotalRuns(log)
    ensures AllAnchored(d.env.kernels, prg.comm, Moments(d.past.resets[|old(d.past.resets)|..], d.Now()),
                        d.past.given, |old(d.past.given)|, log)
    ensures old(d.stops) <= d.stops <= old(d.stops) + POLLS * |kernels|
    ensures SameCode(old(prg.chunks[..]), prg.chunks[..])
    ensures Cached(d.env.kernels, prg.comm, old(prg.chunks[..]), old(d.dev.mem)) ==>
      && Cached(d.env.kernels, prg.comm, prg.chunks[..], d.dev.mem)
      && AllWell(prg.chunks[..], prg.comm, log)
  {
    hide Cached, SameCode, AllWell, LaunchedWell, AllLaunchable, Step, AllAnchored, Anchored, Moments;
    ghost var was, mem0, comm, first := prg.chunks[..], d.dev.mem, prg.comm, d.past;
    rs, log := [], [];
    SameCodeSelf(was);
    AllWellNone(was, comm);
    AllAnchoredNone(d.env.kernels, comm, d.Now(), d.past.given, |first.given|);
    ghost var calls: seq<ResetCall> := [];
    for i := 0 to |kernels|
      invariant d.Valid() && |rs| == |log| == |calls| == i && AllLaunchable(kernels, d, prg, mems)
      invariant forall j :: 0 <= j < i ==> log[j].r == rs[j]
      invariant d.past.resets == first.resets + calls
      invariant first.given <= d.past.given && |d.past.given| == |first.given| + TotalRuns(log)
      invariant AllAnchored(d.env.kernels, comm, Moments(calls, d.Now()), d.past.given, |first.given|, log)
      invariant old(d.stops) <= d.stops <= old(d.stops) + POLLS * i
      invariant SameCode(was, prg.chunks[..])
      invariant Cached(d.env.kernels, comm, was, mem0) ==>
        Cached(d.env.kernels, comm, prg.chunks[..], d.dev.mem) && AllWell(prg.chunks[..], comm, log)
    {
      ghost var before, given, call := prg.chunks[..], d.past.given, d.Now();
      var r;
      ghost var l;
      r, l := LaunchOne(d, kernels, i, prg, mems);
      SameCodeTwice(was, before, prg.chunks[..]);
      if Cached(d.env.kernels, comm, was, mem0) {
        AllWellSnoc(before, prg.chunks[..], comm, log, l);
      }
      ghost var reset := ResetCall(call, l.st.halted);
      AllAnchoredSnoc(d.env.kernels, comm, calls, reset, d.Now(), given, d.past.given, |first.given|, log, l);
      assert (log + [l])[..i] == log;
      assert first.resets + calls + [reset] == first.resets + (calls + [reset]);
      rs, log, calls := rs + [r], log + [l], calls + [reset];
    }
    assert d.past.resets[|first.resets|..] == calls;
  }

  lemma AllAnchoredNone(kernels: Kernels, comm: Comm, now: Moment, given: seq<Memory>, k: nat)
    ensures AllAnchored(kernels, comm, Moments([], now), given, k, [])
  {
  }

  lemma AllWellNone(chunks: seq<Chunk>, comm: Comm)
    ensures AllWell(chunks, comm, [])
  {
  }
}
