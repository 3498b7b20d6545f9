/**
  The communication area that host and kernel share (include/drivers/comm.h): a 16-byte area header, then one
  slot for each argument, a 16-byte header and the payload, each slot starting at the next multiple of eight.
 */
module CommArea {
  import opened Bits
  import opened DeviceMemory

  const COMM_MAGIC: nat := 0xbadcafe5
  const ARG_VAL: nat := 1
  const ARG_MEM: nat := 2

  /** Index of the kernel name, -1 as a `uint32_t`. */
  const NAME_INDEX: nat := 0xFFFF_FFFF

  datatype Comm = Comm(addr: nat, size: nat)

  /** One argument as it is at launch. `sent` says whether its payload is written. */
  datatype Entry = Entry(argtype: nat, index: nat, data: seq<byte>, sent: bool)

  ghost predicate Encodable(e: Entry) {
    e.argtype < 0x1_0000_0000 && e.index < 0x1_0000_0000 && |e.data| < TWO64
  }

  function ArgHeader(e: Entry): (h: seq<byte>)
    ensures |h| == 16
  {
    ToLE(e.argtype, 4) + ToLE(e.index, 4) + ToLE(|e.data|, 8)
  }

  function AreaHeader(numArgs: nat): (h: seq<byte>)
    ensures |h| == 16
  {
    ToLE(COMM_MAGIC, 4) + ToLE(numArgs, 4) + ToLE(0, 4) + ToLE(0, 4)
  }

  // ------------------------------------------------------------------------------------------
  // Layout.

  function SlotEnd(at: nat, size: nat): nat {
    Align8(at + 16 + size)
  }

  /** Where the slot of argument `k` starts. */
  function Cursor(base: nat, sizes: seq<nat>, k: nat): (c: nat)
    requires k <= |sizes|
    ensures c >= base
  {
    if k == 0 then base else SlotEnd(Cursor(base, sizes, k - 1), sizes[k - 1])
  }

  lemma {:induction false} CursorOrder(base: nat, sizes: seq<nat>, j: nat, k: nat)
    requires j < k <= |sizes|
    ensures Cursor(base, sizes, j) + 16 + sizes[j] <= Cursor(base, sizes, k)
    decreases k - j
  {
    if j < k - 1 {
      CursorOrder(base, sizes, j, k - 1);
    }
  }

  lemma {:induction false} CursorAligned(base: nat, sizes: seq<nat>, k: nat)
    requires base % 8 == 0 && k <= |sizes|
    ensures Cursor(base, sizes, k) % 8 == 0
  {
    if k > 0 {
      CursorAligned(base, sizes, k - 1);
    }
  }

  /** The test that lets argument `k` through. */
  predicate Fits(comm: Comm, sizes: seq<nat>, k: nat)
    requires k < |sizes|
  {
    Cursor(comm.addr + 16, sizes, k) + 16 + sizes[k] < comm.addr + comm.size
  }

  ghost predicate AllFit(comm: Comm, sizes: seq<nat>) {
    forall k :: 0 <= k < |sizes| ==> Fits(comm, sizes, k)
  }

  /** The slots of a launch that passed every test are a valid allocation of the area, even when rounding has
      moved the last cursor past its end. */
  lemma SlotsAreAllocation(comm: Comm, sizes: seq<nat>, j: nat, k: nat)
    requires comm.addr % 8 == 0 && AllFit(comm, sizes) && j < |sizes| && k < |sizes|
    ensures var a, b := Cursor(comm.addr + 16, sizes, j), Cursor(comm.addr + 16, sizes, k);
            && a % 8 == 0 && comm.addr + 16 <= a && a + 16 + sizes[j] < comm.addr + comm.size
            && (j != k ==> Apart(a, 16 + sizes[j], b, 16 + sizes[k]))
            && Cursor(comm.addr + 16, sizes, |sizes|) <= Align8(comm.addr + comm.size)
  {
    hide Align8, Cursor, Fits;
    var base := comm.addr + 16;
    if j < k {
      CursorOrder(base, sizes, j, k);
    } else if k < j {
      CursorOrder(base, sizes, k, j);
    }
    CursorAligned(base, sizes, j);
    SlotInside(comm, sizes, j);
    SlotInside(comm, sizes, |sizes| - 1);
    CursorNext(base, sizes, |sizes| - 1);
    AlignMonotone(Cursor(base, sizes, |sizes| - 1) + 16 + sizes[|sizes| - 1], comm.addr + comm.size);
  }

  lemma SlotInside(comm: Comm, sizes: seq<nat>, k: nat)
    requires AllFit(comm, sizes) && k < |sizes|
    ensures Cursor(comm.addr + 16, sizes, k) + 16 + sizes[k] < comm.addr + comm.size
  {
    hide Cursor;
    assert Fits(comm, sizes, k);
  }

  lemma AlignMonotone(x: nat, y: nat)
    requires x <= y
    ensures Align8(x) <= Align8(y)
  {
  }

  // ------------------------------------------------------------------------------------------
  // Contents.

  function Sizes(es: seq<Entry>): (s: seq<nat>)
    ensures |s| == |es| && forall k :: 0 <= k < |es| ==> s[k] == |es[k].data|
  {
    seq(|es|, k requires 0 <= k < |es| => |es[k].data|)
  }

  ghost predicate SlotHolds(mem: Memory, at: nat, e: Entry) {
    && Read(mem, at, 16) == ArgHeader(e)
    && (e.sent ==> Read(mem, at + 16, |e.data|) == e.data)
  }

  /** The first `n` slots hold their arguments. */
  ghost predicate AreaHolds(mem: Memory, base: nat, es: seq<Entry>, n: nat)
    requires n <= |es|
  {
    forall k :: 0 <= k < n ==> SlotHolds(mem, Cursor(base, Sizes(es), k), es[k])
  }

  /** A payload that is not sent leaves what was there in memory `mem0`. */
  ghost predicate SlotKeeps(mem0: Memory, mem: Memory, at: nat, e: Entry) {
    !e.sent ==> Read(mem, at + 16, |e.data|) == Read(mem0, at + 16, |e.data|)
  }

  /** The first `n` slots do so, and nothing behind them has changed. */
  ghost predicate AreaKeeps(mem0: Memory, mem: Memory, base: nat, es: seq<Entry>, n: nat)
    requires n <= |es|
  {
    && (forall k :: 0 <= k < n ==> SlotKeeps(mem0, mem, Cursor(base, Sizes(es), k), es[k]))
    && SameFrom(mem0, mem, Cursor(base, Sizes(es), n))
  }

  ghost predicate SameFrom(mem0: Memory, mem: Memory, a: nat) {
    forall k: nat :: a <= k ==> Get(mem, k) == Get(mem0, k)
  }

  function SlotWritten(mem: Memory, at: nat, e: Entry): Memory {
    var m := Write(mem, at, ArgHeader(e));
    if e.sent then Write(m, at + 16, e.data) else m
  }

  lemma SlotWrittenHolds(mem: Memory, at: nat, e: Entry)
    ensures SlotHolds(SlotWritten(mem, at, e), at, e)
    ensures SameOutside(mem, SlotWritten(mem, at, e), at, 16 + |e.data|)
  {
    hide ArgHeader, Read;
    ReadWritten(mem, at, ArgHeader(e));
    if e.sent {
      var m := Write(mem, at, ArgHeader(e));
      ReadWritten(m, at + 16, e.data);
      ReadApart(m, at + 16, e.data, at, 16);
    }
  }

  lemma SlotKept(mem: Memory, w: Memory, a: nat, n: nat, at: nat, e: Entry)
    requires SameOutside(mem, w, a, n) && Apart(a, n, at, 16 + |e.data|) && SlotHolds(mem, at, e)
    ensures SlotHolds(w, at, e)
  {
    ReadSame(mem, w, a, n, at, 16);
    ReadSame(mem, w, a, n, at + 16, |e.data|);
  }

  lemma ReadSame(mem: Memory, w: Memory, a: nat, n: nat, b: nat, k: nat)
    requires SameOutside(mem, w, a, n) && Apart(a, n, b, k)
    ensures Read(w, b, k) == Read(mem, b, k)
  {
  }

  lemma AreaGrows(mem: Memory, base: nat, es: seq<Entry>, n: nat)
    requires n < |es| && AreaHolds(mem, base, es, n)
    ensures AreaHolds(SlotWritten(mem, Cursor(base, Sizes(es), n), es[n]), base, es, n + 1)
  {
    hide SlotHolds, SlotWritten, SameOutside, Cursor;
    var at := Cursor(base, Sizes(es), n);
    var w := SlotWritten(mem, at, es[n]);
    SlotWrittenHolds(mem, at, es[n]);
    forall k | 0 <= k < n
      ensures SlotHolds(w, Cursor(base, Sizes(es), k), es[k])
    {
      CursorOrder(base, Sizes(es), k, n);
      SlotKept(mem, w, at, 16 + |es[n].data|, Cursor(base, Sizes(es), k), es[k]);
    }
  }

  lemma AreaKeepsNone(mem0: Memory, header: seq<byte>, base: nat, es: seq<Entry>)
    requires |header| == 16 <= base
    ensures AreaKeeps(mem0, Write(mem0, base - 16, header), base, es, 0)
  {
  }

  lemma AreaKeepsNext(mem0: Memory, mem: Memory, base: nat, es: seq<Entry>, n: nat)
    requires n < |es| && AreaKeeps(mem0, mem, base, es, n)
    ensures AreaKeeps(mem0, SlotWritten(mem, Cursor(base, Sizes(es), n), es[n]), base, es, n + 1)
  {
    hide SlotKeeps, SlotWritten, SameOutside, SameFrom, Cursor;
    var at := Cursor(base, Sizes(es), n);
    var w := SlotWritten(mem, at, es[n]);
    SlotWrittenHolds(mem, at, es[n]);
    forall k | 0 <= k < n
      ensures SlotKeeps(mem0, w, Cursor(base, Sizes(es), k), es[k])
    {
      CursorOrder(base, Sizes(es), k, n);
      var b := Cursor(base, Sizes(es), k);
      ReadSame(mem, w, at, 16 + |es[n].data|, b + 16, |es[k].data|);
      KeepsOn(mem0, mem, w, b, es[k]);
    }
    KeepsAt(mem0, mem, at, es[n]);
    CursorOrder(base, Sizes(es), n, n + 1);
    FromOn(mem0, mem, w, at, 16 + |es[n].data|, Cursor(base, Sizes(es), n + 1));
  }

  lemma KeepsOn(mem0: Memory, mem: Memory, w: Memory, at: nat, e: Entry)
    requires SlotKeeps(mem0, mem, at, e) && Read(w, at + 16, |e.data|) == Read(mem, at + 16, |e.data|)
    ensures SlotKeeps(mem0, w, at, e)
  {
  }

  lemma KeepsAt(mem0: Memory, mem: Memory, at: nat, e: Entry)
    requires SameFrom(mem0, mem, at)
    ensures SlotKeeps(mem0, SlotWritten(mem, at, e), at, e)
  {
    hide ArgHeader;
  }

  lemma FromOn(mem0: Memory, mem: Memory, w: Memory, at: nat, n: nat, next: nat)
    requires SameFrom(mem0, mem, at) && SameOutside(mem, w, at, n) && at + n <= next
    ensures SameFrom(mem0, w, next)
  {
  }

  // ------------------------------------------------------------------------------------------
  // The reader: it knows the address of the area and follows the size fields.

  datatype Found = Found(argtype: nat, index: nat, size: nat, payload: nat)

  function Field(mem: Memory, a: nat, k: nat): nat {
    FromLE(Read(mem, a, k))
  }

  function FoundAt(mem: Memory, at: nat): Found {
    Found(Field(mem, at, 4), Field(mem, at + 4, 4), Field(mem, at + 8, 8), at + 16)
  }

  function Walk(mem: Memory, at: nat, n: nat): (fs: seq<Found>)
    ensures |fs| == n
    decreases n
  {
    if n == 0 then []
    else
      var f := FoundAt(mem, at);
      [f] + Walk(mem, SlotEnd(at, f.size), n - 1)
  }

  lemma HeaderFields(mem: Memory, at: nat, e: Entry)
    requires SlotHolds(mem, at, e) && Encodable(e)
    ensures FoundAt(mem, at) == Found(e.argtype, e.index, |e.data|, at + 16)
  {
    hide ToLE, FromLE;
    Pow256Values();
    FromToLE(e.argtype, 4);
    FromToLE(e.index, 4);
    FromToLE(|e.data|, 8);
    var h := Read(mem, at, 16);
    assert Read(mem, at, 4) == h[..4] == ToLE(e.argtype, 4);
    assert Read(mem, at + 4, 4) == h[4..8] == ToLE(e.index, 4);
    assert Read(mem, at + 8, 8) == h[8..] == ToLE(|e.data|, 8);
  }

  /** Following only the size fields from the first slot, the reader finds every argument that was sent, in
      order, with its type, index and size, and the payload of each one that has a payload. */
  lemma {:induction false} ReaderRecovers(mem: Memory, base: nat, es: seq<Entry>, k: nat)
    requires AreaHolds(mem, base, es, |es|) && k < |es|
    requires forall j :: 0 <= j < |es| ==> Encodable(es[j])
    ensures Walk(mem, base, |es|)[k] ==
      Found(es[k].argtype, es[k].index, |es[k].data|, Cursor(base, Sizes(es), k) + 16)
    ensures es[k].sent ==> Read(mem, Walk(mem, base, |es|)[k].payload, |es[k].data|) == es[k].data
  {
    hide SlotHolds, Walk, Cursor, Read, Encodable;
    CursorStart(base, Sizes(es));
    WalkFrom(mem, base, es, 0, k);
    assert SlotHolds(mem, Cursor(base, Sizes(es), k), es[k]);
    PayloadHeld(mem, Cursor(base, Sizes(es), k), es[k]);
  }

  lemma CursorStart(base: nat, sizes: seq<nat>)
    ensures Cursor(base, sizes, 0) == base
  {
  }

  lemma PayloadHeld(mem: Memory, at: nat, e: Entry)
    requires SlotHolds(mem, at, e)
    ensures e.sent ==> Read(mem, at + 16, |e.data|) == e.data
  {
  }

  ghost function Expected(base: nat, es: seq<Entry>, k: nat): Found
    requires k < |es|
  {
    Found(es[k].argtype, es[k].index, |es[k].data|, Cursor(base, Sizes(es), k) + 16)
  }

  lemma WalkStep(mem: Memory, at: nat, n: nat)
    requires n > 0
    ensures Walk(mem, at, n)[0] == FoundAt(mem, at)
    ensures Walk(mem, at, n)[1..] == Walk(mem, SlotEnd(at, FoundAt(mem, at).size), n - 1)
  {
    hide FoundAt;
  }

  lemma {:induction false} WalkFrom(mem: Memory, base: nat, es: seq<Entry>, i: nat, k: nat)
    requires i <= k < |es| && AreaHolds(mem, base, es, |es|)
    requires forall j :: 0 <= j < |es| ==> Encodable(es[j])
    ensures Walk(mem, Cursor(base, Sizes(es), i), |es| - i)[k - i] == Expected(base, es, k)
    decreases |es| - i
  {
    hide FoundAt, SlotHolds, Walk, Encodable, Read, Cursor, SlotEnd, Sizes;
    var at := Cursor(base, Sizes(es), i);
    assert SlotHolds(mem, at, es[i]);
    HeaderFields(mem, at, es[i]);
    WalkStep(mem, at, |es| - i);
    CursorNext(base, Sizes(es), i);
    if i < k {
      WalkFrom(mem, base, es, i + 1, k);
      assert Walk(mem, at, |es| - i)[k - i] == Walk(mem, at, |es| - i)[1..][k - (i + 1)];
    }
  }

  lemma CursorNext(base: nat, sizes: seq<nat>, i: nat)
    requires i < |sizes|
    ensures Cursor(base, sizes, i + 1) == SlotEnd(Cursor(base, sizes, i), sizes[i])
  {
  }

  // ------------------------------------------------------------------------------------------
  // The whole area, as a kernel that is given only its address reads it.

  /** The magic number, the number of entries, and behind it that many slots with their fields and payloads. */
  ghost predicate AreaReads(mem: Memory, addr: nat, es: seq<Entry>) {
    var n := Field(mem, addr + 4, 4);
    && Read(mem, addr, 4) == [0xe5, 0xaf, 0xdc, 0xba] && Field(mem, addr, 4) == 0xbadcafe5
    && n == |es|
    && Read(mem, addr + 8, 8) == [0, 0, 0, 0, 0, 0, 0, 0] && Field(mem, addr + 8, 4) == 0
    && forall k :: 0 <= k < |es| ==> EntryReads(mem, Walk(mem, addr + 16, n)[k], es[k])
  }

  ghost predicate EntryReads(mem: Memory, f: Found, e: Entry) {
    && f.argtype == e.argtype && f.index == e.index && f.size == |e.data|
    && (e.sent ==> Read(mem, f.payload, f.size) == e.data)
  }

  lemma HeaderReads(mem: Memory, addr: nat, n: nat)
    requires Read(mem, addr, 16) == AreaHeader(n) && n < 0x1_0000_0000
    ensures Read(mem, addr, 4) == [0xe5, 0xaf, 0xdc, 0xba] && Field(mem, addr, 4) == 0xbadcafe5
    ensures Field(mem, addr + 4, 4) == n
    ensures Read(mem, addr + 8, 8) == [0, 0, 0, 0, 0, 0, 0, 0] && Field(mem, addr + 8, 4) == 0
  {
    hide ToLE, FromLE;
    Pow256Values();
    HeaderBytes();
    FromToLE(COMM_MAGIC, 4);
    FromToLE(n, 4);
    FromToLE(0, 4);
    var h := Read(mem, addr, 16);
    assert Read(mem, addr, 4) == h[..4] == ToLE(COMM_MAGIC, 4);
    assert Read(mem, addr + 4, 4) == h[4..8] == ToLE(n, 4);
    assert Read(mem, addr + 8, 4) == h[8..12] == ToLE(0, 4);
    assert Read(mem, addr + 8, 8) == h[8..16] == ToLE(0, 4) + ToLE(0, 4);
  }

  lemma HeaderBytes()
    ensures ToLE(COMM_MAGIC, 4) == [0xe5, 0xaf, 0xdc, 0xba] && ToLE(0, 4) == [0, 0, 0, 0]
  {
    hide ToLE;
    Pow256First();
    forall i | 0 <= i < 4
      ensures ToLE(COMM_MAGIC, 4)[i] == [0xe5, 0xaf, 0xdc, 0xba][i] && ToLE(0, 4)[i] == 0
    {
      ByteOf(COMM_MAGIC, 4, i);
      ByteOf(0, 4, i);
    }
  }

  lemma Pow256First()
    ensures Pow256(0) == 1 && Pow256(1) == 0x100 && Pow256(2) == 0x1_0000 && Pow256(3) == 0x100_0000
  {
  }

  /** The round trip: a reader that takes the count from the area header finds every argument. */
  lemma {:induction false} AreaRoundTrip(mem: Memory, addr: nat, es: seq<Entry>)
    requires Read(mem, addr, 16) == AreaHeader(|es|) && |es| < 0x1_0000_0000
    requires AreaHolds(mem, addr + 16, es, |es|) && forall k :: 0 <= k < |es| ==> Encodable(es[k])
    ensures AreaReads(mem, addr, es)
  {
    hide AreaHeader, AreaHolds, Walk, Cursor, Read, Field, Encodable, Sizes;
    HeaderReads(mem, addr, |es|);
    forall k | 0 <= k < |es|
      ensures EntryReads(mem, Walk(mem, addr + 16, |es|)[k], es[k])
    {
      ReaderRecovers(mem, addr + 16, es, k);
    }
  }
}
