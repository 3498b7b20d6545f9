/** The chunk table of a program and its load flags (drivers/program.c). */
module Program {
  import opened Bits
  import opened Codes
  import opened CommArea
  import opened DeviceMemory

  /** `struct program_chunk`; `bytes` is what `buf` and `size` denote. */
  datatype Chunk = Chunk(index: nat, paddr: nat, bytes: seq<byte>, readonly: bool, loaded: bool)

  const ZERO_CHUNK: Chunk := Chunk(0, 0, [], false, false)

  class Program {
    /** A null table is an empty one here; `numChunks` is the count the source keeps beside it. */
    var chunks: array<Chunk>
    var numChunks: nat
    var comm: Comm

    ghost predicate Valid()
      reads this
    {
      numChunks == chunks.Length
    }

    constructor ()
      ensures Valid() && fresh(chunks) && chunks.Length == 0 && comm == Comm(0, 0)
    {
      chunks := new Chunk[0];
      numChunks := 0;
      comm := Comm(0, 0);
    }

    /** `prg_set_num_chunks`: a new table of zeroed chunks. Without memory the old table is gone and its count stays,
        so the program is still usable exactly if it had no chunks. */
    method SetNumChunks(num: nat, memory: bool) returns (r: int)
      modifies this`chunks, this`numChunks
      ensures memory ==>
        && r == CL_SUCCESS && Valid() && fresh(chunks) && chunks.Length == num
        && forall i :: 0 <= i < num ==> chunks[i] == ZERO_CHUNK
      ensures !memory ==>
        && r == CL_OUT_OF_HOST_MEMORY && fresh(chunks) && chunks.Length == 0 && numChunks == old(numChunks)
        && (Valid() <==> old(numChunks) == 0)
    {
      chunks := new Chunk[0];
      if !memory {
        return CL_OUT_OF_HOST_MEMORY;
      }
      chunks := new Chunk[num](_ => ZERO_CHUNK);
      numChunks := num;
      return CL_SUCCESS;
    }

    /** `prg_get_chunk` */
    method GetChunk(i: int) returns (r: int, chunk: Chunk)
      requires Valid()
      ensures 0 <= i < chunks.Length ==> r == CL_SUCCESS && chunk == chunks[i]
      ensures !(0 <= i < chunks.Length) ==> r == CL_INVALID_VALUE
    {
      chunk := ZERO_CHUNK;
      if i < 0 || numChunks <= i {
        return CL_INVALID_VALUE, chunk;
      }
      return CL_SUCCESS, chunks[i];
    }

    /** `prg_set_chunk` */
    method SetChunk(i: int, chunk: Chunk) returns (r: int)
      requires Valid()
      modifies chunks
      ensures 0 <= i < chunks.Length ==> r == CL_SUCCESS && chunks[..] == old(chunks[..])[i := chunk.(index := i)]
      ensures !(0 <= i < chunks.Length) ==> r == CL_INVALID_VALUE && chunks[..] == old(chunks[..])
    {
      if i < 0 || numChunks <= i {
        return CL_INVALID_VALUE;
      }
      chunks[i] := chunk;
      chunks[i] := chunks[i].(index := i);
      return CL_SUCCESS;
    }
  }

  // ------------------------------------------------------------------------------------------
  // The load cache.

  ghost predicate Holds(mem: Memory, c: Chunk) {
    Read(mem, c.paddr, |c.bytes|) == c.bytes
  }

  /** A chunk that a launch would skip is in device memory. */
  ghost predicate CacheOk(mem: Memory, chunks: seq<Chunk>) {
    forall i :: 0 <= i < |chunks| && chunks[i].readonly && chunks[i].loaded ==> Holds(mem, chunks[i])
  }

  ghost predicate Disjoint(chunks: seq<Chunk>) {
    forall i, j :: 0 <= i < j < |chunks| ==>
      Apart(chunks[i].paddr, |chunks[i].bytes|, chunks[j].paddr, |chunks[j].bytes|)
  }

  /** The same table up to indices and load flags. */
  ghost predicate SameCode(a: seq<Chunk>, b: seq<Chunk>) {
    && |a| == |b|
    && forall i :: 0 <= i < |a| ==>
         a[i].paddr == b[i].paddr && a[i].bytes == b[i].bytes && a[i].readonly == b[i].readonly
  }

  lemma SameCodeDisjoint(a: seq<Chunk>, b: seq<Chunk>)
    requires SameCode(a, b) && Disjoint(a)
    ensures Disjoint(b)
  {
  }

  /** Writing to one chunk's range leaves every other chunk as it was. */
  lemma OthersKept(mem: Memory, w: Memory, chunks: seq<Chunk>, i: nat, j: nat)
    requires Disjoint(chunks) && i < |chunks| && j < |chunks| && i != j
    requires SameOutside(mem, w, chunks[i].paddr, |chunks[i].bytes|)
    ensures Holds(mem, chunks[j]) ==> Holds(w, chunks[j])
  {
    hide Read;
    var a, b := chunks[i], chunks[j];
    assert Apart(a.paddr, |a.bytes|, b.paddr, |b.bytes|);
    ReadSame(mem, w, a.paddr, |a.bytes|, b.paddr, |b.bytes|);
  }

  /** A failed write to a chunk that would not be skipped does no harm. */
  lemma CacheAfterFailure(mem: Memory, w: Memory, chunks: seq<Chunk>, i: nat)
    requires Disjoint(chunks) && CacheOk(mem, chunks) && i < |chunks|
    requires !(chunks[i].readonly && chunks[i].loaded)
    requires SameOutside(mem, w, chunks[i].paddr, |chunks[i].bytes|)
    ensures CacheOk(w, chunks)
  {
    hide Holds, SameOutside;
    forall j | 0 <= j < |chunks| && chunks[j].readonly && chunks[j].loaded
      ensures Holds(w, chunks[j])
    {
      OthersKept(mem, w, chunks, i, j);
    }
  }

  /** A successful one may be recorded. */
  lemma CacheAfterWrite(mem: Memory, chunks: seq<Chunk>, i: nat, now: Chunk)
    requires Disjoint(chunks) && CacheOk(mem, chunks) && i < |chunks|
    requires !(chunks[i].readonly && chunks[i].loaded)
    requires now.paddr == chunks[i].paddr && now.bytes == chunks[i].bytes && now.readonly == chunks[i].readonly
    ensures var w := Write(mem, chunks[i].paddr, chunks[i].bytes);
            CacheOk(w, chunks[i := now]) && Holds(w, now)
  {
    hide Read, Write;
    var w := Write(mem, chunks[i].paddr, chunks[i].bytes);
    ReadWritten(mem, chunks[i].paddr, chunks[i].bytes);
    WriteSameOutside(mem, chunks[i].paddr, chunks[i].bytes);
    CacheAfterFailure(mem, w, chunks, i);
  }

  lemma WriteSameOutside(mem: Memory, a: nat, bs: seq<byte>)
    ensures SameOutside(mem, Write(mem, a, bs), a, |bs|)
  {
  }

  lemma HoldsKept(mem: Memory, w: Memory, c: Chunk)
    requires Holds(mem, c) && forall a: nat :: InChunk(c, a) ==> Get(w, a) == Get(mem, a)
    ensures Holds(w, c)
  {
    forall k | 0 <= k < |c.bytes|
      ensures Read(w, c.paddr, |c.bytes|)[k] == Read(mem, c.paddr, |c.bytes|)[k]
    {
      assert InChunk(c, c.paddr + k);
    }
  }

  predicate InChunk(c: Chunk, a: nat) {
    c.paddr <= a < c.paddr + |c.bytes|
  }

  /** The entry of chunk `i` after its turn of the load loop. */
  function Marked(c: Chunk, i: nat): Chunk {
    if c.readonly && c.loaded then c else c.(index := i, loaded := true)
  }

  /** The first `n` chunks have had their turn, the others not. */
  ghost predicate Passed(was: seq<Chunk>, now: seq<Chunk>, n: nat) {
    && |was| == |now| && n <= |was|
    && (forall j :: 0 <= j < n ==> now[j] == Marked(was[j], j))
    && (forall j :: n <= j < |was| ==> now[j] == was[j])
  }

  lemma PassedNone(was: seq<Chunk>)
    ensures Passed(was, was, 0)
  {
  }

  lemma PassedNext(was: seq<Chunk>, now: seq<Chunk>, n: nat)
    requires Passed(was, now, n) && n < |was|
    ensures n < |now| && now[n] == was[n] && Passed(was, now[n := Marked(now[n], n)], n + 1)
  {
  }

  lemma PassedCode(was: seq<Chunk>, now: seq<Chunk>, n: nat)
    requires Passed(was, now, n)
    ensures SameCode(was, now)
    ensures n == |was| ==> AllLoaded(now)
  {
  }

  ghost predicate AllLoaded(chunks: seq<Chunk>) {
    forall i :: 0 <= i < |chunks| ==> chunks[i].loaded
  }

  /** Memory after the first `n` chunks were written, all of them. */
  function Reloaded(mem: Memory, chunks: seq<Chunk>, n: nat): Memory
    requires n <= |chunks|
  {
    if n == 0 then mem
    else Write(Reloaded(mem, chunks, n - 1), chunks[n - 1].paddr, chunks[n - 1].bytes)
  }

  /** The same byte at every address. */
  ghost predicate SameBytes(m: Memory, w: Memory) {
    forall a: nat :: Get(m, a) == Get(w, a)
  }

  /** Writing what is already there changes no byte. */
  lemma SkippedAgrees(mem: Memory, all: Memory, c: Chunk)
    requires SameBytes(mem, all) && Holds(mem, c)
    ensures SameBytes(mem, Write(all, c.paddr, c.bytes))
  {
    hide Read, Write;
    var w := Write(all, c.paddr, c.bytes);
    forall a: nat
      ensures Get(mem, a) == Get(w, a)
    {
      if c.paddr <= a < c.paddr + |c.bytes| {
        ReadAt(mem, c.paddr, |c.bytes|, a - c.paddr);
      }
    }
  }

  lemma ReadAt(mem: Memory, a: nat, n: nat, i: nat)
    requires i < n
    ensures Read(mem, a, n)[i] == Get(mem, a + i)
  {
  }

  lemma {:induction false} ReloadedSame(mem: Memory, a: seq<Chunk>, b: seq<Chunk>, n: nat)
    requires SameCode(a, b) && n <= |a|
    ensures n <= |b| && Reloaded(mem, a, n) == Reloaded(mem, b, n)
  {
    hide Write;
    if n > 0 {
      ReloadedSame(mem, a, b, n - 1);
    }
  }

  lemma WrittenAgrees(mem: Memory, all: Memory, c: Chunk)
    requires SameBytes(mem, all)
    ensures SameBytes(Write(mem, c.paddr, c.bytes), Write(all, c.paddr, c.bytes))
  {
    hide Write;
  }

  /** The device traffic for one chunk: nothing if it is skipped or empty. */
  function TrafficOf(c: Chunk): seq<Op> {
    if (c.readonly && c.loaded) || c.bytes == [] then [] else [WriteMem(c.paddr, c.bytes)]
  }

  /** The device traffic of one pass over the first `n` chunks. */
  function Traffic(chunks: seq<Chunk>, n: nat): seq<Op>
    requires n <= |chunks|
  {
    if n == 0 then [] else Traffic(chunks, n - 1) + TrafficOf(chunks[n - 1])
  }

  /** A pass that stopped at a chunk with traffic has caused less than a whole one. */
  lemma {:induction false} TrafficShort(chunks: seq<Chunk>, k: nat, n: nat)
    requires k < n <= |chunks| && TrafficOf(chunks[k]) != []
    ensures |Traffic(chunks, k)| < |Traffic(chunks, n)|
  {
    if k < n - 1 {
      TrafficShort(chunks, k, n - 1);
    }
  }
}
