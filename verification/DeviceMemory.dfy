/** Device memory as a byte map, and what the operations of drivers/device.c do to a device. */
module DeviceMemory {
  import opened Bits

  /** An address that was never written reads as zero. */
  type Memory = map<nat, byte>

  function Get(m: Memory, a: nat): byte {
    if a in m then m[a] else 0
  }

  function Read(m: Memory, a: nat, n: nat): (bs: seq<byte>)
    ensures |bs| == n
  {
    seq<byte>(n, i requires 0 <= i => Get(m, a + i))
  }

  /** The `n` addresses from `a` on. */
  function Range(a: nat, n: nat): (r: set<nat>)
    ensures forall k :: k in r <==> a <= k < a + n
  {
    if n == 0 then {} else Range(a, n - 1) + {a + n - 1}
  }

  function Write(m: Memory, a: nat, bs: seq<byte>): (w: Memory)
    ensures forall k: nat :: Get(w, k) == if a <= k < a + |bs| then bs[k - a] else Get(m, k)
    ensures w.Keys == m.Keys + Range(a, |bs|)
  {
    map k: nat | k in m.Keys + Range(a, |bs|) :: if a <= k < a + |bs| then bs[k - a] else m[k]
  }

  ghost predicate Apart(a: nat, n: nat, b: nat, k: nat) {
    a + n <= b || b + k <= a || n == 0 || k == 0
  }

  lemma ReadWritten(m: Memory, a: nat, bs: seq<byte>)
    ensures Read(Write(m, a, bs), a, |bs|) == bs
  {
  }

  lemma ReadApart(m: Memory, a: nat, bs: seq<byte>, b: nat, n: nat)
    requires Apart(a, |bs|, b, n)
    ensures Read(Write(m, a, bs), b, n) == Read(m, b, n)
  {
  }

  /** Two adjacent writes are one. */
  lemma WriteTwice(m: Memory, a: nat, bs: seq<byte>, cs: seq<byte>)
    ensures Write(Write(m, a, bs), a + |bs|, cs) == Write(m, a, bs + cs)
  {
    var once, twice := Write(m, a, bs + cs), Write(Write(m, a, bs), a + |bs|, cs);
    assert once.Keys == twice.Keys;
    forall k | k in once.Keys
      ensures once[k] == twice[k]
    {
      assert Get(once, k) == once[k] && Get(twice, k) == twice[k];
    }
  }

  lemma WriteNothing(m: Memory, a: nat)
    ensures Write(m, a, []) == m
  {
    var w := Write(m, a, []);
    assert w.Keys == m.Keys;
    forall k | k in m.Keys
      ensures w[k] == m[k]
    {
      assert Get(w, k) == w[k] && Get(m, k) == m[k];
    }
  }

  lemma ReadSplit(m: Memory, a: nat, n: nat, k: nat)
    requires k <= n
    ensures Read(m, a, n) == Read(m, a, k) + Read(m, a + k, n - k)
  {
  }

  // ------------------------------------------------------------------------------------------

  /** What the kernel does to device memory in run number `n`. */
  type Kernels = nat -> Memory -> Memory

  datatype Dev = Dev(mem: Memory, running: bool, runs: nat)

  datatype Op =
    | Probe
    | Reset
    | Run
    | Stop
    | ReadMem(addr: nat, len: nat)
    | WriteMem(addr: nat, bytes: seq<byte>)

  /** A device that is stopped or reset while it runs has first done the kernel's work. */
  function Halt(kernels: Kernels, d: Dev): Dev {
    if d.running then Dev(kernels(d.runs)(d.mem), false, d.runs + 1) else d
  }

  function Step(kernels: Kernels, d: Dev, op: Op): Dev {
    match op
    case Probe => d
    case Reset => Halt(kernels, d)
    case Run => d.(running := true)
    case Stop => Halt(kernels, d)
    case ReadMem(_, _) => d
    case WriteMem(a, bs) => d.(mem := Write(d.mem, a, bs))
  }

  /** The bytes an operation hands to the host. */
  function Answer(d: Dev, op: Op): seq<byte> {
    if op.ReadMem? then Read(d.mem, op.addr, op.len) else []
  }

  function After(kernels: Kernels, d: Dev, ops: seq<Op>): Dev
    decreases |ops|
  {
    if ops == [] then d else Step(kernels, After(kernels, d, ops[..|ops| - 1]), ops[|ops| - 1])
  }

  /** What a whole sequence of operations hands to the host, one entry for each operation. */
  function Answers(kernels: Kernels, d: Dev, ops: seq<Op>): (a: seq<seq<byte>>)
    ensures |a| == |ops|
    decreases |ops|
  {
    if ops == [] then []
    else
      var before := ops[..|ops| - 1];
      Answers(kernels, d, before) + [Answer(After(kernels, d, before), ops[|ops| - 1])]
  }

  /** A stop comes directly after each run and nowhere else, so memory is never touched while the device
      runs. */
  ghost predicate Paired(ops: seq<Op>) {
    forall i :: 0 <= i < |ops| ==> PairedAt(ops, i)
  }

  ghost predicate PairedAt(ops: seq<Op>, i: nat)
    requires i < |ops|
  {
    ops[i].Stop? <==> i > 0 && ops[i - 1].Run?
  }

  predicate EndsInRun(ops: seq<Op>) {
    ops != [] && ops[|ops| - 1].Run?
  }

  lemma PairedSnoc(ops: seq<Op>, op: Op)
    requires Paired(ops) && (op.Stop? <==> EndsInRun(ops))
    ensures Paired(ops + [op])
  {
    forall i | 0 <= i < |ops + [op]|
      ensures PairedAt(ops + [op], i)
    {
      if i < |ops| {
        assert PairedAt(ops, i);
      }
    }
  }

  lemma AfterSnoc(kernels: Kernels, d: Dev, ops: seq<Op>, op: Op)
    ensures After(kernels, d, ops + [op]) == Step(kernels, After(kernels, d, ops), op)
  {
    hide Step;
    assert (ops + [op])[..|ops|] == ops;
  }

  /** Two memories agree but for `n` bytes from `a` on. */
  ghost predicate SameOutside(m: Memory, w: Memory, a: nat, n: nat) {
    forall k: nat :: !(a <= k < a + n) ==> Get(w, k) == Get(m, k)
  }

  lemma SameOutsideWider(m: Memory, w: Memory, a: nat, n: nat, k: nat)
    requires SameOutside(m, w, a, n)
    ensures SameOutside(m, w, a, n + k)
  {
  }

  lemma SameOutsideJoin(m: Memory, w: Memory, x: Memory, a: nat, n: nat, k: nat)
    requires SameOutside(m, w, a, n) && SameOutside(w, x, a + n, k)
    ensures SameOutside(m, x, a, n + k)
  {
  }

  lemma SameOutsideInside(m: Memory, w: Memory, a: nat, n: nat, b: nat, k: nat)
    requires SameOutside(m, w, a, n) && b <= a && a + n <= b + k
    ensures SameOutside(m, w, b, k)
  {
  }

  lemma SameOutsideTwice(m: Memory, w: Memory, x: Memory, a: nat, n: nat)
    requires SameOutside(m, w, a, n) && SameOutside(w, x, a, n)
    ensures SameOutside(m, x, a, n)
  {
  }

  // ------------------------------------------------------------------------------------------
  // Traces that stay inside a range.

  predicate OpInside(op: Op, a: nat, n: nat) {
    match op
    case ReadMem(b, k) => a <= b && b + k <= a + n
    case WriteMem(b, bs) => a <= b && b + |bs| <= a + n
    case _ => true
  }

  /** `now` extends `was` by operations whose transfers stay inside the `n` bytes from `a` on. */
  ghost predicate Grown(was: seq<Op>, now: seq<Op>, a: nat, n: nat) {
    was <= now && forall i :: |was| <= i < |now| ==> OpInside(now[i], a, n)
  }

  lemma GrownNone(was: seq<Op>, a: nat, n: nat)
    ensures Grown(was, was, a, n)
  {
  }

  lemma GrownOne(was: seq<Op>, now: seq<Op>, op: Op, a: nat, n: nat)
    requires Grown(was, now, a, n) && OpInside(op, a, n)
    ensures Grown(was, now + [op], a, n)
  {
  }

  lemma GrownTwice(was: seq<Op>, mid: seq<Op>, now: seq<Op>, a: nat, n: nat)
    requires Grown(was, mid, a, n) && Grown(mid, now, a, n)
    ensures Grown(was, now, a, n)
  {
  }

  lemma GrownWider(was: seq<Op>, now: seq<Op>, a: nat, n: nat, b: nat, k: nat)
    requires Grown(was, now, a, n) && b <= a && a + n <= b + k
    ensures Grown(was, now, b, k)
  {
  }

  lemma GrownPrefix(was: seq<Op>, now: seq<Op>, a: nat, n: nat)
    requires Grown(was, now, a, n)
    ensures was <= now
  {
  }
}
