/**
  The other end of the link: a stub that reads one byte at a time, answers packets in order, and drives the
  device (GDB manual, appendix E, "Packets", for m, M, X, vCont, qRcmd and vMustReplyEmpty).

  Everything about it that the host cannot know is in a World: what the kernel does in each run, what the
  stub prints and reports before and after the host interrupts that run, what the reset command prints, and
  how often the link damages a command on its way.
 */
module Stub {
  import opened Bits
  import opened DeviceMemory
  import opened Rsp

  datatype World = World(
    kernels: Kernels,
    before: nat -> seq<bytes>,
    after: nat -> seq<bytes>,
    console: nat -> seq<bytes>,
    damaged: nat -> nat)

  datatype Parser = Idle | Body(acc: bytes) | Sum1(acc: bytes) | Sum2(acc: bytes, hi: byte)

  /** `acked` counts the acknowledged commands so far, `refused` how often the next one was refused. */
  datatype StubState = StubState(parser: Parser, dev: Dev, resets: nat, acked: nat, refused: nat)

  const EMPTY_PROBE: bytes := Text("vMustReplyEmpty")
  const CONTINUE: bytes := Text("vCont;c")
  const OK: bytes := Text("OK")
  const QRCMD: bytes := Text("qRcmd,")

  /** The commands the host sends without waiting for an acknowledgement; the link carries these intact. */
  predicate Unguarded(payload: bytes) {
    payload == EMPTY_PROBE || payload == CONTINUE
  }

  function Frames(bodies: seq<bytes>): bytes {
    if bodies == [] then [] else RawFrame(bodies[0]) + Frames(bodies[1..])
  }

  // ------------------------------------------------------------------------------------------

  datatype Located = Malformed | Located(addr: nat, len: nat, rest: bytes)

  /** "addr,len" in hexadecimal and whatever follows. */
  function ParseAddrLen(s: bytes): Located {
    var i := LeadHex(s);
    if i == |s| || s[i] != 44 then Malformed
    else
      var t := s[i + 1..];
      var j := LeadHex(t);
      Located(HexValue(s[..i]), HexValue(t[..j]), t[j..])
  }

  predicate IsHexText(s: bytes, n: nat) {
    |s| == 2 * n && AllHex(s)
  }

  function DecodeHex(s: bytes): (bs: bytes)
    requires AllHex(s)
    ensures |bs| == |s| / 2
  {
    seq<byte>(|s| / 2, i requires 0 <= i < |s| / 2 => HexPair(s, i))
  }

  function WriteMemory(s: StubState, a: nat, bs: bytes): (StubState, bytes) {
    (s.(dev := s.dev.(mem := Write(s.dev.mem, a, bs))), RawFrame(OK))
  }

  /** What an accepted packet does and what the stub sends after its '+'. */
  function Execute(w: World, s: StubState, payload: bytes): (StubState, bytes) {
    if payload == EMPTY_PROBE then (s, RawFrame([]))
    else if s.dev.running then (s, [])
    else if payload == CONTINUE then
      (s.(dev := s.dev.(running := true)), Frames(w.before(s.dev.runs)))
    else if |payload| >= 6 && payload[..6] == QRCMD then
      (s.(dev := Halt(w.kernels, s.dev), resets := s.resets + 1), Frames(w.console(s.resets)) + RawFrame(OK))
    else if payload == [] then (s, RawFrame([]))
    else
      var at := ParseAddrLen(payload[1..]);
      if at.Malformed? then (s, RawFrame([]))
      else if payload[0] == 109 && at.rest == [] then
        (s, RawFrame(HexBytes(Read(s.dev.mem, at.addr, at.len))))
      else if payload[0] == 77 && at.rest != [] && at.rest[0] == 58 && IsHexText(at.rest[1..], at.len) then
        WriteMemory(s, at.addr, DecodeHex(at.rest[1..]))
      else if payload[0] == 88 && at.rest != [] && at.rest[0] == 58 && |at.rest| == 1 + at.len then
        WriteMemory(s, at.addr, at.rest[1..])
      else (s, RawFrame([]))
  }

  function Packet(w: World, s: StubState, body: bytes): (StubState, bytes) {
    var payload := Unescape(body);
    if Unguarded(payload) then
      var (t, out) := Execute(w, s, payload);
      (t, [PLUS] + out)
    else if s.refused < w.damaged(s.acked) then
      (s.(refused := s.refused + 1), [MINUS])
    else
      var (t, out) := Execute(w, s, payload);
      (t.(acked := s.acked + 1, refused := 0), [PLUS] + out)
  }

  function Interrupt(w: World, s: StubState): (StubState, bytes) {
    if s.dev.running then (s.(dev := Halt(w.kernels, s.dev)), Frames(w.after(s.dev.runs))) else (s, [])
  }

  function Hear(w: World, s: StubState, b: byte): (StubState, bytes) {
    match s.parser
    case Idle =>
      if b == DOLLAR then (s.(parser := Body([])), [])
      else if b == ETX then Interrupt(w, s)
      else (s, [])
    case Body(acc) =>
      if b == HASH then (s.(parser := Sum1(acc)), []) else (s.(parser := Body(acc + [b])), [])
    case Sum1(acc) => (s.(parser := Sum2(acc, b)), [])
    case Sum2(acc, hi) =>
      if [hi, b] == Hex2(Checksum(acc)) then Packet(w, s.(parser := Idle), acc)
      else (s.(parser := Idle), [MINUS])
  }

  function HearAll(w: World, s: StubState, bs: bytes): (StubState, bytes)
    decreases |bs|
  {
    if bs == [] then (s, [])
    else
      var (t, out) := Hear(w, s, bs[0]);
      var (t', out') := HearAll(w, t, bs[1..]);
      (t', out + out')
  }

  // ------------------------------------------------------------------------------------------

  lemma {:induction false} HearBody(w: World, s: StubState, acc: bytes, body: bytes, tail: bytes)
    requires s.parser == Body(acc) && HASH !in body
    ensures HearAll(w, s, body + tail) == HearAll(w, s.(parser := Body(acc + body)), tail)
    decreases body
  {
    if body == [] {
      assert body + tail == tail && acc + body == acc;
    } else {
      var t := s.(parser := Body(acc + [body[0]]));
      assert (body + tail)[0] == body[0] && (body + tail)[1..] == body[1..] + tail;
      assert Hear(w, s, body[0]) == (t, []);
      HearBody(w, t, acc + [body[0]], body[1..], tail);
      assert acc + [body[0]] + body[1..] == acc + body;
      assert [] + HearAll(w, t, body[1..] + tail).1 == HearAll(w, t, body[1..] + tail).1;
    }
  }

  lemma HearFirst(w: World, s: StubState, b: byte, bs: bytes, t: StubState)
    requires Hear(w, s, b) == (t, [])
    ensures HearAll(w, s, [b] + bs) == HearAll(w, t, bs)
  {
    assert ([b] + bs)[1..] == bs;
    assert [] + HearAll(w, t, bs).1 == HearAll(w, t, bs).1;
  }

  lemma HearLast(w: World, s: StubState, b: byte)
    ensures HearAll(w, s, [b]) == Hear(w, s, b)
  {
    var (t, out) := Hear(w, s, b);
    assert [b][1..] == [];
    assert HearAll(w, t, []) == (t, []);
    assert out + [] == out;
  }

  /** An idle stub hears a whole frame as one packet: no byte of the body is taken for framing. */
  lemma HearFrame(w: World, s: StubState, body: bytes)
    requires s.parser == Idle && HASH !in body
    ensures HearAll(w, s, RawFrame(body)) == Packet(w, s, body)
  {
    hide Packet, Interrupt, Checksum, HearAll;
    var sum := Hex2(Checksum(body));
    var tail := [HASH] + sum;
    assert RawFrame(body) == [DOLLAR] + (body + tail);
    HearFirst(w, s, DOLLAR, body + tail, s.(parser := Body([])));
    HearBody(w, s.(parser := Body([])), [], body, tail);
    assert [] + body == body;
    HearFirst(w, s.(parser := Body(body)), HASH, sum, s.(parser := Sum1(body)));
    assert sum == [sum[0]] + [sum[1]];
    HearFirst(w, s.(parser := Sum1(body)), sum[0], [sum[1]], s.(parser := Sum2(body, sum[0])));
    HearLast(w, s.(parser := Sum2(body, sum[0])), sum[1]);
    assert s.(parser := Sum2(body, sum[0])).(parser := Idle) == s;
  }

  /** The host's acknowledgements do nothing to an idle stub. */
  lemma HearAck(w: World, s: StubState, b: byte)
    requires s.parser == Idle && (b == PLUS || b == MINUS)
    ensures HearAll(w, s, [b]) == (s, [])
  {
    HearLast(w, s, b);
  }

  lemma HearInterrupt(w: World, s: StubState)
    requires s.parser == Idle
    ensures HearAll(w, s, [ETX]) == Interrupt(w, s)
  {
    HearLast(w, s, ETX);
  }

  lemma {:induction false} FramesConcat(a: seq<bytes>, b: seq<bytes>)
    ensures Frames(a + b) == Frames(a) + Frames(b)
  {
    if a == [] {
      assert a + b == b;
    } else {
      assert (a + b)[0] == a[0] && (a + b)[1..] == a[1..] + b;
      FramesConcat(a[1..], b);
    }
  }

  // ------------------------------------------------------------------------------------------
  // The hypotheses on the world: texts without '#' or NUL that fit the host's buffers, at least one stop
  // report per run and no empty one, and a reset that prints nothing that reads "OK".

  ghost predicate Plain(b: bytes) {
    HASH !in b && 0 !in b
  }

  predicate IsStopReply(b: bytes) {
    b != [] && (b[0] == 84 || b[0] == 87)
  }

  /** The longest body that `gdb_remote_recv` can take with one stale '+' in front (see Link.Receive). */
  const LONGEST: nat := 4091

  ghost predicate WorldOk(w: World) {
    && (forall n, b :: b in w.before(n) + w.after(n) ==> Plain(b) && b != [] && |b| <= LONGEST)
    && (forall n :: exists i :: 0 <= i < |w.before(n) + w.after(n)| && IsStopReply((w.before(n) + w.after(n))[i]))
    && (forall n, b :: b in w.console(n) ==> Plain(b) && b != OK && |b| <= LONGEST)
  }
}
