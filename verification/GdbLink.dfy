/**
  The host end of the debug link (drivers/gdb/gdb_remote.c and the two reset drivers), talking byte by byte to
  a stub. `inbound` is the queue of bytes the stub has sent and the host has not read; bytes the host sends are
  heard at once. Every read of the queue is proved to find a byte, so the host never waits for ever.
 */
module GdbLink {
  import opened Bits
  import opened Codes
  import opened Commands
  import opened DeviceMemory
  import opened Requests
  import opened Rsp
  import opened Stub

  const BUFLEN: nat := 4096

  function Pluses(k: nat): (p: bytes)
    ensures |p| == k && forall i :: 0 <= i < k ==> p[i] == PLUS
  {
    seq<byte>(k, i requires 0 <= i => PLUS)
  }

  function Min(a: nat, b: nat): nat {
    if a < b then a else b
  }

  /** `gdb_remote_send`, the part that fills the buffer: it never writes past `cmdlen * 2 + 10`. */
  method BuildFrame(cmd: bytes) returns (frame: bytes)
    ensures frame == Frame(cmd)
    ensures |frame| <= |cmd| * 2 + 4
  {
    hide Escape, Total, EscapeByte;
    var buf := new byte[|cmd| * 2 + 10];
    buf[0] := DOLLAR;
    var pos := 1;
    var sum := 0;
    EmptyStep();
    assert cmd[..0] == [];
    for i := 0 to |cmd|
      invariant pos == 1 + |Escape(cmd[..i])| && pos <= 1 + 2 * i
      invariant buf[..pos] == [DOLLAR] + Escape(cmd[..i])
      invariant sum == Checksum(Escape(cmd[..i]))
    {
      EscapeStep(cmd, i);
      if IsSpecial(cmd[i]) {
        buf[pos] := BRACE;
        buf[pos + 1] := Flip(cmd[i]);
        pos := pos + 2;
        sum := (sum + BRACE) % 256;
        sum := (sum + Flip(cmd[i])) % 256;
      } else {
        buf[pos] := cmd[i];
        pos := pos + 1;
        sum := (sum + cmd[i]) % 256;
      }
    }
    assert cmd[..|cmd|] == cmd;
    var tmp := [HASH] + Hex2(sum);
    ghost var text := buf[..pos];
    buf[pos] := tmp[0];
    buf[pos + 1] := tmp[1];
    buf[pos + 2] := tmp[2];
    frame := buf[..pos + 3];
    assert frame == text + tmp;
  }

  lemma EmptyStep()
    ensures Escape([]) == [] && Checksum([]) == 0
  {
  }

  lemma EscapeStep(cmd: bytes, i: nat)
    requires i < |cmd|
    ensures var e, c := Escape(cmd[..i]), cmd[i];
            && Escape(cmd[..i + 1]) == e + (if IsSpecial(c) then [BRACE, Flip(c)] else [c])
            && Checksum(Escape(cmd[..i + 1])) ==
               if IsSpecial(c) then ((Checksum(e) + BRACE) % 256 + Flip(c)) % 256 else (Checksum(e) + c) % 256
  {
    hide Escape, Checksum, IsSpecial, Flip;
    var e, c := Escape(cmd[..i]), cmd[i];
    assert cmd[..i + 1] == cmd[..i] + [c];
    EscapeSnoc(cmd[..i], c);
    if IsSpecial(c) {
      assert e + [BRACE, Flip(c)] == e + [BRACE] + [Flip(c)];
      ChecksumSnoc(e, BRACE);
      ChecksumSnoc(e + [BRACE], Flip(c));
    } else {
      ChecksumSnoc(e, c);
    }
  }

  class Link {
    var inbound: bytes
    var stub: StubState
    const world: World

    /** Everything the host has sent. */
    ghost var wire: bytes

    constructor (world: World, dev: Dev)
      ensures this.world == world && inbound == [] && stub == StubState(Idle, dev, 0, 0, 0)
    {
      this.world := world;
      inbound := [];
      stub := StubState(Idle, dev, 0, 0, 0);
      wire := [];
    }

    /** Between packets: the stub waits for a '$' and owes no acknowledgement. */
    ghost predicate Settled()
      reads this
    {
      stub.parser == Idle && stub.refused == 0
    }

    method Put(bs: bytes)
      modifies this
      ensures (stub, inbound) == (HearAll(world, old(stub), bs).0, old(inbound) + HearAll(world, old(stub), bs).1)
      ensures wire == old(wire) + bs
    {
      var (t, out) := HearAll(world, stub, bs);
      stub, inbound, wire := t, inbound + out, wire + bs;
    }

    method GetChar() returns (c: byte)
      requires inbound != []
      modifies this`inbound
      ensures c == old(inbound)[0] && inbound == old(inbound)[1..]
    {
      c := inbound[0];
      inbound := inbound[1..];
    }

    method SendInterrupt()
      requires Settled()
      modifies this
      ensures (stub, inbound) == (Interrupt(world, old(stub)).0, old(inbound) + Interrupt(world, old(stub)).1)
      ensures wire == old(wire) + [3]
    {
      HearInterrupt(world, stub);
      Put([ETX]);
    }

    /** `gdb_remote_send`: the stub carries out `cmd` exactly once however often the frame had to be sent, and an
        acknowledged command consumes its own '+', when nothing is unread before it. Otherwise the first unread byte
        is taken for the acknowledgement, and the frame is sent once, whether the stub accepts it or not. */
    method Send(cmd: bytes, ack: bool) returns (r: int)
      requires Settled() && (ack <==> !Unguarded(cmd))
      requires ack && inbound != [] ==> inbound[0] != MINUS
      modifies this
      ensures var (t, out) := Execute(world, old(stub), cmd);
              && (!ack ==> r == CL_SUCCESS && stub == t && inbound == old(inbound) + [PLUS] + out)
              && (ack && old(inbound) == [] ==>
                    r == CL_SUCCESS && stub == t.(acked := t.acked + 1) && inbound == out)
      ensures ack && old(inbound) != [] ==>
        && r == (if old(inbound)[0] == PLUS then CL_SUCCESS else CL_INVALID_DEVICE)
        && stub == Guarded(world, old(stub), cmd).0
        && inbound == old(inbound)[1..] + Guarded(world, old(stub), cmd).1
      ensures !ack || old(inbound) == [] ==> Settled()
      ensures wire == old(wire) + Times(Frame(cmd), if ack && old(inbound) == [] then 1 + world.damaged(old(stub.acked)) else 1)
    {
      hide Execute, HearAll, Escape, Unescape, RawFrame;
      var frame := BuildFrame(cmd);
      ExecuteKeeps(world, stub, cmd);
      while true
        invariant stub == old(stub).(refused := stub.refused) && inbound == old(inbound)
        invariant stub.refused <= world.damaged(stub.acked) && (!ack || inbound != [] ==> stub.refused == 0)
        invariant wire == old(wire) + Times(frame, stub.refused)
        decreases world.damaged(stub.acked) - stub.refused
      {
        TimesNext(old(wire), frame, stub.refused);
        HearCommand(world, stub, cmd);
        ExecuteIgnoresRefused(world, old(stub), stub.refused, cmd);
        Put(frame);
        if !ack {
          return CL_SUCCESS;
        }
        var c := GetChar();
        if c == PLUS {
          return CL_SUCCESS;
        } else if c == MINUS {
          continue;
        } else {
          return CL_INVALID_DEVICE;
        }
      }
    }

    /** One step of the receive loops: the next byte of `full` goes to position `p` of the buffer. */
    method Next(buf: array<byte>, p: nat, ghost full: bytes) returns (c: byte)
      requires p < |full| && p < buf.Length && inbound == full[p..]
      modifies this`inbound, buf
      ensures c == full[p] == buf[p] && inbound == full[p + 1..]
      ensures forall i :: 0 <= i < buf.Length && i != p ==> buf[i] == old(buf[i])
    {
      c := GetChar();
      buf[p] := c;
    }

    /** The middle of `gdb_remote_recv`: the body up to its end mark, or as much of it as the local buffer holds. */
    method ReceiveBody(buf: array<byte>, start: nat, first: byte, cmdlen: nat,
                       ghost k: nat, ghost body: bytes, ghost full: bytes)
      returns (r: int, cmd: bytes, p: nat, total: nat, done: bool)
      requires cmdlen >= 1 && HASH !in body && buf.Length == BUFLEN
      requires k + 2 + |body| <= |full| && full[k + 1 + |body|] == HASH
      requires start == k + 2 < BUFLEN && first == full[k + 1] && inbound == full[start..]
      requires forall j :: 0 <= j < |body| ==> full[k + 1 + j] == body[j]
      modifies this`inbound, buf
      ensures done <==> k + 2 + |body| < BUFLEN
      ensures done ==>
        && p == k + 2 + |body| && inbound == full[p..]
        && Taken(body, |body|, cmdlen - 1, total, cmd, r)
    {
      hide Total, Taken;
      r := CL_SUCCESS;
      cmd := [];
      p := start;
      total := 0;
      var c := first;
      TakenNone(body, cmdlen - 1);
      assert body != [] ==> full[k + 1 + 0] == body[0];
      while c != HASH
        invariant k + 2 <= p <= k + 2 + |body| && c == full[p - 1] && inbound == full[p..]
        invariant p < BUFLEN && (p < k + 2 + |body| ==> c in body)
        invariant Taken(body, p - k - 2, cmdlen - 1, total, cmd, r)
        decreases k + 2 + |body| - p
      {
        assert full[k + 1 + (p - k - 2)] == body[p - k - 2];
        TakenOne(body, p - k - 2, cmdlen - 1, total, cmd, r);
        total := total + c;
        if |cmd| < cmdlen - 1 {
          cmd := cmd + [c];
        } else {
          r := CL_OUT_OF_HOST_MEMORY;
        }
        c := Next(buf, p, full);
        p := p + 1;
        assert p < k + 2 + |body| ==> full[k + 1 + (p - k - 2)] == body[p - k - 2];
        if p >= BUFLEN {
          return CL_OUT_OF_HOST_MEMORY, cmd, p, total, false;
        }
      }
      done := true;
    }

    /** `gdb_remote_recv` on a frame whose checksum text is `sum`, behind `k` stale acknowledgements. The whole
        frame and nothing else is consumed, the body is cut to the caller's buffer, and the answer says whether
        the checksum was right. A frame that does not fit the local buffer is given up part-way; the one length
        in between, where the checksum would land outside that buffer, is what the requires leaves out. */
    method Receive(cmdlen: nat, ack: bool, ghost k: nat, ghost body: bytes, ghost sum: bytes, ghost rest: bytes)
      returns (r: int, cmd: bytes)
      requires stub.parser == Idle && cmdlen >= 1
      requires HASH !in body && |sum| == 2 && IsHex(sum[0]) && IsHex(sum[1])
      requires IsReply(inbound, k, body, sum, rest)
      requires k <= 4092 && k + |body| != 4093
      modifies this
      ensures stub == old(stub)
      ensures k + |body| <= 4092 ==>
        && inbound == rest && cmd == body[..Min(|body|, cmdlen - 1)]
        && r == (if |body| <= cmdlen - 1 then CL_SUCCESS else CL_OUT_OF_HOST_MEMORY)
        && wire == old(wire) + AckText(Checksum(body), sum[0], sum[1], ack)
      ensures k + |body| > 4092 ==> r == CL_OUT_OF_HOST_MEMORY && wire == old(wire)
    {
      hide Checksum, Total, HearAll, IsReply, Taken, AckText, Min, IsHex;
      ghost var full := inbound;
      ReplyBytes(full, k, body, sum, rest);
      var buf := new byte[BUFLEN];
      var p := 0;
      var c := Next(buf, p, full);
      p := p + 1;
      while c == PLUS
        invariant 1 <= p <= k + 1 && c == full[p - 1] && inbound == full[p..]
        invariant unchanged(this`stub) && unchanged(this`wire)
        decreases k + 1 - p
      {
        c := Next(buf, p, full);
        p := p + 1;
      }
      assert p == k + 1;
      if c == DOLLAR {
        c := Next(buf, p, full);
        p := p + 1;
      }
      var total, done;
      r, cmd, p, total, done := ReceiveBody(buf, p, c, cmdlen, k, body, full);
      if !done {
        return CL_OUT_OF_HOST_MEMORY, cmd;
      }
      TakenAll(body, cmdlen - 1, total, cmd, r);
      var start := p;
      c := Next(buf, p, full);
      p := p + 1;
      c := Next(buf, p, full);
      p := p + 1;
      Acknowledge(total, buf[start], buf[start + 1], ack);
    }

    /** The end of `gdb_remote_recv`: the two checksum digits against the sum of the body. */
    method Acknowledge(total: nat, high: byte, low: byte, ack: bool)
      requires stub.parser == Idle && IsHex(high) && IsHex(low)
      modifies this
      ensures stub == old(stub) && inbound == old(inbound)
      ensures wire == old(wire) + AckText(total % 256, high, low, ack)
    {
      hide HearAll;
      var sumRecv := HexVal(high) * 16 + HexVal(low);
      var ackChar: byte := PLUS;
      if total % 256 != sumRecv {
        ackChar := MINUS;
      }
      if ack {
        HearAck(world, stub, ackChar);
        Put([ackChar]);
      }
    }

    /** A reply from the stub, at most one '+' late. */
    method ReceiveReply(cmdlen: nat, ghost late: bool, ghost body: bytes, ghost rest: bytes)
      returns (r: int, cmd: bytes)
      requires stub.parser == Idle && cmdlen >= 1
      requires HASH !in body && (if late then 1 else 0) + |body| <= 4092
      requires inbound == (if late then [PLUS] else []) + RawFrame(body) + rest
      modifies this
      ensures stub == old(stub) && inbound == rest && cmd == body[..Min(|body|, cmdlen - 1)]
      ensures r == if |body| <= cmdlen - 1 then CL_SUCCESS else CL_OUT_OF_HOST_MEMORY
      ensures wire == old(wire) + Text("+")
    {
      hide Checksum, Total, HearAll;
      ghost var k := if late then 1 else 0;
      ghost var sum := Hex2(Checksum(body));
      HexDigitVal(Checksum(body) / 16);
      HexDigitVal(Checksum(body) % 16);
      AckRight(Checksum(body));
      assert IsReply(inbound, k, body, sum, rest);
      r, cmd := Receive(cmdlen, true, k, body, sum, rest);
    }

    /** `gdb_remote_discard_all`: whatever replies are left, up to the first empty one, are drained. */
    method DiscardAll(ghost stale: seq<bytes>)
      requires Settled() && inbound == Frames(stale)
      requires forall b :: b in stale ==> Plain(b) && b != [] && |b| <= LONGEST
      modifies this
      ensures stub == old(stub) && inbound == []
      ensures old(wire) + Frame(Text("vMustReplyEmpty")) <= wire
    {
      hide RawFrame, Frames, Execute, CStr, Text, Escape, Frame, Times;
      TimesNext(wire, Frame(EMPTY_PROBE), 0);
      ProbeReply(world, stub);
      assert Execute(world, stub, EMPTY_PROBE) == (stub, RawFrame([]));
      var r := Send(EMPTY_PROBE, false);
      ghost var left := stale;
      assert inbound == Frames(left) + [PLUS] + RawFrame([]);
      while true
        invariant Settled() && stub == old(stub) && inbound == Frames(left) + [PLUS] + RawFrame([])
        invariant old(wire) + Frame(EMPTY_PROBE) <= wire
        invariant forall b :: b in left ==> Plain(b) && b != [] && |b| <= LONGEST
        decreases |left|
      {
        ghost var last := left == [];
        ghost var body := if last then [] else left[0];
        DrainOne(left);
        var tmp;
        r, tmp := ReceiveReply(4096, last, body, AfterFirst(left));
        assert tmp == body;
        CStrEmpty(tmp);
        if CStr(tmp) == [] {
          break;
        }
        left := left[1..];
      }
    }

    /** Between operations: nothing unread, nothing owed, the device halted. */
    ghost predicate Ready()
      reads this
    {
      Settled() && inbound == [] && !stub.dev.running
    }

    /** After a run and before its stop: the late '+' and what the stub printed so far are unread. */
    ghost predicate Started()
      reads this
    {
      Settled() && stub.dev.running && inbound == [PLUS] + Frames(world.before(stub.dev.runs))
    }

    /** The device moved from `d` to `e`, and only the device. */
    ghost predicate Moved(s: StubState, e: Dev)
      reads this
    {
      stub.dev == e && stub.resets == s.resets
    }

    /** The device was reset once, from the state `s`. */
    ghost predicate Reset(s: StubState)
      reads this
    {
      stub.dev == Step(world.kernels, s.dev, Op.Reset) && stub.resets == s.resets + 1
    }

    method Probe(ghost stale: seq<bytes>)
      requires Settled() && !stub.dev.running && inbound == Frames(stale)
      requires forall b :: b in stale ==> Plain(b) && b != [] && |b| <= LONGEST
      modifies this
      ensures Ready() && stub == old(stub)
      ensures old(wire) + Frame(Text("vMustReplyEmpty")) <= wire
    {
      DiscardAll(stale);
    }

    method Run() returns (r: int)
      requires Ready()
      modifies this
      ensures r == CL_SUCCESS && Started() && wire == old(wire) + Text("$vCont;c#a8")
      ensures Moved(old(stub), Step(world.kernels, old(stub.dev), Op.Run))
    {
      hide Frames, Frame, Execute, Times, Text;
      TimesNext(wire, Frame(CONTINUE), 0);
      RunReply(world, stub);
      ContinueFrame();
      r := Send(CONTINUE, false);
    }

    /** `gdb_remote_stop`: the late '+', all printed output, the stop report and any further one are read. */
    method Stop() returns (r: int)
      requires Started() && WorldOk(world)
      modifies this
      ensures r == CL_SUCCESS && Ready() && old(wire) + [3] <= wire
      ensures Moved(old(stub), Step(world.kernels, old(stub.dev), Op.Stop))
    {
      hide RawFrame, Frames, Frame, Text, Times, WorldOk;
      ghost var n := stub.dev.runs;
      ghost var bodies := world.before(n) + world.after(n);
      FramesConcat(world.before(n), world.after(n));
      RunTexts(world, n);
      SendInterrupt();
      ghost var i, sent := 0, wire;
      ghost var s := stub;
      assert bodies[0..] == bodies;
      assert inbound == [PLUS] + Frames(bodies[0..]);
      while true
        invariant 0 <= i <= |bodies| && stub == s && Settled() && sent <= wire
        invariant inbound == (if i == 0 then [PLUS] else []) + Frames(bodies[i..])
        invariant forall j :: 0 <= j < i ==> !IsStopReply(bodies[j])
        decreases |bodies| - i
      {
        assert i < |bodies| && bodies[i] in bodies;
        NextFrame(bodies, i, if i == 0 then [PLUS] else []);
        var tmp;
        r, tmp := ReceiveReply(4095, i == 0, bodies[i], Frames(bodies[i + 1..]));
        assert tmp == bodies[i];
        i := i + 1;
        if r != CL_SUCCESS {
          return;
        }
        if tmp != [] && tmp[0] == 79 {
          continue;
        } else if tmp != [] && (tmp[0] == 84 || tmp[0] == 87) {
          break;
        }
      }
      DiscardAll(bodies[i..]);
    }

    /** `gdb_remote_openocd_reset`: whatever comes before "OK" is skipped. On a link that is ready this is what the
        reset prints. With a run unfinished, its late '+' is taken for the acknowledgement and the stub ignores the
        command: the device is not reset, and the call waits for ever for an answer (`waits`), or takes output of the
        kernel for one. */
    method OpenocdReset() returns (r: int, waits: bool)
      requires (Ready() || Started()) && WorldOk(world)
      modifies this
      ensures old(wire) + Times(Frame(Text("qRcmd,") + HexBytes(Text("reset halt"))),
                                if old(Ready()) then 1 + world.damaged(old(stub.acked)) else 1) <= wire
      ensures r == CL_SUCCESS
      ensures old(Ready()) ==> !waits && Ready() && Reset(old(stub))
      ensures old(Started()) ==>
        && stub.dev == old(stub.dev) && stub.resets == old(stub.resets)
        && (waits <==> OK !in world.before(stub.dev.runs))
    {
      hide RawFrame, Frames, Execute, CStr, WorldOk, Text, Frame, HexBytes, Times;
      var cmd := Text("qRcmd,72657365742068616c74");
      ResetHaltText();
      ResetCommand(cmd);
      ghost var (bodies, tail) := ResetReplies(world, stub, cmd);
      ResetSent(world, stub, cmd);
      r := Send(cmd, true);
      r, waits := AwaitOk(bodies, tail);
    }

    /** The loop of `gdb_remote_openocd_reset`. */
    method AwaitOk(ghost bodies: seq<bytes>, ghost tail: bytes) returns (r: int, waits: bool)
      requires stub.parser == Idle && inbound == Frames(bodies) + tail && HASH !in tail
      requires forall b :: b in bodies ==> Plain(b) && |b| <= LONGEST
      modifies this
      ensures stub == old(stub) && r == CL_SUCCESS && (waits <==> OK !in bodies) && old(wire) <= wire
      ensures (forall j :: 0 <= j < |bodies| - 1 ==> bodies[j] != OK) ==> inbound == tail
    {
      hide RawFrame, Frames, CStr, Text;
      ghost var i := 0;
      assert bodies[0..] == bodies;
      while true
        invariant 0 <= i <= |bodies| && OK !in bodies[..i]
        invariant stub == old(stub) && inbound == Frames(bodies[i..]) + tail && old(wire) <= wire
        decreases |bodies| - i
      {
        NextReply(bodies, i, tail);
        // The loops of gdb_remote_recv end at a '#'.
        if HASH !in inbound {
          return CL_SUCCESS, true;
        }
        var tmp;
        r, tmp := ReceiveReply(4095, false, bodies[i], Frames(bodies[i + 1..]) + tail);
        assert tmp == bodies[i];
        if r != CL_SUCCESS {
          return r, false;
        }
        CStrWhole(tmp);
        if CStr(tmp) == OK {
          NextReply(bodies, i + 1, tail);
          return CL_SUCCESS, false;
        }
        assert bodies[..i + 1] == bodies[..i] + [bodies[i]];
        i := i + 1;
      }
    }

    /** `gdb_remote_qemu_reset`: exactly one reply, which must be "OK"; with a run unfinished, that is output of the
        kernel, or none comes. */
    method QemuReset() returns (r: int, waits: bool)
      requires (Ready() || Started()) && WorldOk(world)
      modifies this
      ensures old(wire) + Times(Frame(Text("qRcmd,") + HexBytes(Text("system_reset"))),
                                if old(Ready()) then 1 + world.damaged(old(stub.acked)) else 1) <= wire
      ensures old(Ready()) ==> !waits && Reset(old(stub)) && (r == CL_SUCCESS <==> world.console(old(stub.resets)) == [])
      ensures old(Ready()) && r == CL_SUCCESS ==> Ready()
      ensures old(Started()) ==>
        && stub.dev == old(stub.dev) && stub.resets == old(stub.resets)
        && var bodies := world.before(stub.dev.runs);
           && (waits <==> bodies == [])
           && (!waits ==> (r == CL_SUCCESS <==> bodies[0] == OK))
    {
      hide RawFrame, Frames, Execute, CStr, WorldOk, Text, Frame, HexBytes, Times;
      var cmd := Text("qRcmd,73797374656d5f7265736574");
      SystemResetText();
      ResetCommand(cmd);
      ghost var (bodies, tail) := ResetReplies(world, stub, cmd);
      ResetSent(world, stub, cmd);
      r := Send(cmd, true);
      r, waits := AwaitOne(bodies, tail);
    }

    /** The end of `gdb_remote_qemu_reset`. */
    method AwaitOne(ghost bodies: seq<bytes>, ghost tail: bytes) returns (r: int, waits: bool)
      requires stub.parser == Idle && inbound == Frames(bodies) + tail && HASH !in tail
      requires forall b :: b in bodies ==> Plain(b) && |b| <= LONGEST
      modifies this
      ensures stub == old(stub) && (waits <==> bodies == []) && old(wire) <= wire
      ensures |bodies| == 1 ==> inbound == tail
      ensures bodies != [] ==> inbound == Frames(bodies[1..]) + tail && (r == CL_SUCCESS <==> bodies[0] == OK)
    {
      hide RawFrame, Frames, CStr, Text;
      OkPlain();
      assert bodies[0..] == bodies;
      NextReply(bodies, 0, tail);
      if |bodies| > 0 {
        NextReply(bodies, 1, tail);
      }
      if HASH !in inbound {
        return CL_SUCCESS, true;
      }
      waits := false;
      var tmp;
      r, tmp := ReceiveReply(3, false, bodies[0], Frames(bodies[1..]) + tail);
      if r != CL_SUCCESS {
        return;
      }
      assert tmp == bodies[0];
      CStrWhole(tmp);
      if CStr(tmp) != OK {
        return CL_INVALID_DEVICE, false;
      }
      return CL_SUCCESS, false;
    }

    /** `gdb_remote_read_mem_one`: `len` bytes from `paddr` into `buf` at `at`. A request that does not fit its
        buffer asks for fewer bytes; the rest of `buf` then keeps its contents, and the call still succeeds. */
    method ReadMemOne(paddr: nat, buf: array<byte>, at: nat, len: nat) returns (r: int)
      requires Ready() && paddr < TWO64 && at + len <= buf.Length
      modifies this, buf
      ensures Ready() && Moved(old(stub), old(stub.dev))
      ensures len > 0x7f0 ==> r == CL_INVALID_VALUE && buf[..] == old(buf[..])
      ensures len <= 0x7f0 ==>
        && r == CL_SUCCESS && Requested(paddr, len) <= len
        && buf[..] == Splice(old(buf[..]), at, Read(old(stub.dev.mem), paddr, Requested(paddr, len)))
    {
      hide RawFrame, Execute, HexBytes, ReadRequest, Requested;
      if len > PIECE {
        return CL_INVALID_VALUE;
      }
      var buflen := len * 2 + 64;
      var cmd := ReadRequest(paddr, len);
      ghost var n := Requested(paddr, len);
      ghost var data := Read(stub.dev.mem, paddr, n);
      ghost var was := buf[..];
      ReadRequestReply(world, stub, paddr, len);
      r := Send(cmd, true);
      if r != CL_SUCCESS {
        return;
      }
      ReadRequestComplete(paddr, len);
      HexBytesPlain(data);
      assert inbound == [] + RawFrame(HexBytes(data)) + [];
      var strbuf;
      r, strbuf := ReceiveReply(buflen - 1, false, HexBytes(data), []);
      assert strbuf == HexBytes(data);
      var i := 0;
      while i < len
        invariant 0 <= i <= n && i <= len
        invariant forall j :: 0 <= j < i ==> buf[at + j] == data[j]
        invariant forall j :: 0 <= j < buf.Length && !(at <= j < at + i) ==> buf[j] == was[j]
        invariant Ready() && Moved(old(stub), old(stub.dev))
      {
        if 2 * i + 1 < |strbuf| && IsHex(strbuf[2 * i]) && IsHex(strbuf[2 * i + 1]) {
          HexBytesPair(data, i);
          buf[at + i] := HexPair(strbuf, i);
          i := i + 1;
        } else {
          HexBytesTail(data, i);
          break;
        }
      }
      SpliceIs(was, at, data, buf[..]);
      return CL_SUCCESS;
    }

    /** `gdb_remote_read_mem`. The buffer gets what the requests ask for, which is the whole range if none of them is
        cut off. */
    method ReadMem(paddr: nat, buf: array<byte>, len: nat) returns (r: int)
      requires Ready() && paddr + len <= TWO64 && len <= buf.Length
      modifies this, buf
      ensures r == CL_SUCCESS && Ready() && Moved(old(stub), old(stub.dev))
      ensures buf[..] == Filled(old(buf[..]), 0, old(stub.dev.mem), paddr, len)
      ensures AllComplete(paddr, len) ==> buf[..] == Splice(old(buf[..]), 0, Read(old(stub.dev.mem), paddr, len))
    {
      hide Requested, Splice, Read, AllComplete;
      ghost var was, mem := buf[..], stub.dev.mem;
      var p := 0;
      while p < len
        invariant 0 <= p <= len && Ready() && Moved(old(stub), old(stub.dev))
        invariant Filled(buf[..], p, mem, paddr + p, len - p) == Filled(was, 0, mem, paddr, len)
      {
        var l := if len - p < PIECE then len - p else PIECE;
        r := ReadMemOne(paddr + p, buf, p, l);
        if r != CL_SUCCESS {
          return;
        }
        p := p + l;
      }
      if AllComplete(paddr, len) {
        FilledFlat(was, 0, mem, paddr, len);
      }
      return CL_SUCCESS;
    }

    /** `gdb_remote_write_mem_one`: the hexadecimal text never outgrows its buffer. */
    method WriteMemOne(paddr: nat, buf: bytes) returns (r: int)
      requires Ready() && paddr < TWO64
      modifies this
      ensures Ready()
      ensures |buf| > 0x7f0 ==> r == CL_INVALID_VALUE && Moved(old(stub), old(stub.dev))
      ensures |buf| <= 0x7f0 ==> r == CL_SUCCESS && Moved(old(stub), Step(world.kernels, old(stub.dev), WriteMem(paddr, buf)))
    {
      hide RawFrame, Execute, HexBytes, AddrLen, CStr, Write;
      if |buf| > PIECE {
        return CL_INVALID_VALUE;
      }
      var buflen := |buf| * 2 + 64;
      var strbuf := [LETTER_M] + AddrLen(paddr, |buf|) + [COLON];
      AddrLenWidth(paddr, |buf|);
      buflen := buflen - |strbuf|;
      ghost var header := strbuf;
      assert buf[..0] == [];
      for i := 0 to |buf|
        invariant strbuf == header + HexBytes(buf[..i])
        invariant buflen >= (|buf| - i) * 2 + 40
        invariant unchanged(this)
      {
        var tmp := Hex2(buf[i]);
        HexBytesSnoc(buf[..i], buf[i]);
        assert buf[..i + 1] == buf[..i] + [buf[i]];
        strbuf := strbuf + tmp[..Min(2, buflen)];
        buflen := buflen - 2;
      }
      assert buf[..|buf|] == buf;
      assert strbuf == HexRequest(paddr, buf);
      HexRequestEffect(world, stub, paddr, buf);
      r := Send(strbuf, true);
      if r != CL_SUCCESS {
        return CL_SUCCESS;
      }
      OkPlain();
      assert inbound == [] + RawFrame(OK) + [];
      var tmp;
      r, tmp := ReceiveReply(3, false, OK, []);
      if r != CL_SUCCESS {
        return CL_SUCCESS;
      }
      CStrWhole(tmp);
      if CStr(tmp) != OK {
        r := CL_INVALID_DEVICE;
      }
      return CL_SUCCESS;
    }

    /** `gdb_remote_write_mem` */
    method WriteMemHex(paddr: nat, buf: bytes) returns (r: int)
      requires Ready() && paddr + |buf| <= TWO64
      modifies this
      ensures r == CL_SUCCESS && Ready()
      ensures Moved(old(stub), Step(world.kernels, old(stub.dev), WriteMem(paddr, buf)))
    {
      hide Step;
      ghost var dev := stub.dev;
      var p := 0;
      WriteNone(world.kernels, dev, paddr, buf);
      while p < |buf|
        invariant 0 <= p <= |buf| && Ready()
        invariant Moved(old(stub), Step(world.kernels, dev, WriteMem(paddr, buf[..p])))
      {
        var l := if |buf| - p < PIECE then |buf| - p else PIECE;
        r := WriteMemOne(paddr + p, buf[p..p + l]);
        if r != CL_SUCCESS {
          return;
        }
        WritePiece(world.kernels, dev, paddr, buf, p, l);
        p := p + l;
      }
      assert buf[..|buf|] == buf;
      return CL_SUCCESS;
    }

    /** `gdb_remote_write_bin_one` */
    method WriteBinOne(paddr: nat, buf: bytes) returns (r: int)
      requires Ready() && paddr < TWO64
      modifies this
      ensures Ready()
      ensures |buf| > 0x7f0 ==> r == CL_INVALID_VALUE && Moved(old(stub), old(stub.dev))
      ensures |buf| <= 0x7f0 ==> r == CL_SUCCESS && Moved(old(stub), Step(world.kernels, old(stub.dev), WriteMem(paddr, buf)))
    {
      hide RawFrame, Execute, AddrLen, CStr, Write;
      if |buf| > PIECE {
        return CL_INVALID_VALUE;
      }
      var strbuf := [LETTER_X] + AddrLen(paddr, |buf|) + [COLON];
      AddrLenWidth(paddr, |buf|);
      assert |strbuf| + |buf| <= |buf| + 64;
      strbuf := strbuf + buf;
      BinRequestEffect(world, stub, paddr, buf);
      assert strbuf == BinRequest(paddr, buf);
      r := Send(strbuf, true);
      if r != CL_SUCCESS {
        return CL_SUCCESS;
      }
      OkPlain();
      assert inbound == [] + RawFrame(OK) + [];
      var tmp;
      r, tmp := ReceiveReply(3, false, OK, []);
      if r != CL_SUCCESS {
        return CL_SUCCESS;
      }
      CStrWhole(tmp);
      if CStr(tmp) != OK {
        r := CL_INVALID_DEVICE;
      }
      return CL_SUCCESS;
    }

    /** `gdb_remote_write_bin` */
    method WriteMemBin(paddr: nat, buf: bytes) returns (r: int)
      requires Ready() && paddr + |buf| <= TWO64
      modifies this
      ensures r == CL_SUCCESS && Ready()
      ensures Moved(old(stub), Step(world.kernels, old(stub.dev), WriteMem(paddr, buf)))
    {
      hide Step;
      ghost var dev := stub.dev;
      var p := 0;
      WriteNone(world.kernels, dev, paddr, buf);
      while p < |buf|
        invariant 0 <= p <= |buf| && Ready()
        invariant Moved(old(stub), Step(world.kernels, dev, WriteMem(paddr, buf[..p])))
      {
        var l := if |buf| - p < PIECE then |buf| - p else PIECE;
        r := WriteBinOne(paddr + p, buf[p..p + l]);
        if r != CL_SUCCESS {
          return;
        }
        WritePiece(world.kernels, dev, paddr, buf, p, l);
        p := p + l;
      }
      assert buf[..|buf|] == buf;
      return CL_SUCCESS;
    }

    /** The operation that the driver's table gives for `op` (OpenOCD writes binary, QEMU hexadecimal). */
    method Perform(op: Op, openocd: bool) returns (answer: bytes)
      requires WorldOk(world) && (openocd || world.console(stub.resets) == [])
      requires if op.Stop? then Started() else Ready()
      requires InRange(op)
      modifies this
      ensures if op.Run? then Started() else Ready()
      ensures stub.dev == Step(world.kernels, old(stub.dev), op) && answer == DeviceMemory.Answer(old(stub.dev), op)
    {
      hide Execute, RawFrame, WorldOk;
      var r, waits;
      answer := [];
      match op {
        case Probe => Probe([]);
        case Reset =>
          if openocd {
            r, waits := OpenocdReset();
          } else {
            r, waits := QemuReset();
          }
        case Run => r := Run();
        case Stop => r := Stop();
        case ReadMem(a, n) =>
          var buf := new byte[n];
          r := ReadMem(a, buf, n);
          answer := buf[..];
        case WriteMem(a, bs) =>
          if openocd {
            r := WriteMemBin(a, bs);
          } else {
            r := WriteMemHex(a, bs);
          }
      }
    }

    /** Every legal sequence of operations keeps the two ends in step: the device goes through exactly these
        operations, each answer is the one to its own request, and nothing is left unread at the end but what
        an unfinished run prints. */
    method Session(ops: seq<Op>, openocd: bool) returns (answers: seq<bytes>)
      requires WorldOk(world) && Ready() && Legal(ops)
      requires openocd || forall n :: world.console(n) == []
      modifies this
      ensures stub.dev == After(world.kernels, old(stub.dev), ops)
      ensures answers == Answers(world.kernels, old(stub.dev), ops)
      ensures if ops != [] && ops[|ops| - 1].Run? then Started() else Ready()
    {
      hide WorldOk, Step;
      ghost var dev := stub.dev;
      answers := [];
      for i := 0 to |ops|
        invariant stub.dev == After(world.kernels, dev, ops[..i])
        invariant answers == Answers(world.kernels, dev, ops[..i])
        invariant if i > 0 && ops[i - 1].Run? then Started() else Ready()
      {
        assert ops[..i + 1][..i] == ops[..i];
        assert PairedAt(ops, i);
        var a := Perform(ops[i], openocd);
        answers := answers + [a];
      }
      assert ops[..|ops|] == ops;
    }
  }

  lemma WriteNone(kernels: Kernels, d: Dev, paddr: nat, buf: bytes)
    ensures Step(kernels, d, WriteMem(paddr, buf[..0])) == d
  {
    hide Write;
    assert buf[..0] == [];
    WriteNothing(d.mem, paddr);
  }

  lemma WritePiece(kernels: Kernels, d: Dev, paddr: nat, buf: bytes, p: nat, l: nat)
    requires p + l <= |buf|
    ensures Step(kernels, Step(kernels, d, WriteMem(paddr, buf[..p])), WriteMem(paddr + p, buf[p..p + l]))
      == Step(kernels, d, WriteMem(paddr, buf[..p + l]))
  {
    hide Write;
    WriteTwice(d.mem, paddr, buf[..p], buf[p..p + l]);
    assert buf[..p] + buf[p..p + l] == buf[..p + l];
  }

  /** The head of a write request. */
  lemma AddrLenWidth(a: nat, len: nat)
    requires a < TWO64 && len <= PIECE
    ensures |AddrLen(a, len)| <= 20
  {
    AddressWidth(a);
    LengthWidth(len);
  }

  lemma HexBytesTail(bs: bytes, i: nat)
    requires i <= |bs|
    requires var h := HexBytes(bs); !(2 * i + 1 < |h| && IsHex(h[2 * i]) && IsHex(h[2 * i + 1]))
    ensures i == |bs|
  {
    if i < |bs| {
      HexBytesPair(bs, i);
    }
  }

  /** `b`, `n` times over. */
  function Times(b: bytes, n: nat): bytes {
    if n == 0 then [] else Times(b, n - 1) + b
  }

  lemma TimesNext(w: bytes, b: bytes, n: nat)
    ensures w + Times(b, n) + b == w + Times(b, n + 1)
    ensures n == 0 ==> w + Times(b, n) == w && Times(b, 1) == b
  {
  }

  function AckText(sum: nat, high: byte, low: byte, ack: bool): bytes
    requires IsHex(high) && IsHex(low)
  {
    if !ack then [] else if HexVal(high) * 16 + HexVal(low) == sum then Text("+") else Text("-")
  }

  lemma AckRight(sum: byte)
    ensures IsHex(Hex2(sum)[0]) && IsHex(Hex2(sum)[1]) && AckText(sum, Hex2(sum)[0], Hex2(sum)[1], true) == Text("+")
  {
    HexDigitVal(sum / 16);
    HexDigitVal(sum % 16);
  }

  /** `k` stale acknowledgements, a frame with checksum text `sum`, and whatever follows. */
  ghost predicate IsReply(b: bytes, k: nat, body: bytes, sum: bytes, rest: bytes) {
    b == Pluses(k) + [DOLLAR] + body + [HASH] + sum + rest
  }

  lemma ReplyBytes(b: bytes, k: nat, body: bytes, sum: bytes, rest: bytes)
    requires IsReply(b, k, body, sum, rest) && |sum| == 2
    ensures |b| == k + 4 + |body| + |rest|
    ensures forall j :: 0 <= j < k ==> b[j] == PLUS
    ensures b[k] == DOLLAR && b[k + 1 + |body|] == HASH
    ensures forall j :: k + 1 <= j < k + 1 + |body| ==> b[j] == body[j - k - 1]
    ensures b[k + 2 + |body|] == sum[0] && b[k + 3 + |body|] == sum[1]
    ensures b[k + 4 + |body|..] == rest
  {
  }

  /** The state of the copying loop after `n` bytes of the body. */
  ghost predicate Taken(body: bytes, n: nat, room: nat, total: nat, cmd: bytes, r: int) {
    && n <= |body|
    && total == Total(body[..n])
    && cmd == body[..Min(n, room)]
    && r == if n <= room then CL_SUCCESS else CL_OUT_OF_HOST_MEMORY
  }

  lemma TakenNone(body: bytes, room: nat)
    ensures Taken(body, 0, room, 0, [], CL_SUCCESS)
  {
    assert body[..0] == [];
  }

  lemma TakenOne(body: bytes, n: nat, room: nat, total: nat, cmd: bytes, r: int)
    requires Taken(body, n, room, total, cmd, r) && n < |body|
    ensures if |cmd| < room then Taken(body, n + 1, room, total + body[n], cmd + [body[n]], r)
            else Taken(body, n + 1, room, total + body[n], cmd, CL_OUT_OF_HOST_MEMORY)
  {
    hide Total;
    assert body[..n + 1] == body[..n] + [body[n]];
    TotalSnoc(body[..n], body[n]);
  }

  lemma TakenAll(body: bytes, room: nat, total: nat, cmd: bytes, r: int)
    requires Taken(body, |body|, room, total, cmd, r)
    ensures Checksum(body) == total % 256
    ensures cmd == body[..Min(|body|, room)]
    ensures r == if |body| <= room then CL_SUCCESS else CL_OUT_OF_HOST_MEMORY
  {
    hide Total;
    assert body[..|body|] == body;
  }

  lemma ProbeReply(w: World, s: StubState)
    ensures Execute(w, s, EMPTY_PROBE) == (s, RawFrame([]))
  {
  }

  lemma RunTexts(w: World, n: nat)
    requires WorldOk(w)
    ensures forall b :: b in w.before(n) + w.after(n) ==> Plain(b) && b != [] && |b| <= LONGEST
    ensures exists i :: 0 <= i < |w.before(n) + w.after(n)| && IsStopReply((w.before(n) + w.after(n))[i])
  {
  }

  lemma RunReply(w: World, s: StubState)
    requires !s.dev.running
    ensures Execute(w, s, CONTINUE) == (s.(dev := s.dev.(running := true)), Frames(w.before(s.dev.runs)))
  {
    hide Frames;
    assert CONTINUE != EMPTY_PROBE by { assert |CONTINUE| != |EMPTY_PROBE|; }
  }

  lemma CStrEmpty(b: bytes)
    requires 0 !in b
    ensures CStr(b) == [] <==> b == []
  {
  }

  lemma NextFrame(bodies: seq<bytes>, i: nat, ahead: bytes)
    requires i < |bodies|
    ensures ahead + Frames(bodies[i..]) == ahead + RawFrame(bodies[i]) + Frames(bodies[i + 1..])
  {
    hide RawFrame;
    assert bodies[i..][1..] == bodies[i + 1..];
  }

  lemma OkPlain()
    ensures 0 !in OK && HASH !in OK && |OK| == 2
  {
  }

  lemma ResetCommand(cmd: bytes)
    requires |cmd| >= 6 && |cmd| != |EMPTY_PROBE| && cmd[..6] == QRCMD
    ensures !Unguarded(cmd)
  {
    assert |CONTINUE| == 7 && CONTINUE[0] == 118 && QRCMD[0] == 113;
    assert cmd[0] == cmd[..6][0];
  }

  /** What is unread once a reset command has been sent with at most a late '+' and output before it: whole replies,
      and the answer of a running stub to the command. */
  ghost function ResetReplies(w: World, s: StubState, cmd: bytes): (seq<bytes>, bytes) {
    if s.dev.running then (w.before(s.dev.runs), Guarded(w, s, cmd).1) else (w.console(s.resets) + [OK], [])
  }

  lemma ResetSent(w: World, s: StubState, cmd: bytes)
    requires !Unguarded(cmd) && |cmd| >= 6 && cmd[..6] == QRCMD && WorldOk(w)
    ensures var (bodies, tail) := ResetReplies(w, s, cmd);
            HASH !in tail && forall b :: b in bodies ==> Plain(b) && |b| <= LONGEST
    ensures s.dev.running ==>
      Guarded(w, s, cmd).0 == s.(acked := Guarded(w, s, cmd).0.acked, refused := Guarded(w, s, cmd).0.refused)
    ensures !s.dev.running ==>
      && OK !in w.console(s.resets)
      && Execute(w, s, cmd) ==
         (s.(dev := Halt(w.kernels, s.dev), resets := s.resets + 1), Frames(w.console(s.resets) + [OK]) + [])
  {
    hide RawFrame, Frames, Execute, Plain, WorldOk;
    OkPlain();
    TextsOk(w, s.dev.runs, s.resets);
    ResetExecuted(w, s, cmd);
    ConsoleFrames(w.console(s.resets));
  }

  lemma TextsOk(w: World, n: nat, m: nat)
    requires WorldOk(w)
    ensures forall b :: b in w.before(n) ==> Plain(b) && |b| <= LONGEST
    ensures forall b :: b in w.console(m) ==> Plain(b) && b != OK && |b| <= LONGEST
    ensures Plain(OK)
  {
    hide Plain;
    PlainOk();
    forall b | b in w.before(n)
      ensures Plain(b) && |b| <= LONGEST
    {
      assert b in w.before(n) + w.after(n);
    }
  }

  lemma PlainOk()
    ensures Plain(OK)
  {
    OkPlain();
  }

  lemma ResetExecuted(w: World, s: StubState, cmd: bytes)
    requires !Unguarded(cmd) && |cmd| >= 6 && cmd[..6] == QRCMD
    ensures Execute(w, s, cmd) ==
      if s.dev.running then (s, [])
      else (s.(dev := Halt(w.kernels, s.dev), resets := s.resets + 1), Frames(w.console(s.resets)) + RawFrame(OK))
  {
    hide RawFrame, Frames;
  }

  lemma ConsoleFrames(printed: seq<bytes>)
    ensures Frames(printed + [OK]) + [] == Frames(printed) + RawFrame(OK)
  {
    hide RawFrame, Text;
    FramesConcat(printed, [OK]);
    assert [OK][1..] == [] && Frames([]) == [] && RawFrame(OK) + [] == RawFrame(OK);
  }

  /** What the next read of a reset finds: a whole reply, or no end of one. */
  lemma NextReply(bodies: seq<bytes>, i: nat, tail: bytes)
    requires i <= |bodies| && HASH !in tail
    ensures HASH !in Frames(bodies[i..]) + tail <==> i == |bodies|
    ensures i == |bodies| ==> Frames(bodies[i..]) + tail == tail
    ensures i < |bodies| ==> Frames(bodies[i..]) + tail == [] + RawFrame(bodies[i]) + (Frames(bodies[i + 1..]) + tail)
  {
    hide RawFrame;
    if i < |bodies| {
      assert HASH in RawFrame(bodies[i]) by { FrameEnds(bodies[i]); }
      assert bodies[i..][1..] == bodies[i + 1..];
    }
  }

  lemma FrameEnds(body: bytes)
    ensures HASH in RawFrame(body)
  {
    assert RawFrame(body)[1 + |body|] == HASH;
  }

  ghost function AfterFirst(left: seq<bytes>): bytes {
    if left == [] then [] else Frames(left[1..]) + [PLUS] + RawFrame([])
  }

  /** What the next read of the draining loop finds. */
  lemma DrainOne(left: seq<bytes>)
    ensures Frames(left) + [PLUS] + RawFrame([]) ==
      (if left == [] then [PLUS] else []) + RawFrame(if left == [] then [] else left[0]) + AfterFirst(left)
  {
    hide RawFrame;
    if left != [] {
      Regroup(RawFrame(left[0]), Frames(left[1..]), [PLUS], RawFrame([]));
    } else {
      Regroup([PLUS], RawFrame([]), [], []);
    }
  }

  lemma Regroup(a: bytes, b: bytes, c: bytes, d: bytes)
    ensures a + b + c + d == [] + a + (b + c + d)
    ensures [] + a + b == a + b + []
  {
  }

  /** What comes of sending an acknowledged command once. */
  ghost function Guarded(w: World, s: StubState, cmd: bytes): (StubState, bytes) {
    var (t, out) := Execute(w, s, cmd);
    if s.refused < w.damaged(s.acked) then (s.(refused := s.refused + 1), [MINUS])
    else (t.(acked := s.acked + 1, refused := 0), [PLUS] + out)
  }

  lemma HearCommand(w: World, s: StubState, cmd: bytes)
    requires s.parser == Idle
    ensures var (t, out) := Execute(w, s, cmd);
            HearAll(w, s, Frame(cmd)) == if Unguarded(cmd) then (t, [PLUS] + out) else Guarded(w, s, cmd)
  {
    hide Execute, HearAll, Escape, Unescape, RawFrame;
    EscapeClean(cmd);
    UnescapeEscape(cmd);
    HearFrame(w, s, Escape(cmd));
  }

  lemma ExecuteKeeps(w: World, s: StubState, cmd: bytes)
    ensures var t := Execute(w, s, cmd).0;
            t.parser == s.parser && t.acked == s.acked && t.refused == s.refused
  {
  }

  lemma ExecuteIgnoresRefused(w: World, s: StubState, n: nat, cmd: bytes)
    ensures Execute(w, s.(refused := n), cmd) == (Execute(w, s, cmd).0.(refused := n), Execute(w, s, cmd).1)
  {
  }

  /** An X frame and an M frame with the same bytes leave the stub in the same state and get the same
      answer: one flat copy and "OK". */
  lemma WritesAgree(w: World, s: StubState, a: nat, bs: bytes)
    requires s.parser == Idle && !s.dev.running
    ensures HearAll(w, s, Frame(BinRequest(a, bs))) == HearAll(w, s, Frame(HexRequest(a, bs)))
    ensures s.refused >= w.damaged(s.acked) ==>
      HearAll(w, s, Frame(BinRequest(a, bs))).0.dev == s.dev.(mem := Write(s.dev.mem, a, bs))
      && HearAll(w, s, Frame(BinRequest(a, bs))).1 == [PLUS] + RawFrame(OK)
  {
    hide Execute, HearAll, RawFrame, Escape, BinRequest, HexRequest, Write;
    HexRequestEffect(w, s, a, bs);
    BinRequestEffect(w, s, a, bs);
    HearCommand(w, s, BinRequest(a, bs));
    HearCommand(w, s, HexRequest(a, bs));
  }
}
