/** The memory requests of drivers/gdb/gdb_remote.c and what a correct stub makes of them. */
module Requests {
  import opened Bits
  import opened DeviceMemory
  import opened Rsp
  import opened Stub

  const COMMA: byte := 44
  const COLON: byte := 58
  const LETTER_m: byte := 109
  const LETTER_M: byte := 77
  const LETTER_X: byte := 88

  /** Largest transfer of one request. */
  const PIECE: nat := 0x7f0

  /** "%08x,%x" */
  function AddrLen(a: nat, len: nat): bytes {
    HexNum8(a) + [COMMA] + HexNum(len)
  }

  /** The text that "m%08x,%x" leaves in a buffer of 20 characters. */
  function ReadRequest(a: nat, len: nat): bytes {
    var full := [LETTER_m] + AddrLen(a, len);
    if |full| <= 19 then full else full[..19]
  }

  function HexRequest(a: nat, bs: bytes): bytes {
    [LETTER_M] + AddrLen(a, |bs|) + [COLON] + HexBytes(bs)
  }

  function BinRequest(a: nat, bs: bytes): bytes {
    [LETTER_X] + AddrLen(a, |bs|) + [COLON] + bs
  }

  /** Digits of the length that do not fit in the read request. */
  function LostDigits(a: nat, len: nat): nat {
    var n := 2 + |HexNum8(a)| + |HexNum(len)|;
    if n <= 19 then 0 else n - 19
  }

  /** How many bytes the stub is asked for. */
  function Requested(a: nat, len: nat): nat {
    DropDigits(len, LostDigits(a, len))
  }

  lemma AddressWidth(a: nat)
    requires a < TWO64
    ensures |HexNum8(a)| <= 16
    ensures a < 0x100_0000_0000_0000 <==> |HexNum8(a)| <= 14
  {
    HexNumLength(a, 16);
    HexNumLength(a, 14);
    Pow16Values();
  }

  lemma Pow16Values()
    ensures Pow16(3) == 0x1000 && Pow16(14) == 0x100_0000_0000_0000 && Pow16(16) == TWO64
  {
    assert Pow16(8) == 0x1_0000_0000;
    assert Pow16(14) == 0x100_0000_0000_0000;
  }

  lemma LengthWidth(len: nat)
    requires len <= PIECE
    ensures |HexNum(len)| <= 3
  {
    HexNumLength(len, 3);
    Pow16Values();
  }

  /** The stub is asked for exactly `len` bytes if and only if the request fits its 19 characters. In
      particular every request below 2^56 is complete; a full piece above 2^56 never is. */
  lemma ReadRequestComplete(a: nat, len: nat)
    requires a < TWO64 && len <= PIECE
    ensures Requested(a, len) <= len
    ensures len > 0 ==> (Requested(a, len) == len <==> |HexNum8(a)| + |HexNum(len)| <= 17)
    ensures a < 0x100_0000_0000_0000 ==> Requested(a, len) == len
    ensures a >= 0x100_0000_0000_0000 && len == PIECE ==> Requested(a, len) < len
  {
    AddressWidth(a);
    LengthWidth(len);
    DropDigitsSmaller(len, LostDigits(a, len));
    HexNumLength(PIECE, 2);
    assert Pow16(2) == 256;
  }

  /** A request that is not cut off. */
  predicate Complete(a: nat, len: nat) {
    len == 0 || |HexNum8(a)| + |HexNum(len)| <= 17
  }

  /** Every piece of a transfer is asked for by a request that is not cut off. */
  predicate AllComplete(a: nat, len: nat)
    decreases len
  {
    if len <= PIECE then Complete(a, len) else Complete(a, PIECE) && AllComplete(a + PIECE, len - PIECE)
  }

  lemma RequestedComplete(a: nat, len: nat)
    requires a < TWO64 && len <= PIECE
    ensures Requested(a, len) == len <==> Complete(a, len)
  {
    if len > 0 {
      ReadRequestComplete(a, len);
    } else {
      DropDigitsSmaller(0, LostDigits(a, 0));
    }
  }

  lemma {:induction false} BelowComplete(a: nat, len: nat)
    requires a + len <= 0x100_0000_0000_0000
    ensures AllComplete(a, len)
    decreases len
  {
    if 0 < len {
      var l := if len <= PIECE then len else PIECE;
      ReadRequestComplete(a, l);
      RequestedComplete(a, l);
      if len > PIECE {
        BelowComplete(a + PIECE, len - PIECE);
      }
    }
  }

  /** What a buffer that held `was` holds after `len` bytes from `paddr` were read to `at`, piece by piece: each piece
      delivers the bytes that its request asks for. */
  function Filled(was: bytes, at: nat, mem: Memory, paddr: nat, len: nat): (now: bytes)
    requires at + len <= |was| && paddr + len <= TWO64
    ensures |now| == |was|
    decreases len
  {
    if len == 0 then was
    else
      var l := if len < PIECE then len else PIECE;
      ReadRequestComplete(paddr, l);
      Filled(Splice(was, at, Read(mem, paddr, Requested(paddr, l))), at + l, mem, paddr + l, len - l)
  }

  /** If no request is cut off, the pieces together are one flat read. */
  lemma {:induction false} FilledFlat(was: bytes, at: nat, mem: Memory, paddr: nat, len: nat)
    requires at + len <= |was| && paddr + len <= TWO64 && AllComplete(paddr, len)
    ensures Filled(was, at, mem, paddr, len) == Splice(was, at, Read(mem, paddr, len))
    decreases len
  {
    hide Requested, Complete;
    if len > 0 {
      var l := if len < PIECE then len else PIECE;
      RequestedComplete(paddr, l);
      if l < len {
        FilledFlat(Splice(was, at, Read(mem, paddr, l)), at + l, mem, paddr + l, len - l);
      }
      SpliceReads(was, at, mem, paddr, l, len - l);
    }
  }

  lemma SpliceReads(was: bytes, at: nat, mem: Memory, paddr: nat, l: nat, n: nat)
    requires at + l + n <= |was|
    ensures Splice(Splice(was, at, Read(mem, paddr, l)), at + l, Read(mem, paddr + l, n))
      == Splice(was, at, Read(mem, paddr, l + n))
  {
  }

  /** Otherwise some byte of the range is never delivered: whatever the memory and the buffer, it keeps what the buffer
      held. */
  lemma {:induction false} FilledShort(was: bytes, at: nat, mem: Memory, paddr: nat, len: nat) returns (k: nat)
    requires at + len <= |was| && paddr + len <= TWO64 && !AllComplete(paddr, len)
    ensures at <= k < at + len && Filled(was, at, mem, paddr, len)[k] == was[k]
    decreases len
  {
    hide HexNum8, HexNum, Requested, Splice, Read;
    assert len > 0;
    var l := if len < PIECE then len else PIECE;
    RequestedComplete(paddr, l);
    ReadRequestComplete(paddr, l);
    var n := Requested(paddr, l);
    var now := Splice(was, at, Read(mem, paddr, n));
    if n < l {
      k := at + n;
      SpliceKeeps(was, at, Read(mem, paddr, n), k);
      FilledKeeps(now, at + l, mem, paddr + l, len - l, k);
    } else {
      k := FilledShort(now, at + l, mem, paddr + l, len - l);
      SpliceKeeps(was, at, Read(mem, paddr, n), k);
    }
  }

  lemma SpliceKeeps(was: bytes, at: nat, data: bytes, k: nat)
    requires at + |data| <= |was| && k < |was| && !(at <= k < at + |data|)
    ensures Splice(was, at, data)[k] == was[k]
  {
  }

  lemma {:induction false} FilledKeeps(was: bytes, at: nat, mem: Memory, paddr: nat, len: nat, k: nat)
    requires at + len <= |was| && paddr + len <= TWO64 && k < at
    ensures Filled(was, at, mem, paddr, len)[k] == was[k]
    decreases len
  {
    if len > 0 {
      var l := if len < PIECE then len else PIECE;
      ReadRequestComplete(paddr, l);
      SpliceKeeps(was, at, Read(mem, paddr, Requested(paddr, l)), k);
      FilledKeeps(Splice(was, at, Read(mem, paddr, Requested(paddr, l))), at + l, mem, paddr + l, len - l, k);
    }
  }

  /** Reads whose requests are complete and writes inside the 64-bit address space. */
  predicate InRange(op: Op) {
    match op
    case ReadMem(a, n) => a + n <= TWO64 && AllComplete(a, n)
    case WriteMem(a, bs) => a + |bs| <= TWO64
    case _ => true
  }

  ghost predicate Legal(ops: seq<Op>) {
    Paired(ops) && forall i :: 0 <= i < |ops| ==> InRange(ops[i])
  }

  // ------------------------------------------------------------------------------------------

  /** Digits up to the first other byte. */
  lemma LeadSplit(h: bytes, c: byte, t: bytes)
    requires AllHex(h) && !IsHex(c)
    ensures var s := h + [c] + t;
            LeadHex(s) == |h| && s[|h|] == c && s[..|h|] == h && s[|h| + 1..] == t
  {
    hide LeadHex;
    assert h + [c] + t == h + ([c] + t);
    LeadHexOf(h, [c] + t);
  }

  lemma ParseAddrLenOf(a: nat, digits: bytes, rest: bytes)
    requires AllHex(digits)
    requires rest != [] ==> !IsHex(rest[0])
    ensures ParseAddrLen(HexNum8(a) + [COMMA] + (digits + rest)) == Located(a, HexValue(digits), rest)
  {
    hide HexNum8, HexValue, LeadHex;
    HexNum8Value(a);
    LeadSplit(HexNum8(a), COMMA, digits + rest);
    LeadHexOf(digits, rest);
    SplitAt(digits, rest);
  }

  lemma SplitAt(a: bytes, b: bytes)
    ensures (a + b)[..|a|] == a && (a + b)[|a|..] == b
  {
  }

  lemma FirstByte(payload: bytes)
    requires payload != [] && (payload[0] == LETTER_m || payload[0] == LETTER_M || payload[0] == LETTER_X)
    ensures !Unguarded(payload)
    ensures |payload| >= 6 ==> payload[..6] != QRCMD
  {
    assert EMPTY_PROBE[0] == 118 && CONTINUE[0] == 118 && QRCMD[0] == 113;
    if |payload| >= 6 {
      assert payload[..6][0] == payload[0];
    }
  }

  lemma ReadRequestShape(a: nat, len: nat)
    requires a < TWO64
    ensures ReadRequest(a, len) == [LETTER_m] + (HexNum8(a) + [COMMA] + (HexNum(Requested(a, len)) + []))
  {
    AddressWidth(a);
    var h, d, t := HexNum8(a), HexNum(len), LostDigits(a, len);
    HexNumPrefix(len, t);
    assert ReadRequest(a, len) == [LETTER_m] + h + [COMMA] + d[..|d| - t];
  }

  /** The stub answers a read request with the memory it was asked for. */
  lemma ReadRequestReply(w: World, s: StubState, a: nat, len: nat)
    requires a < TWO64 && !s.dev.running
    ensures !Unguarded(ReadRequest(a, len))
    ensures Execute(w, s, ReadRequest(a, len)) == (s, RawFrame(HexBytes(Read(s.dev.mem, a, Requested(a, len)))))
  {
    hide RawFrame, HexBytes, ParseAddrLen;
    var p, n := ReadRequest(a, len), Requested(a, len);
    ReadRequestShape(a, len);
    HexNumValue(n);
    ParseAddrLenOf(a, HexNum(n), []);
    assert p[1..] == HexNum8(a) + [COMMA] + (HexNum(n) + []);
    FirstByte(p);
  }

  lemma DecodeHexBytes(bs: bytes)
    ensures IsHexText(HexBytes(bs), |bs|) && DecodeHex(HexBytes(bs)) == bs
  {
    HexBytesPlain(bs);
    var h := HexBytes(bs);
    assert AllHex(h);
    forall i | 0 <= i < |bs|
      ensures DecodeHex(h)[i] == bs[i]
    {
      HexBytesPair(bs, i);
    }
  }

  lemma LocatedRequest(a: nat, bs: bytes, letter: byte, data: bytes)
    requires letter == LETTER_M || letter == LETTER_X
    ensures var p := [letter] + AddrLen(a, |bs|) + [COLON] + data;
            && !Unguarded(p) && p[0] == letter && (|p| >= 6 ==> p[..6] != QRCMD)
            && ParseAddrLen(p[1..]) == Located(a, |bs|, [COLON] + data)
  {
    hide HexNum, HexNum8, ParseAddrLen;
    var p := [letter] + AddrLen(a, |bs|) + [COLON] + data;
    HexNumValue(|bs|);
    ParseAddrLenOf(a, HexNum(|bs|), [COLON] + data);
    assert p[1..] == HexNum8(a) + [COMMA] + (HexNum(|bs|) + ([COLON] + data));
    FirstByte(p);
  }

  /** Both kinds of write do the same to the stub: one flat copy. */
  lemma HexRequestEffect(w: World, s: StubState, a: nat, bs: bytes)
    requires !s.dev.running
    ensures !Unguarded(HexRequest(a, bs))
    ensures Execute(w, s, HexRequest(a, bs)) == (s.(dev := s.dev.(mem := Write(s.dev.mem, a, bs))), RawFrame(OK))
  {
    hide RawFrame, HexBytes, ParseAddrLen, AddrLen;
    DecodeHexBytes(bs);
    LocatedRequest(a, bs, LETTER_M, HexBytes(bs));
    assert ([COLON] + HexBytes(bs))[1..] == HexBytes(bs);
  }

  lemma BinRequestEffect(w: World, s: StubState, a: nat, bs: bytes)
    requires !s.dev.running
    ensures !Unguarded(BinRequest(a, bs))
    ensures Execute(w, s, BinRequest(a, bs)) == (s.(dev := s.dev.(mem := Write(s.dev.mem, a, bs))), RawFrame(OK))
  {
    hide RawFrame, ParseAddrLen, AddrLen;
    LocatedRequest(a, bs, LETTER_X, bs);
    assert ([COLON] + bs)[1..] == bs;
  }
}
