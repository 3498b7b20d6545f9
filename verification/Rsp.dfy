/**
  The packet layer of the GDB Remote Serial Protocol as drivers/gdb/gdb_remote.c uses it
  (GDB manual, appendix E, "Overview"): framing, escaping, checksums, and hexadecimal text.
 */
module Rsp {
  import opened Bits

  type bytes = seq<byte>

  const PLUS: byte := 43
  const MINUS: byte := 45
  const DOLLAR: byte := 36
  const HASH: byte := 35
  const STAR: byte := 42
  const BRACE: byte := 125
  const ETX: byte := 3

  /** The character codes of a literal. */
  function Text(s: string): (t: bytes)
    ensures |t| == |s|
  {
    seq<byte>(|s|, i requires 0 <= i < |s| => s[i] as int % 256)
  }

  // ------------------------------------------------------------------------------------------
  // Escaping.

  predicate IsSpecial(b: byte) {
    b == HASH || b == DOLLAR || b == BRACE || b == STAR
  }

  /** `cmd[i] ^ 0x20` */
  function Flip(b: byte): byte {
    ((b as bv8) ^ 0x20) as int
  }

  /** The four bytes that do not go out as they are, and what goes out for them. */
  function EscapeByte(b: byte): (e: bytes)
    ensures e ==
      if b == 0x23 then [0x7d, 0x03]
      else if b == 0x24 then [0x7d, 0x04]
      else if b == 0x2a then [0x7d, 0x0a]
      else if b == 0x7d then [0x7d, 0x5d]
      else [b]
  {
    if IsSpecial(b) then [BRACE, Flip(b)] else [b]
  }

  function Escape(p: bytes): bytes {
    if p == [] then [] else EscapeByte(p[0]) + Escape(p[1..])
  }

  /** The other end's reading of the byte after a '}': the bit of weight 32 is turned over. */
  function Decoded(b: byte): byte {
    if b / 32 % 2 == 1 then b - 32 else b + 32
  }

  function Unescape(b: bytes): bytes {
    if b == [] then []
    else if b[0] != BRACE then [b[0]] + Unescape(b[1..])
    else if |b| == 1 then []
    else [Decoded(b[1])] + Unescape(b[2..])
  }

  lemma {:induction false} EscapeSnoc(p: bytes, b: byte)
    ensures Escape(p + [b]) == Escape(p) + EscapeByte(b)
  {
    if p == [] {
      assert [b][1..] == [];
    } else {
      assert (p + [b])[1..] == p[1..] + [b];
      EscapeSnoc(p[1..], b);
    }
  }

  /** A body may hold '}' only in front of an escaped byte, and never '#', '$' or '*'. */
  ghost predicate Escaped(b: bytes) {
    b == [] || if b[0] == BRACE then |b| >= 2 && IsSpecial(Decoded(b[1])) && Escaped(b[2..])
               else !IsSpecial(b[0]) && Escaped(b[1..])
  }

  /** Unescaping gives back the payload. */
  lemma {:induction false} UnescapeEscape(p: bytes)
    ensures Unescape(Escape(p)) == p
  {
    if p != [] {
      UnescapeEscape(p[1..]);
      var e, rest := EscapeByte(p[0]), Escape(p[1..]);
      assert (e + rest)[|e|..] == rest;
    }
  }

  lemma {:induction false} EscapeShape(p: bytes)
    ensures Escaped(Escape(p))
    ensures |p| <= |Escape(p)| <= 2 * |p|
  {
    if p != [] {
      EscapeShape(p[1..]);
      var e, rest := EscapeByte(p[0]), Escape(p[1..]);
      assert (e + rest)[|e|..] == rest;
    }
  }

  /** The end mark and the other two framing bytes never occur in a body. */
  lemma {:induction false} EscapeClean(p: bytes)
    ensures HASH !in Escape(p) && DOLLAR !in Escape(p) && STAR !in Escape(p)
  {
    if p != [] {
      EscapeClean(p[1..]);
    }
  }

  /** Text without any of the four special bytes goes out as it is. */
  lemma {:induction false} EscapePlain(p: bytes)
    requires forall b :: b in p ==> !IsSpecial(b)
    ensures Escape(p) == p
  {
    if p != [] {
      EscapePlain(p[1..]);
    }
  }

  // ------------------------------------------------------------------------------------------
  // Checksums and hexadecimal digits.

  function Total(b: bytes): nat {
    if b == [] then 0 else Total(b[..|b| - 1]) + b[|b| - 1]
  }

  function Checksum(b: bytes): byte {
    Total(b) % 256
  }

  lemma TotalSnoc(b: bytes, c: byte)
    ensures Total(b + [c]) == Total(b) + c
  {
    assert (b + [c])[..|b|] == b;
  }

  lemma ChecksumSnoc(b: bytes, c: byte)
    ensures Checksum(b + [c]) == (Checksum(b) + c) % 256
  {
    TotalSnoc(b, c);
  }

  function HexDigit(d: nat): byte
    requires d < 16
  {
    if d < 10 then 48 + d else 87 + d
  }

  predicate IsHex(c: byte) {
    48 <= c <= 57 || 97 <= c <= 102 || 65 <= c <= 70
  }

  function HexVal(c: byte): (v: nat)
    requires IsHex(c)
    ensures v < 16
  {
    if c <= 57 then c - 48 else if c >= 97 then c - 87 else c - 55
  }

  /** Digits are written in lower case and read in either. */
  lemma HexCharacters(d: nat)
    requires d < 16
    ensures HexDigit(d) as char == "0123456789abcdef"[d]
    ensures forall c: byte :: IsHex(c) && HexVal(c) == d <==>
      c as char == "0123456789abcdef"[d] || c as char == "0123456789ABCDEF"[d]
  {
  }

  lemma HexDigitVal(d: nat)
    requires d < 16
    ensures IsHex(HexDigit(d)) && HexVal(HexDigit(d)) == d && !IsSpecial(HexDigit(d)) && HexDigit(d) != 0
  {
  }

  function Hex2(v: byte): (h: bytes)
    ensures |h| == 2
  {
    [HexDigit(v / 16), HexDigit(v % 16)]
  }

  function RawFrame(body: bytes): bytes {
    [DOLLAR] + body + [HASH] + Hex2(Checksum(body))
  }

  function Frame(payload: bytes): bytes {
    RawFrame(Escape(payload))
  }

  /** `n` in hexadecimal without leading zeros, as "%x" prints it. */
  function HexNum(n: nat): (h: bytes)
    ensures h != []
  {
    if n < 16 then [HexDigit(n)] else HexNum(n / 16) + [HexDigit(n % 16)]
  }

  function Zeros(k: nat): (z: bytes)
    ensures |z| == k && forall b :: b in z ==> b == 48
  {
    if k == 0 then [] else Zeros(k - 1) + [48]
  }

  /** "%08x" */
  function HexNum8(n: nat): bytes {
    if |HexNum(n)| < 8 then Zeros(8 - |HexNum(n)|) + HexNum(n) else HexNum(n)
  }

  /** Number of hexadecimal digits `s` starts with. */
  function LeadHex(s: bytes): (k: nat)
    ensures k <= |s| && (forall i :: 0 <= i < k ==> IsHex(s[i])) && (k < |s| ==> !IsHex(s[k]))
  {
    if s == [] || !IsHex(s[0]) then 0 else 1 + LeadHex(s[1..])
  }

  function HexValue(s: bytes): nat
    requires forall i :: 0 <= i < |s| ==> IsHex(s[i])
  {
    if s == [] then 0 else HexValue(s[..|s| - 1]) * 16 + HexVal(s[|s| - 1])
  }

  lemma {:induction false} HexNumValue(n: nat)
    ensures forall i :: 0 <= i < |HexNum(n)| ==> IsHex(HexNum(n)[i]) && !IsSpecial(HexNum(n)[i])
    ensures HexValue(HexNum(n)) == n
  {
    HexDigitVal(n % 16);
    if n < 16 {
      assert HexValue([]) == 0;
    } else {
      HexNumValue(n / 16);
      assert HexNum(n)[..|HexNum(n)| - 1] == HexNum(n / 16);
    }
  }

  lemma {:induction false} ZerosValue(k: nat, h: bytes)
    requires forall i :: 0 <= i < |h| ==> IsHex(h[i])
    ensures forall i :: 0 <= i < |Zeros(k) + h| ==> IsHex((Zeros(k) + h)[i])
    ensures HexValue(Zeros(k) + h) == HexValue(h)
    decreases |h|, k
  {
    var z := Zeros(k);
    forall i | 0 <= i < |z + h|
      ensures IsHex((z + h)[i])
    {
      if i < k {
        assert z[i] in z;
      }
    }
    if h == [] {
      if k > 0 {
        ZerosValue(k - 1, []);
        assert (z + h)[..k - 1] == Zeros(k - 1) + [];
        assert z == Zeros(k - 1) + [48];
      } else {
        assert z + h == [];
      }
    } else {
      ZerosValue(k, h[..|h| - 1]);
      assert (z + h)[..|z + h| - 1] == z + h[..|h| - 1];
    }
  }

  lemma HexNum8Value(n: nat)
    ensures forall i :: 0 <= i < |HexNum8(n)| ==> IsHex(HexNum8(n)[i]) && !IsSpecial(HexNum8(n)[i])
    ensures HexValue(HexNum8(n)) == n
  {
    HexNumValue(n);
    if |HexNum(n)| < 8 {
      var k := 8 - |HexNum(n)|;
      ZerosValue(k, HexNum(n));
      forall i | 0 <= i < |HexNum8(n)|
        ensures !IsSpecial(HexNum8(n)[i])
      {
        if i < k {
          assert Zeros(k)[i] in Zeros(k);
        }
      }
    }
  }

  lemma {:induction false} LeadHexOf(h: bytes, rest: bytes)
    requires forall i :: 0 <= i < |h| ==> IsHex(h[i])
    requires rest != [] ==> !IsHex(rest[0])
    ensures LeadHex(h + rest) == |h|
  {
    if h == [] {
      assert h + rest == rest;
    } else {
      assert (h + rest)[1..] == h[1..] + rest;
      LeadHexOf(h[1..], rest);
    }
  }

  /** 16^k */
  function Pow16(k: nat): (p: nat)
    ensures p >= 1
  {
    if k == 0 then 1 else 16 * Pow16(k - 1)
  }

  lemma {:induction false} HexNumLength(n: nat, k: nat)
    requires k >= 1
    ensures |HexNum(n)| <= k <==> n < Pow16(k)
    decreases k
  {
    if k == 1 {
      assert Pow16(1) == 16 * Pow16(0);
    } else {
      assert Pow16(k) == 16 * Pow16(k - 1);
      HexNumLength(n / 16, k - 1);
    }
  }

  /** An address has at least eight digits, and more only if it needs them. */
  lemma HexNum8Width(n: nat)
    ensures |HexNum8(n)| == if n < 0x1_0000_0000 then 8 else |HexNum(n)|
  {
    hide HexNum;
    HexNumLength(n, 8);
    assert Pow16(8) == 0x1_0000_0000;
  }

  /** `n >> 4 * t` */
  function DropDigits(n: nat, t: nat): nat
    decreases t
  {
    if t == 0 then n else DropDigits(n / 16, t - 1)
  }

  lemma {:induction false} DropDigitsSmaller(n: nat, t: nat)
    ensures DropDigits(n, t) <= n
    ensures t > 0 && n > 0 ==> DropDigits(n, t) < n
    decreases t
  {
    if t > 0 {
      DropDigitsSmaller(n / 16, t - 1);
    }
  }

  lemma {:induction false} HexNumPrefix(n: nat, t: nat)
    requires t < |HexNum(n)|
    ensures HexNum(n)[..|HexNum(n)| - t] == HexNum(DropDigits(n, t))
    decreases t
  {
    if t > 0 {
      HexNumPrefix(n / 16, t - 1);
      var h := HexNum(n);
      assert h[..|h| - t] == HexNum(n / 16)[..|h| - 1 - (t - 1)];
    }
  }

  // ------------------------------------------------------------------------------------------
  // Byte strings as pairs of digits.

  function HexBytes(bs: bytes): (h: bytes)
    ensures |h| == 2 * |bs|
  {
    seq<byte>(2 * |bs|, k requires 0 <= k < 2 * |bs| =>
      HexDigit(if k % 2 == 0 then bs[k / 2] / 16 else bs[k / 2] % 16))
  }

  predicate AllHex(h: bytes) {
    forall i :: 0 <= i < |h| ==> IsHex(h[i])
  }

  function HexPair(h: bytes, i: nat): byte
    requires 2 * i + 1 < |h| && IsHex(h[2 * i]) && IsHex(h[2 * i + 1])
  {
    HexVal(h[2 * i]) * 16 + HexVal(h[2 * i + 1])
  }

  lemma HexBytesPair(bs: bytes, i: nat)
    requires i < |bs|
    ensures var h := HexBytes(bs);
            IsHex(h[2 * i]) && IsHex(h[2 * i + 1]) && HexPair(h, i) == bs[i]
  {
    HexDigitVal(bs[i] / 16);
    HexDigitVal(bs[i] % 16);
    assert 2 * i / 2 == i && (2 * i + 1) / 2 == i;
  }

  lemma HexBytesPlain(bs: bytes)
    ensures forall k :: 0 <= k < |HexBytes(bs)| ==>
              IsHex(HexBytes(bs)[k]) && !IsSpecial(HexBytes(bs)[k]) && HexBytes(bs)[k] != 0
  {
    forall k | 0 <= k < |HexBytes(bs)|
      ensures IsHex(HexBytes(bs)[k]) && !IsSpecial(HexBytes(bs)[k]) && HexBytes(bs)[k] != 0
    {
      HexDigitVal(if k % 2 == 0 then bs[k / 2] / 16 else bs[k / 2] % 16);
    }
  }

  lemma HexBytesSnoc(bs: bytes, b: byte)
    ensures HexBytes(bs + [b]) == HexBytes(bs) + Hex2(b)
  {
  }

  /** The part of a buffer a C string function sees. */
  function CStr(b: bytes): bytes {
    if b == [] || b[0] == 0 then [] else [b[0]] + CStr(b[1..])
  }

  lemma {:induction false} CStrWhole(b: bytes)
    requires 0 !in b
    ensures CStr(b) == b
  {
    if b != [] {
      CStrWhole(b[1..]);
    }
  }
}
