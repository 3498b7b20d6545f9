/**
  The PCI path to device memory (drivers/pci/pci_sysfs.c): a table of address windows onto mapped BARs, and copies
  that never access memory unaligned.
 */
module Pci {
  import opened Bits
  import opened Codes
  import opened DeviceMemory

  /** Host memory, mapped BARs included. It is reached by loads and stores of 1 or 8 bytes, each at an address that its
      width divides. */
  class Host {
    var mem: Memory

    constructor (mem: Memory)
      ensures this.mem == mem
    {
      this.mem := mem;
    }

    method Load(at: nat, width: nat) returns (bs: seq<byte>)
      requires (width == 1 || width == 8) && at % width == 0
      ensures bs == Read(mem, at, width)
    {
      bs := Read(mem, at, width);
    }

    method Store(at: nat, bs: seq<byte>)
      requires (|bs| == 1 || |bs| == 8) && at % |bs| == 0
      modifies this
      ensures mem == Write(old(mem), at, bs)
    {
      mem := Write(mem, at, bs);
    }
  }

  /** One assignment `*d = *s` of the copy loops. */
  method Move(host: Host, d: nat, s: nat, width: nat)
    requires (width == 1 || width == 8) && d % width == 0 && s % width == 0
    modifies host
    ensures host.mem == Copied(old(host.mem), d, s, width)
  {
    hide Read, Write;
    var v := host.Load(s, width);
    host.Store(d, v);
  }

  /** `pci_sysfs_memcpy_slow` */
  method CopySlow(host: Host, dest: nat, src: nat, n: nat)
    requires Apart(dest, n, src, n)
    modifies host
    ensures host.mem == Copied(old(host.mem), dest, src, n)
  {
    hide Copied;
    ghost var was := host.mem;
    var d, s, left := dest, src, n;
    CopiedNone(was, dest, src);
    while left != 0
      invariant 0 <= left <= n && d == dest + (n - left) && s == src + (n - left)
      invariant host.mem == Copied(was, dest, src, n - left)
    {
      CopiedPiece(was, dest, src, n, n - left, 1);
      Move(host, d, s, 1);
      left, d, s := left - 1, d + 1, s + 1;
    }
  }

  /** `pci_sysfs_memcpy`. Whatever the two addresses, exactly `n` bytes are copied, and no access is unaligned. */
  method Copy(host: Host, dest: nat, src: nat, n: nat)
    requires Apart(dest, n, src, n)
    modifies host
    ensures host.mem == Copied(old(host.mem), dest, src, n)
  {
    hide Copied;
    if dest % 8 != 0 || src % 8 != 0 {
      CopySlow(host, dest, src, n);
      return;
    }
    ghost var was := host.mem;
    var d, s, left := dest, src, n;
    CopiedNone(was, dest, src);
    while left >= 8
      invariant 0 <= left <= n && d == dest + (n - left) && s == src + (n - left)
      invariant d % 8 == 0 && s % 8 == 0
      invariant host.mem == Copied(was, dest, src, n - left)
    {
      CopiedPiece(was, dest, src, n, n - left, 8);
      Move(host, d, s, 8);
      left, d, s := left - 8, d + 8, s + 8;
    }
    if left > 0 {
      CopiedPiece(was, dest, src, n, n - left, left);
      CopySlow(host, d, s, left);
    }
  }

  /** Memory after `n` bytes from `src` were copied to `dest`. */
  function Copied(mem: Memory, dest: nat, src: nat, n: nat): Memory {
    Write(mem, dest, Read(mem, src, n))
  }

  lemma CopiedNone(mem: Memory, dest: nat, src: nat)
    ensures Copied(mem, dest, src, 0) == mem
  {
    hide Write;
    assert Read(mem, src, 0) == [];
    WriteNothing(mem, dest);
  }

  /** Between ranges that do not overlap two adjacent copies are one. */
  lemma CopiedPiece(mem: Memory, dest: nat, src: nat, n: nat, p: nat, l: nat)
    requires Apart(dest, n, src, n) && p + l <= n
    ensures Copied(Copied(mem, dest, src, p), dest + p, src + p, l) == Copied(mem, dest, src, p + l)
  {
    hide Write, Read;
    ReadApart(mem, dest, Read(mem, src, p), src + p, l);
    ReadSplit(mem, src, p + l, p);
    WriteTwice(mem, dest, Read(mem, src, p), Read(mem, src + p, l));
  }

  // ------------------------------------------------------------------------------------------
  // Address windows.

  /** `struct pci_sysfs_memmap`. The sentinel that ends a table is not part of it. */
  datatype Window = Window(paddr: nat, size: nat, bar: nat, off: nat)

  predicate Covers(w: Window, paddr: nat, len: nat) {
    w.paddr <= paddr && paddr + len <= w.paddr + w.size
  }

  /** The test of `pci_sysfs_get_addr`, with its 64-bit sums. */
  predicate Passes(w: Window, paddr: nat, len: nat) {
    !(paddr < w.paddr || (w.paddr + w.size) % TWO64 < (paddr + len) % TWO64)
  }

  /** The test is right exactly when neither sum wraps around without the other, or the wrapped sum falls on the right
      side anyway. */
  lemma PassesExactly(w: Window, paddr: nat, len: nat)
    requires w.paddr < TWO64 && w.size < TWO64 && paddr < TWO64 && len < TWO64
    ensures (Passes(w, paddr, len) <==> Covers(w, paddr, len)) <==>
      var end, top := paddr + len, w.paddr + w.size;
      || paddr < w.paddr
      || (end < TWO64 <==> top < TWO64)
      || (if top < TWO64 then top < end - TWO64 else end <= top - TWO64)
  {
  }

  /** A range that starts in a window and wraps all the way round passes. */
  lemma WrappedRange()
    ensures var w := Window(0, 0x1000, 0, 0);
            Passes(w, 0x500, TWO64 - 0x500) && !Covers(w, 0x500, TWO64 - 0x500)
  {
  }

  /** The first of `windows` whose test the range passes. */
  ghost predicate Picks(windows: seq<Window>, paddr: nat, len: nat, i: nat) {
    i < |windows| && Passes(windows[i], paddr, len) && forall j :: 0 <= j < i ==> !Passes(windows[j], paddr, len)
  }

  /** No window is taken for one that holds the range when it does not. */
  ghost predicate Sound(windows: seq<Window>, paddr: nat, len: nat) {
    forall j :: 0 <= j < |windows| && Passes(windows[j], paddr, len) ==> Covers(windows[j], paddr, len)
  }

  /** If neither the range nor a window wraps around, the scan is right: it succeeds exactly if one window holds all of
      the range. */
  lemma ScanSound(windows: seq<Window>, paddr: nat, len: nat)
    requires paddr + len < TWO64 && forall j :: 0 <= j < |windows| ==> windows[j].paddr + windows[j].size < TWO64
    ensures Sound(windows, paddr, len)
    ensures (exists i :: Picks(windows, paddr, len, i)) <==>
      exists j :: 0 <= j < |windows| && Covers(windows[j], paddr, len)
  {
    hide Passes, Covers;
    forall j | 0 <= j < |windows|
      ensures Passes(windows[j], paddr, len) <==> Covers(windows[j], paddr, len)
    {
      PassesExactly(windows[j], paddr, len);
    }
    if j :| 0 <= j < |windows| && Covers(windows[j], paddr, len) {
      FirstPick(windows, paddr, len, j);
    }
  }

  lemma {:induction false} FirstPick(windows: seq<Window>, paddr: nat, len: nat, j: nat)
    requires j < |windows| && Passes(windows[j], paddr, len)
    ensures exists i :: Picks(windows, paddr, len, i)
  {
    hide Passes;
    if k :| 0 <= k < j && Passes(windows[k], paddr, len) {
      FirstPick(windows, paddr, len, k);
    } else {
      assert Picks(windows, paddr, len, j);
    }
  }

  /** `struct pci_sysfs_priv`: the table, and where each BAR is mapped. */
  class Bars {
    const host: Host
    const windows: seq<Window>
    const base: seq<nat>
    const size: seq<nat>

    constructor (host: Host, windows: seq<Window>, base: seq<nat>, size: seq<nat>)
      ensures this.host == host && this.windows == windows && this.base == base && this.size == size
    {
      this.host, this.windows, this.base, this.size := host, windows, base, size;
    }

    /** Every window lies in a mapped BAR. */
    ghost predicate Mapped() {
      && |size| == |base|
      && forall i :: 0 <= i < |windows| ==> windows[i].bar < |base| && windows[i].off + windows[i].size <= size[windows[i].bar]
    }

    /** Where window `i` puts device address `a` in host memory. */
    function Place(i: nat, a: nat): nat
      requires Mapped() && i < |windows| && windows[i].paddr <= a
    {
      base[windows[i].bar] + (windows[i].off + a - windows[i].paddr)
    }

    /** The table gives each device address one place of its own. */
    ghost predicate Valid() {
      && Mapped()
      && (forall i, j, a, b | 0 <= i < |windows| && 0 <= j < |windows| && 0 <= a && 0 <= b
                              && Covers(windows[i], a, 1) && Covers(windows[j], b, 1) ::
            a == b <==> Place(i, a) == Place(j, b))
    }

    ghost predicate Shown(mem: Memory, dev: Memory, i: nat, a: nat)
      requires Mapped() && i < |windows| && Covers(windows[i], a, 1)
    {
      Get(mem, Place(i, a)) == Get(dev, a)
    }

    /** Through the windows host memory `mem` shows device memory `dev`. */
    ghost predicate Shows(mem: Memory, dev: Memory)
      requires Mapped()
    {
      forall i, a: nat | 0 <= i < |windows| && Covers(windows[i], a, 1) :: Shown(mem, dev, i, a)
    }

    /** `pci_sysfs_get_addr`, for any 64-bit range. */
    method GetAddr(paddr: nat, len: nat) returns (r: int, i: nat, ptr: nat)
      requires Mapped() && paddr < TWO64 && len < TWO64
      ensures r == CL_SUCCESS ==>
        && Picks(windows, paddr, len, i) && windows[i].paddr <= paddr && ptr == Place(i, paddr)
        && ptr == base[windows[i].bar] + windows[i].off + (paddr - windows[i].paddr)
      ensures r != CL_SUCCESS ==> r == CL_INVALID_VALUE && forall j :: !Picks(windows, paddr, len, j)
    {
      i, ptr := 0, 0;
      while i < |windows|
        invariant 0 <= i <= |windows|
        invariant forall j :: 0 <= j < i ==> !Passes(windows[j], paddr, len)
      {
        if Passes(windows[i], paddr, len) {
          ptr := Place(i, paddr);
          return CL_SUCCESS, i, ptr;
        }
        i := i + 1;
      }
      return CL_INVALID_VALUE, i, ptr;
    }

    /** What a copy asks of its caller: wherever the range is taken to lie, it does not overlap the buffer. */
    ghost predicate Clear(paddr: nat, len: nat, buf: nat)
      requires Mapped()
    {
      forall i: nat :: Picks(windows, paddr, len, i) && windows[i].paddr <= paddr ==> Apart(Place(i, paddr), len, buf, len)
    }

    /** The buffer lies outside all BARs. */
    ghost predicate Outside(buf: nat, len: nat)
      requires Mapped()
    {
      forall b :: 0 <= b < |base| ==> Apart(base[b], size[b], buf, len)
    }

    /** A buffer outside the BARs is clear of every range that is rightly taken. */
    lemma ClearOutside(paddr: nat, len: nat, buf: nat)
      requires Mapped() && Outside(buf, len) && Sound(windows, paddr, len)
      ensures Clear(paddr, len, buf)
    {
      forall i: nat | Picks(windows, paddr, len, i) && windows[i].paddr <= paddr
        ensures Apart(Place(i, paddr), len, buf, len)
      {
        assert Covers(windows[i], paddr, len);
        assert Apart(base[windows[i].bar], size[windows[i].bar], buf, len);
      }
    }

    /** `pci_sysfs_read_mem`: a read that is rightly accepted is a read of flat device memory. */
    method ReadMem(paddr: nat, buf: nat, len: nat, ghost dev: Memory) returns (r: int, ghost at: nat)
      requires Valid() && paddr < TWO64 && len < TWO64 && Clear(paddr, len, buf)
      modifies host
      ensures r == CL_SUCCESS <==> exists i :: Picks(windows, paddr, len, i)
      ensures r != CL_SUCCESS ==> r == CL_INVALID_VALUE && host.mem == old(host.mem)
      ensures r == CL_SUCCESS ==>
        && Picks(windows, paddr, len, at) && windows[at].paddr <= paddr
        && host.mem == Copied(old(host.mem), buf, Place(at, paddr), len)
      ensures r == CL_SUCCESS && Sound(windows, paddr, len) && Outside(buf, len) && Shows(old(host.mem), dev) ==>
        host.mem == Write(old(host.mem), buf, Read(dev, paddr, len)) && Shows(host.mem, dev)
    {
      hide Read, Write, Passes, Shows, Sound, Outside;
      var i, ptr;
      r, i, ptr := GetAddr(paddr, len);
      at := i;
      if r != CL_SUCCESS {
        return;
      }
      Reached(paddr, len, i);
      ghost var was := host.mem;
      Copy(host, buf, ptr, len);
      if Sound(windows, paddr, len) && Outside(buf, len) && Shows(was, dev) {
        ShownRange(was, dev, i, paddr, len);
        ShowsKept(was, dev, buf, Read(dev, paddr, len));
      }
    }

    lemma Reached(paddr: nat, len: nat, i: nat)
      requires Picks(windows, paddr, len, i)
      ensures windows[i].paddr <= paddr
      ensures Sound(windows, paddr, len) ==> Covers(windows[i], paddr, len)
    {
    }

    lemma ShownRange(mem: Memory, dev: Memory, i: nat, paddr: nat, len: nat)
      requires Valid() && Shows(mem, dev) && i < |windows| && windows[i].paddr <= paddr && Covers(windows[i], paddr, len)
      ensures Read(mem, Place(i, paddr), len) == Read(dev, paddr, len)
    {
      forall k | 0 <= k < len
        ensures Read(mem, Place(i, paddr), len)[k] == Read(dev, paddr, len)[k]
      {
        assert Shown(mem, dev, i, paddr + k);
      }
    }

    lemma ShowsKept(mem: Memory, dev: Memory, buf: nat, data: seq<byte>)
      requires Valid() && Shows(mem, dev) && Outside(buf, |data|)
      ensures Shows(Write(mem, buf, data), dev)
    {
      hide Write;
      forall i, a: nat | 0 <= i < |windows| && Covers(windows[i], a, 1)
        ensures Shown(Write(mem, buf, data), dev, i, a)
      {
        assert Shown(mem, dev, i, a);
        assert Apart(base[windows[i].bar], size[windows[i].bar], buf, |data|);
      }
    }

    /** `pci_sysfs_write_mem`: a write that is rightly accepted is a write to flat device memory, seen through every
        window. */
    method WriteMem(paddr: nat, buf: nat, len: nat, ghost dev: Memory) returns (r: int, ghost at: nat)
      requires Valid() && paddr < TWO64 && len < TWO64 && Clear(paddr, len, buf)
      modifies host
      ensures r == CL_SUCCESS <==> exists i :: Picks(windows, paddr, len, i)
      ensures r != CL_SUCCESS ==> r == CL_INVALID_VALUE && host.mem == old(host.mem)
      ensures r == CL_SUCCESS ==>
        && Picks(windows, paddr, len, at) && windows[at].paddr <= paddr
        && host.mem == Copied(old(host.mem), Place(at, paddr), buf, len)
      ensures r == CL_SUCCESS && Sound(windows, paddr, len) && Shows(old(host.mem), dev) ==>
        Shows(host.mem, Write(dev, paddr, Read(old(host.mem), buf, len)))
    {
      hide Read, Write, Passes, Shows, Sound;
      var i, ptr;
      r, i, ptr := GetAddr(paddr, len);
      at := i;
      if r != CL_SUCCESS {
        return;
      }
      Reached(paddr, len, i);
      ghost var was := host.mem;
      Copy(host, ptr, buf, len);
      if Sound(windows, paddr, len) && Shows(was, dev) {
        ShowsWritten(was, dev, i, paddr, Read(was, buf, len));
      }
    }

    /** Only the addresses of a range are placed where window `i` puts the range. */
    lemma PlacedInside(i: nat, paddr: nat, len: nat, j: nat, a: nat)
      requires Valid() && i < |windows| && Covers(windows[i], paddr, len) && j < |windows| && Covers(windows[j], a, 1)
      ensures paddr <= a < paddr + len <==> Place(i, paddr) <= Place(j, a) < Place(i, paddr) + len
      ensures paddr <= a < paddr + len ==> Place(j, a) == Place(i, paddr) + (a - paddr)
    {
      if paddr <= a < paddr + len {
        assert Place(i, a) == Place(j, a);
      }
      if Place(i, paddr) <= Place(j, a) < Place(i, paddr) + len {
        assert Place(i, paddr + (Place(j, a) - Place(i, paddr))) == Place(j, a);
      }
    }

    lemma ShowsWritten(mem: Memory, dev: Memory, i: nat, paddr: nat, data: seq<byte>)
      requires Valid() && Shows(mem, dev) && i < |windows| && Covers(windows[i], paddr, |data|)
      ensures Shows(Write(mem, Place(i, paddr), data), Write(dev, paddr, data))
    {
      hide Write;
      forall j, a: nat | 0 <= j < |windows| && Covers(windows[j], a, 1)
        ensures Shown(Write(mem, Place(i, paddr), data), Write(dev, paddr, data), j, a)
      {
        assert Shown(mem, dev, j, a);
        PlacedInside(i, paddr, |data|, j, a);
      }
    }
  }
}
