/**
  The ELF loader (drivers/program_elf.c) on the memory image that starts with the file. What lies behind the end
  of the file is arbitrary, so every read is defined; which reads stay inside the file is a theorem.
 */
module Elf {
  import opened Bits
  import opened Codes
  import opened CommArea
  import opened DeviceMemory
  import opened Program

  /** The byte at each offset from the start of the file; offsets are 64-bit. */
  type Image = nat -> byte

  function Slice(img: Image, at: nat, n: nat): (bs: seq<byte>)
    ensures |bs| == n
  {
    seq<byte>(n, i requires 0 <= i < n => img((at + i) % TWO64))
  }

  /** A little-endian integer of `n` bytes. */
  function Word(img: Image, at: nat, n: nat): (w: nat)
    ensures w < Pow256(n)
  {
    ToFromLE(Slice(img, at, n));
    FromLE(Slice(img, at, n))
  }

  /** The value of a 32-bit field. */
  type word = w: nat | w < 0x1_0000_0000

  datatype Class = Elf32 | Elf64

  datatype Ehdr = Ehdr(
    typ: nat, machine: nat, version: nat, entry: nat, phoff: nat, shoff: nat, flags: nat, ehsize: nat,
    phentsize: nat, phnum: nat, shentsize: nat, shnum: nat, shstrndx: nat)

  datatype Ph = Ph(typ: nat, flags: nat, offset: nat, vaddr: nat, paddr: nat, filesz: nat, memsz: nat, align: nat)

  datatype Sh = Sh(
    name: nat, typ: nat, flags: nat, addr: nat, offset: nat, size: nat, link: nat, info: nat,
    addralign: nat, entsize: nat)

  const ET_EXEC: nat := 2
  const EM_RISCV: nat := 243
  const PT_LOAD: nat := 1

  /** sizeof of the program and section header structs */
  function PhSize(c: Class): nat {
    if c.Elf32? then 32 else 56
  }

  function ShSize(c: Class): nat {
    if c.Elf32? then 40 else 64
  }

  /** `prg_elf_get_class` */
  function GetClass(img: Image): (int, Class) {
    if Slice(img, 0, 4) != [0x7f, 0x45, 0x4c, 0x46] then (CL_INVALID_BINARY, Elf32)
    else if Slice(img, 4, 1) == [1] then (CL_SUCCESS, Elf32)
    else if Slice(img, 4, 1) == [2] then (CL_SUCCESS, Elf64)
    else (CL_INVALID_BINARY, Elf32)
  }

  function Ehdr32(img: Image): Ehdr {
    Ehdr(Word(img, 16, 2), Word(img, 18, 2), Word(img, 20, 4), Word(img, 24, 4), Word(img, 28, 4),
         Word(img, 32, 4), Word(img, 36, 4), Word(img, 40, 2), Word(img, 42, 2), Word(img, 44, 2),
         Word(img, 46, 2), Word(img, 48, 2), Word(img, 50, 2))
  }

  function Ehdr64(img: Image): Ehdr {
    Ehdr(Word(img, 16, 2), Word(img, 18, 2), Word(img, 20, 4), Word(img, 24, 8), Word(img, 32, 8),
         Word(img, 40, 8), Word(img, 48, 4), Word(img, 52, 2), Word(img, 54, 2), Word(img, 56, 2),
         Word(img, 58, 2), Word(img, 60, 2), Word(img, 62, 2))
  }

  function Ph32(img: Image, at: nat): Ph {
    Ph(Word(img, at, 4), Word(img, at + 24, 4), Word(img, at + 4, 4), Word(img, at + 8, 4), Word(img, at + 12, 4),
       Word(img, at + 16, 4), Word(img, at + 20, 4), Word(img, at + 28, 4))
  }

  function Ph64(img: Image, at: nat): Ph {
    Ph(Word(img, at, 4), Word(img, at + 4, 4), Word(img, at + 8, 8), Word(img, at + 16, 8), Word(img, at + 24, 8),
       Word(img, at + 32, 8), Word(img, at + 40, 8), Word(img, at + 48, 8))
  }

  function Sh32(img: Image, at: nat): Sh {
    Sh(Word(img, at, 4), Word(img, at + 4, 4), Word(img, at + 8, 4), Word(img, at + 12, 4), Word(img, at + 16, 4),
       Word(img, at + 20, 4), Word(img, at + 24, 4), Word(img, at + 28, 4), Word(img, at + 32, 4), Word(img, at + 36, 4))
  }

  function Sh64(img: Image, at: nat): Sh {
    Sh(Word(img, at, 4), Word(img, at + 4, 4), Word(img, at + 8, 8), Word(img, at + 16, 8), Word(img, at + 24, 8),
       Word(img, at + 32, 8), Word(img, at + 40, 4), Word(img, at + 44, 4), Word(img, at + 48, 8), Word(img, at + 56, 8))
  }

  function HeaderAt(c: Class, img: Image): Ehdr {
    if c.Elf32? then Ehdr32(img) else Ehdr64(img)
  }

  function PhAt(c: Class, img: Image, at: nat): Ph {
    if c.Elf32? then Ph32(img, at) else Ph64(img, at)
  }

  function ShAt(c: Class, img: Image, at: nat): Sh {
    if c.Elf32? then Sh32(img, at) else Sh64(img, at)
  }

  /** Where entry `i` of a table starts. */
  function EntryAt(base: nat, i: nat, size: nat): nat {
    base + i * size
  }

  function Phs(c: Class, img: Image, h: Ehdr): (phs: seq<Ph>)
    ensures |phs| == h.phnum
  {
    seq(h.phnum, i requires 0 <= i => PhAt(c, img, EntryAt(h.phoff, i, h.phentsize)))
  }

  function Shs(c: Class, img: Image, h: Ehdr): (shs: seq<Sh>)
    ensures |shs| == h.shnum
  {
    seq(h.shnum, i requires 0 <= i => ShAt(c, img, EntryAt(h.shoff, i, h.shentsize)))
  }

  // ------------------------------------------------------------------------------------------
  // Acceptance.

  /** The checks of `prg_elf_read_elf32` and `prg_elf_read_elf64`: an entry holds at least its struct. */
  predicate StridesOk(c: Class, h: Ehdr) {
    h.phentsize >= PhSize(c) && h.shentsize >= ShSize(c)
  }

  /** The end of a table as the source computes it, in 64 bits. */
  function TableEnd(off: nat, num: nat, size: nat): nat {
    (off + (num * size) % 0x1_0000_0000) % TWO64
  }

  /** `prg_elf_is_valid_header` */
  predicate IsValidHeader(h: Ehdr, len: nat) {
    && h.typ == ET_EXEC
    && h.machine == EM_RISCV
    && !(h.phoff == 0 || h.phnum == 0 || h.phentsize == 0)
    && TableEnd(h.phoff, h.phnum, h.phentsize) <= len
    && TableEnd(h.shoff, h.shnum, h.shentsize) <= len
    && h.shentsize != 0
    && h.shstrndx < h.shnum
    && h.entry % 4 == 0
  }

  predicate Accepted(c: Class, h: Ehdr, len: nat) {
    StridesOk(c, h) && IsValidHeader(h, len)
  }

  /** Every single check can refuse: in an accepted header each of these fields has exactly these values to choose from. */
  lemma ChecksDecide(c: Class, h: Ehdr, len: nat, v: nat)
    requires Accepted(c, h, len)
    ensures Accepted(c, h.(typ := v), len) <==> v == 2
    ensures Accepted(c, h.(machine := v), len) <==> v == 243
    ensures Accepted(c, h.(entry := v), len) <==> v % 4 == 0
    ensures Accepted(c, h.(shstrndx := v), len) <==> v < h.shnum
    ensures Accepted(c, h, v) <==>
      v >= TableEnd(h.phoff, h.phnum, h.phentsize) && v >= TableEnd(h.shoff, h.shnum, h.shentsize)
    ensures Accepted(c, h.(phoff := v), len) ==> v > 0
    ensures Accepted(c, h.(phnum := v), len) ==> v > 0
    ensures Accepted(c, h.(phentsize := v), len) ==> v >= if c.Elf32? then 32 else 56
    ensures Accepted(c, h.(shentsize := v), len) ==> v >= if c.Elf32? then 40 else 64
  {
    hide TableEnd;
  }

  predicate TableInFile(off: nat, num: nat, size: nat, entry: nat, len: nat) {
    forall i :: 0 <= i < num ==> EntryAt(off, i, size) + entry <= len
  }

  /** Every field of a header that was read from an image has its width. */
  ghost predicate Widths(c: Class, h: Ehdr) {
    && h.phentsize < 0x1_0000 && h.phnum < 0x1_0000 && h.shentsize < 0x1_0000 && h.shnum < 0x1_0000
    && (var bound := if c.Elf32? then 0x1_0000_0000 else TWO64; h.phoff < bound && h.shoff < bound)
  }

  lemma HeaderWidths(c: Class, img: Image)
    ensures Widths(c, HeaderAt(c, img))
  {
    hide Word;
    Pow256Values();
    assert Pow256(2) == 0x1_0000 by {
      assert Pow256(1) == 256;
    }
  }

  lemma ProductFits(num: nat, size: nat)
    requires num < 0x1_0000 && size < 0x1_0000
    ensures num * size < 0x1_0000_0000
  {
    MulMonotone(num, 0xFFFF, size);
    MulMonotone(size, 0xFFFF, 0xFFFF);
  }

  /** A table whose end passed the check lies in the file exactly when that end did not wrap around. No object is
      larger than 2^63 - 1 bytes. */
  lemma TableBounds(off: nat, num: nat, size: nat, entry: nat, len: nat)
    requires off < TWO64 && 0 < num < 0x1_0000 && 0 < entry <= size < 0x1_0000
    requires TableEnd(off, num, size) <= len < 0x8000_0000_0000_0000
    ensures TableInFile(off, num, size, entry, len) <==> off + num * size < TWO64
  {
    hide TableInFile, TableEnd;
    var product := num * size;
    ProductFits(num, size);
    EndValue(off, num, size);
    if off + product < TWO64 {
      EntriesInside(off, num, size, entry, len);
    } else {
      assert (num - 1) * size == product - size;
      LastOutside(off, num, size, entry, len);
    }
  }

  lemma EndValue(off: nat, num: nat, size: nat)
    requires off < TWO64 && num * size < 0x1_0000_0000
    ensures TableEnd(off, num, size) == if off + num * size < TWO64 then off + num * size else off + num * size - TWO64
  {
  }

  lemma EntriesInside(off: nat, num: nat, size: nat, entry: nat, len: nat)
    requires entry <= size && off + num * size <= len
    ensures TableInFile(off, num, size, entry, len)
  {
    forall i | 0 <= i < num
      ensures EntryAt(off, i, size) + entry <= len
    {
      MulMonotone(i + 1, num, size);
      assert (i + 1) * size == i * size + size;
    }
  }

  lemma LastOutside(off: nat, num: nat, size: nat, entry: nat, len: nat)
    requires num > 0 && off + (num - 1) * size + entry > len
    ensures !TableInFile(off, num, size, entry, len)
  {
    assert EntryAt(off, num - 1, size) + entry > len;
  }

  /** The header checks keep every table read inside the file, exactly when neither 64-bit end wraps. */
  lemma HeaderBounds(c: Class, img: Image, len: nat)
    requires len < 0x8000_0000_0000_0000 && Accepted(c, HeaderAt(c, img), len)
    ensures var h := HeaderAt(c, img);
            TableInFile(h.phoff, h.phnum, h.phentsize, PhSize(c), len)
            && TableInFile(h.shoff, h.shnum, h.shentsize, ShSize(c), len)
            <==> h.phoff + h.phnum * h.phentsize < TWO64 && h.shoff + h.shnum * h.shentsize < TWO64
  {
    hide HeaderAt, TableEnd, TableInFile;
    var h := HeaderAt(c, img);
    HeaderWidths(c, img);
    TableBounds(h.phoff, h.phnum, h.phentsize, PhSize(c), len);
    TableBounds(h.shoff, h.shnum, h.shentsize, ShSize(c), len);
  }

  /** In a 32-bit file they never wrap. */
  lemma HeaderBounds32(img: Image, len: nat)
    requires len < 0x8000_0000_0000_0000 && Accepted(Elf32, HeaderAt(Elf32, img), len)
    ensures var h := HeaderAt(Elf32, img);
            TableInFile(h.phoff, h.phnum, h.phentsize, 32, len) && TableInFile(h.shoff, h.shnum, h.shentsize, 40, len)
  {
    hide HeaderAt, TableEnd, TableInFile;
    var h := HeaderAt(Elf32, img);
    HeaderWidths(Elf32, img);
    ProductFits(h.phnum, h.phentsize);
    ProductFits(h.shnum, h.shentsize);
    HeaderBounds(Elf32, img, len);
  }

  // ------------------------------------------------------------------------------------------
  // What the loader makes of a file, as a function.

  /** The string at `at` is `text`. */
  predicate NameIs(img: Image, at: nat, text: seq<byte>) {
    Slice(img, at, |text| + 1) == text + [0]
  }

  /** ".comm" and ".comm_area" */
  const COMM_NAME: seq<byte> := [0x2e, 0x63, 0x6f, 0x6d, 0x6d]
  const COMM_AREA_NAME: seq<byte> := COMM_NAME + [0x5f, 0x61, 0x72, 0x65, 0x61]

  lemma NamesSpelled()
    ensures |COMM_NAME| == |".comm"| && |COMM_AREA_NAME| == |".comm_area"|
    ensures forall i :: 0 <= i < |COMM_NAME| ==> COMM_NAME[i] as char == ".comm"[i]
    ensures forall i :: 0 <= i < |COMM_AREA_NAME| ==> COMM_AREA_NAME[i] as char == ".comm_area"[i]
  {
  }

  /** `get_sh_name` and `strcmp`: a name outside the string table is "(unknown)". */
  predicate HasName(img: Image, strings: Sh, sh: Sh, text: seq<byte>) {
    sh.name < strings.size && NameIs(img, strings.offset + sh.name, text)
  }

  predicate IsComm(img: Image, strings: Sh, sh: Sh) {
    HasName(img, strings, sh, COMM_NAME) && Word(img, sh.offset, 4) == COMM_MAGIC
  }

  predicate IsArea(img: Image, strings: Sh, sh: Sh) {
    HasName(img, strings, sh, COMM_AREA_NAME)
  }

  /** PF_W is clear. */
  predicate ReadOnly(flags: nat) {
    (flags / 2) % 2 == 0
  }

  /** In bits: the flags word has bit 1 clear. */
  lemma ReadOnlyBit(flags: word)
    ensures ReadOnly(flags) <==> (flags as bv32) & 2 == 0
  {
  }

  /** The chunk of program header `i`. The size field of a chunk has 32 bits. */
  function ChunkAt(img: Image, ph: Ph, i: nat): Chunk {
    if ph.typ != PT_LOAD then ZERO_CHUNK
    else Chunk(i, ph.paddr, Slice(img, ph.offset, ph.filesz % 0x1_0000_0000), ReadOnly(ph.flags), false)
  }

  /** What chunk `i` has to do with its program header: nothing but a blank entry if the segment is not to be loaded (type
      1), and otherwise its address, the bytes of the file at its offset, and its flags, of which bit 1 is for writing. */
  ghost predicate Mirrors(img: Image, ph: Ph, i: nat, chunk: Chunk) {
    if ph.typ != 1 then chunk == Chunk(0, 0, [], false, false)
    else
      && chunk.index == i && chunk.paddr == ph.paddr && !chunk.loaded
      && |chunk.bytes| == ph.filesz % 0x1_0000_0000
      && (forall k :: 0 <= k < |chunk.bytes| ==> chunk.bytes[k] == img((ph.offset + k) % TWO64))
      && ph.flags < 0x1_0000_0000 && (chunk.readonly <==> (ph.flags as bv32) & 2 == 0)
  }

  lemma ChunkMirrors(c: Class, img: Image, at: nat, i: nat)
    ensures var ph := PhAt(c, img, at); Mirrors(img, ph, i, ChunkAt(img, ph, i))
  {
    hide Word, ReadOnly;
    Pow256Values();
    var ph := PhAt(c, img, at);
    ReadOnlyBit(ph.flags);
  }

  function Chunks(img: Image, phs: seq<Ph>): (chunks: seq<Chunk>)
    ensures |chunks| == |phs|
  {
    seq(|phs|, i requires 0 <= i < |phs| => ChunkAt(img, phs[i], i))
  }

  /** What the section scan has found. */
  datatype Scan = Scan(comm: bool, area: bool, where: Comm)

  function ScanStep(img: Image, strings: Sh, sh: Sh, s: Scan): Scan {
    var t := s.(comm := s.comm || IsComm(img, strings, sh));
    if IsArea(img, strings, sh) then t.(area := true, where := Comm(sh.addr, sh.size)) else t
  }

  function ScanAll(img: Image, strings: Sh, shs: seq<Sh>): Scan {
    if shs == [] then Scan(false, false, Comm(0, 0))
    else
      var n := |shs| - 1;
      ScanStep(img, strings, shs[n], ScanAll(img, strings, shs[..n]))
  }

  datatype Parsed = Invalid | Loaded(chunks: seq<Chunk>, comm: Comm)

  /** The file is accepted as far as its header. */
  predicate HeaderOk(img: Image, len: nat) {
    var (r, c) := GetClass(img);
    r == CL_SUCCESS && Accepted(c, HeaderAt(c, img), len)
  }

  /** Everything `prg_elf_load` takes from an image. */
  function Parse(img: Image, len: nat): Parsed {
    if !HeaderOk(img, len) then Invalid
    else
      var c := GetClass(img).1;
      var h := HeaderAt(c, img);
      var shs := Shs(c, img, h);
      var s := ScanAll(img, shs[h.shstrndx], shs);
      if s.comm && s.area then Loaded(Chunks(img, Phs(c, img, h)), s.where) else Invalid
  }

  lemma ScanNext(img: Image, strings: Sh, shs: seq<Sh>, i: nat)
    requires i < |shs|
    ensures ScanAll(img, strings, shs[..i + 1]) == ScanStep(img, strings, shs[i], ScanAll(img, strings, shs[..i]))
  {
    hide ScanStep;
    assert shs[..i + 1][..i] == shs[..i];
  }

  /** A section has one name. */
  lemma NamesDiffer(img: Image, at: nat)
    requires NameIs(img, at, COMM_NAME)
    ensures !NameIs(img, at, COMM_AREA_NAME)
  {
    assert Slice(img, at, 6)[5] == 0;
    assert (COMM_AREA_NAME + [0])[5] == 0x5f;
    assert Slice(img, at, 11)[5] == Slice(img, at, 6)[5];
  }

  // ------------------------------------------------------------------------------------------
  // The loader.

  /** `struct elf_info`; the parts of the header are in `h`. */
  class ElfInfo {
    const img: Image
    const len: nat
    var cls: Class
    var h: Ehdr
    var phs: array<Ph>
    var shs: array<Sh>
    var comm: Comm

    constructor (img: Image, len: nat)
      ensures this.img == img && this.len == len && fresh(phs) && fresh(shs)
    {
      this.img, this.len := img, len;
      cls, h := Elf32, Ehdr(0, 0, 0, 0, 0, 0, 0, 0, 0, 0, 0, 0, 0);
      phs, shs := new Ph[0], new Sh[0];
      comm := Comm(0, 0);
    }

    /** `prg_elf_read_elf` */
    method ReadElf() returns (r: int)
      modifies this`h
      ensures h == HeaderAt(cls, img)
      ensures r == if StridesOk(cls, h) then CL_SUCCESS else CL_INVALID_BINARY
    {
      hide Word;
      match cls {
        case Elf32 =>
          h := Ehdr32(img);
          if h.phentsize < 32 || h.shentsize < 40 {
            return CL_INVALID_BINARY;
          }
        case Elf64 =>
          h := Ehdr64(img);
          if h.phentsize < 56 || h.shentsize < 64 {
            return CL_INVALID_BINARY;
          }
      }
      return CL_SUCCESS;
    }

    /** `prg_elf_read_ph32` and `prg_elf_read_ph64` */
    method ReadPhs()
      requires phs.Length == h.phnum
      modifies phs
      ensures phs[..] == Phs(cls, img, h)
    {
      hide PhAt, EntryAt;
      for i := 0 to h.phnum
        invariant forall j :: 0 <= j < i ==> phs[j] == Phs(cls, img, h)[j]
      {
        phs[i] := PhAt(cls, img, EntryAt(h.phoff, i, h.phentsize));
      }
    }

    /** `prg_elf_read_shs32` and `prg_elf_read_shs64` */
    method ReadShs()
      requires shs.Length == h.shnum
      modifies shs
      ensures shs[..] == Shs(cls, img, h)
    {
      hide ShAt, EntryAt;
      for i := 0 to h.shnum
        invariant forall j :: 0 <= j < i ==> shs[j] == Shs(cls, img, h)[j]
      {
        shs[i] := ShAt(cls, img, EntryAt(h.shoff, i, h.shentsize));
      }
    }

    /** `prg_elf_read_ph`; `table` and `chunks` say whether there is memory for the two tables. */
    method ReadPh(prg: Program, table: bool, chunks: bool) returns (r: int)
      modifies this`phs, prg`chunks, prg`numChunks
      ensures table && chunks ==>
        && r == CL_SUCCESS && prg.Valid() && fresh(prg.chunks)
        && prg.chunks[..] == Chunks(img, Phs(cls, img, h))
        && prg.chunks.Length == h.phnum
        && forall i :: 0 <= i < h.phnum ==> Mirrors(img, Phs(cls, img, h)[i], i, prg.chunks[i])
      ensures !(table && chunks) ==> r == CL_OUT_OF_HOST_MEMORY
    {
      hide PhAt, EntryAt, Slice, ReadOnly, Mirrors;
      if !table {
        return CL_OUT_OF_HOST_MEMORY;
      }
      phs := new Ph[h.phnum](_ => Ph(0, 0, 0, 0, 0, 0, 0, 0));
      ReadPhs();
      ghost var want := Chunks(img, phs[..]);
      r := prg.SetNumChunks(h.phnum, chunks);
      if r != CL_SUCCESS {
        return;
      }
      for i := 0 to h.phnum
        invariant prg.Valid() && prg.chunks.Length == h.phnum && fresh(prg.chunks) && fresh(phs) && phs[..] == Phs(cls, img, h)
        invariant forall j :: 0 <= j < i ==> prg.chunks[j] == want[j]
        invariant forall j :: i <= j < h.phnum ==> prg.chunks[j] == ZERO_CHUNK
      {
        var ph := phs[i];
        if ph.typ != PT_LOAD {
          continue;
        }
        var chunk := Chunk(0, ph.paddr, Slice(img, ph.offset, ph.filesz % 0x1_0000_0000), ReadOnly(ph.flags), false);
        r := prg.SetChunk(i, chunk);
        if r != CL_SUCCESS {
          return;
        }
      }
      assert prg.chunks[..] == want;
      AllMirror(cls, img, h);
      return CL_SUCCESS;
    }

    /** `prg_elf_read_shs`; `table` says whether there is memory for the section headers. */
    method ReadSections(prg: Program, table: bool) returns (r: int)
      requires h.shstrndx < h.shnum
      modifies this`shs, this`comm, prg`comm
      ensures var all := Shs(cls, img, h);
              var s := ScanAll(img, all[h.shstrndx], all);
              && r == (if !table then CL_OUT_OF_HOST_MEMORY else if s.comm && s.area then CL_SUCCESS else CL_INVALID_BINARY)
              && prg.comm == if r == CL_SUCCESS then s.where else old(prg.comm)
    {
      hide ShAt, EntryAt, NameIs, Word, ScanStep;
      if !table {
        return CL_OUT_OF_HOST_MEMORY;
      }
      shs := new Sh[h.shnum](_ => Sh(0, 0, 0, 0, 0, 0, 0, 0, 0, 0));
      ReadShs();
      ghost var all := shs[..];
      var strings := shs[h.shstrndx];
      var foundComm, foundArea := false, false;
      comm := Comm(0, 0);
      for i := 0 to h.shnum
        invariant shs.Length == h.shnum && shs[..] == all == Shs(cls, img, h)
        invariant prg.comm == old(prg.comm)
        invariant Scan(foundComm, foundArea, comm) == ScanAll(img, strings, all[..i])
      {
        var sec := shs[i];
        ScanNext(img, strings, all, i);
        ScanStepIs(img, strings, sec, Scan(foundComm, foundArea, comm));
        if HasName(img, strings, sec, COMM_NAME) {
          if Word(img, sec.offset, 4) != COMM_MAGIC {
            continue;
          }
          foundComm := true;
        }
        if HasName(img, strings, sec, COMM_AREA_NAME) {
          comm := Comm(sec.addr, sec.size);
          foundArea := true;
        }
      }
      assert all[..h.shnum] == all;
      if !foundComm {
        return CL_INVALID_BINARY;
      }
      if !foundArea {
        return CL_INVALID_BINARY;
      }
      prg.comm := comm;
      return CL_SUCCESS;
    }
  }

  /** A ".comm" section with the wrong magic is skipped before its name is compared again. */
  lemma ScanStepIs(img: Image, strings: Sh, sh: Sh, s: Scan)
    ensures var c, a := HasName(img, strings, sh, COMM_NAME), HasName(img, strings, sh, COMM_AREA_NAME);
            var good := Word(img, sh.offset, 4) == COMM_MAGIC;
            && !(c && a)
            && ScanStep(img, strings, sh, s) ==
               Scan(s.comm || (c && good), s.area || a, if a then Comm(sh.addr, sh.size) else s.where)
  {
    hide NameIs, Word;
    if HasName(img, strings, sh, COMM_NAME) {
      NamesDiffer(img, strings.offset + sh.name);
    }
  }

  /** `prg_elf_load`; `memory` says which of its three tables can be allocated. */
  method Load(prg: Program, img: Image, len: nat, memory: (bool, bool, bool)) returns (r: int)
    modifies prg
    ensures !HeaderOk(img, len) ==> r == CL_INVALID_BINARY && prg.chunks == old(prg.chunks) && prg.comm == old(prg.comm)
    ensures HeaderOk(img, len) && memory != (true, true, true) ==> r == CL_OUT_OF_HOST_MEMORY && prg.comm == old(prg.comm)
    ensures HeaderOk(img, len) && memory == (true, true, true) ==>
      match Parse(img, len)
      case Invalid => r == CL_INVALID_BINARY && prg.comm == old(prg.comm)
      case Loaded(chunks, comm) => r == CL_SUCCESS && prg.Valid() && prg.chunks[..] == chunks && prg.comm == comm
    ensures r == CL_SUCCESS ==>
      var c := if Slice(img, 4, 1) == [1] then Elf32 else Elf64;
      && prg.chunks.Length == HeaderAt(c, img).phnum
      && forall i :: 0 <= i < prg.chunks.Length ==> Mirrors(img, Phs(c, img, HeaderAt(c, img))[i], i, prg.chunks[i])
  {
    hide Mirrors, ChunkAt;
    hide HeaderAt, ScanAll, Shs, Phs, Chunks;
    var elf := new ElfInfo(img, len);
    var got := GetClass(img);
    r := got.0;
    if r != CL_SUCCESS {
      return;
    }
    elf.cls := got.1;
    r := elf.ReadElf();
    if r != CL_SUCCESS {
      return;
    }
    if !IsValidHeader(elf.h, len) {
      return CL_INVALID_BINARY;
    }
    r := elf.ReadPh(prg, memory.0, memory.1);
    if r != CL_SUCCESS {
      return;
    }
    r := elf.ReadSections(prg, memory.2);
  }

  lemma AllMirror(c: Class, img: Image, h: Ehdr)
    ensures forall i :: 0 <= i < h.phnum ==> Mirrors(img, Phs(c, img, h)[i], i, Chunks(img, Phs(c, img, h))[i])
  {
    hide Mirrors, PhAt, ChunkAt, EntryAt;
    forall i | 0 <= i < h.phnum
      ensures Mirrors(img, Phs(c, img, h)[i], i, Chunks(img, Phs(c, img, h))[i])
    {
      ChunkMirrors(c, img, EntryAt(h.phoff, i, h.phentsize), i);
    }
  }

  // ------------------------------------------------------------------------------------------
  // Encoding, and the loader as its inverse.

  /** Little-endian fields of the given widths, one after the other. */
  function Encode(widths: seq<nat>, values: seq<nat>): (bs: seq<byte>)
    requires |widths| == |values|
    ensures |bs| == Offset(widths, |widths|)
  {
    if widths == [] then []
    else
      var n := |widths| - 1;
      assert forall k :: 0 <= k <= n ==> Offset(widths[..n], k) == Offset(widths, k) by { OffsetPrefix(widths, n); }
      Encode(widths[..n], values[..n]) + ToLE(values[n], widths[n])
  }

  /** Where field `k` starts. */
  function Offset(widths: seq<nat>, k: nat): nat
    requires k <= |widths|
  {
    if k == 0 then 0 else Offset(widths, k - 1) + widths[k - 1]
  }

  lemma {:induction false} OffsetPrefix(widths: seq<nat>, n: nat)
    requires n <= |widths|
    ensures forall k :: 0 <= k <= n ==> Offset(widths[..n], k) == Offset(widths, k)
  {
    forall k | 0 <= k <= n
      ensures Offset(widths[..n], k) == Offset(widths, k)
    {
      OffsetOfPrefix(widths, n, k);
    }
  }

  lemma {:induction false} OffsetOfPrefix(widths: seq<nat>, n: nat, k: nat)
    requires k <= n <= |widths|
    ensures Offset(widths[..n], k) == Offset(widths, k)
  {
    if k > 0 {
      OffsetOfPrefix(widths, n, k - 1);
    }
  }

  lemma {:induction false} OffsetMonotone(widths: seq<nat>, j: nat, k: nat)
    requires j <= k <= |widths|
    ensures Offset(widths, j) <= Offset(widths, k)
  {
    if j < k {
      OffsetMonotone(widths, j, k - 1);
    }
  }

  lemma {:induction false} EncodeField(widths: seq<nat>, values: seq<nat>, k: nat)
    requires |widths| == |values| && k < |widths|
    ensures Offset(widths, k) + widths[k] <= |Encode(widths, values)|
    ensures Encode(widths, values)[Offset(widths, k)..Offset(widths, k) + widths[k]] == ToLE(values[k], widths[k])
  {
    hide ToLE;
    var n := |widths| - 1;
    OffsetMonotone(widths, k + 1, n + 1);
    OffsetOfPrefix(widths, n, n);
    if k < n {
      EncodeField(widths[..n], values[..n], k);
      OffsetOfPrefix(widths, n, k);
    }
  }

  /** `bs` lies at `at`. */
  ghost predicate Stored(img: Image, at: nat, bs: seq<byte>) {
    Slice(img, at, |bs|) == bs
  }

  lemma StoredPart(img: Image, at: nat, bs: seq<byte>, i: nat, n: nat)
    requires Stored(img, at, bs) && i + n <= |bs|
    ensures Slice(img, at + i, n) == bs[i..i + n]
  {
    var part := Slice(img, at + i, n);
    forall j | 0 <= j < |part|
      ensures part[j] == bs[i..i + n][j]
    {
      assert Slice(img, at, |bs|)[i + j] == bs[i + j];
    }
  }

  ghost predicate InWidth(widths: seq<nat>, values: seq<nat>) {
    |widths| == |values| && forall k :: 0 <= k < |widths| ==> values[k] < Pow256(widths[k])
  }

  /** Field `k` of a stored struct reads back as its value. */
  lemma {:induction false} FieldStored(img: Image, at: nat, widths: seq<nat>, values: seq<nat>, k: nat)
    requires InWidth(widths, values) && k < |widths| && Stored(img, at, Encode(widths, values))
    ensures Word(img, at + Offset(widths, k), widths[k]) == values[k]
  {
    hide Encode, Slice, Stored, ToLE, Offset;
    EncodeField(widths, values, k);
    PartReads(img, at, Encode(widths, values), Offset(widths, k), widths[k], values[k]);
  }

  lemma {:induction false} PartReads(img: Image, at: nat, bs: seq<byte>, i: nat, n: nat, value: nat)
    requires Stored(img, at, bs) && i + n <= |bs| && bs[i..i + n] == ToLE(value, n) && value < Pow256(n)
    ensures Word(img, at + i, n) == value
  {
    hide Slice, Stored, ToLE, Pow256, FromLE;
    StoredPart(img, at, bs, i, n);
    FromToLE(value, n);
  }

  // The structs of elf.h, field by field.

  function EhdrWidths(c: Class): seq<nat> {
    if c.Elf32? then [2, 2, 4, 4, 4, 4, 4, 2, 2, 2, 2, 2, 2] else [2, 2, 4, 8, 8, 8, 4, 2, 2, 2, 2, 2, 2]
  }

  function EhdrFields(h: Ehdr): seq<nat> {
    [h.typ, h.machine, h.version, h.entry, h.phoff, h.shoff, h.flags, h.ehsize,
     h.phentsize, h.phnum, h.shentsize, h.shnum, h.shstrndx]
  }

  function PhWidths(c: Class): seq<nat> {
    if c.Elf32? then [4, 4, 4, 4, 4, 4, 4, 4] else [4, 4, 8, 8, 8, 8, 8, 8]
  }

  function PhFields(c: Class, p: Ph): seq<nat> {
    if c.Elf32? then [p.typ, p.offset, p.vaddr, p.paddr, p.filesz, p.memsz, p.flags, p.align]
    else [p.typ, p.flags, p.offset, p.vaddr, p.paddr, p.filesz, p.memsz, p.align]
  }

  function ShWidths(c: Class): seq<nat> {
    if c.Elf32? then [4, 4, 4, 4, 4, 4, 4, 4, 4, 4] else [4, 4, 8, 8, 8, 8, 4, 4, 8, 8]
  }

  function ShFields(s: Sh): seq<nat> {
    [s.name, s.typ, s.flags, s.addr, s.offset, s.size, s.link, s.info, s.addralign, s.entsize]
  }

  /** A struct with these fields lies at `at`. */
  ghost predicate Holding(img: Image, at: nat, widths: seq<nat>, values: seq<nat>) {
    InWidth(widths, values) && Stored(img, at, Encode(widths, values))
  }

  /** The next field starts where this one ends. */
  lemma {:induction false} FieldAt(img: Image, at: nat, w: seq<nat>, v: seq<nat>, k: nat, offset: nat)
    requires Holding(img, at, w, v) && k < |w| && (if k == 0 then offset == 0 else Offset(w, k) == offset)
    ensures |w| == |v| && Word(img, at + offset, w[k]) == v[k]
    ensures k + 1 <= |w| && Offset(w, k + 1) == offset + w[k]
  {
    hide Word, Encode, Stored;
    FieldStored(img, at, w, v, k);
  }

  // The offsets of the fields in the structs that the loader reads.

  /** The last six fields have two bytes each in both classes. */
  lemma HeaderTail(c: Class, img: Image, h: Ehdr, at: nat)
    requires Holding(img, 16, EhdrWidths(c), EhdrFields(h)) && Offset(EhdrWidths(c), 7) == at
    ensures Word(img, 16 + at, 2) == h.ehsize && Word(img, 16 + at + 2, 2) == h.phentsize
    ensures Word(img, 16 + at + 4, 2) == h.phnum && Word(img, 16 + at + 6, 2) == h.shentsize
    ensures Word(img, 16 + at + 8, 2) == h.shnum && Word(img, 16 + at + 10, 2) == h.shstrndx
  {
    hide Word, Holding, Offset;
    var w, v := EhdrWidths(c), EhdrFields(h);
    FieldAt(img, 16, w, v, 7, at); FieldAt(img, 16, w, v, 8, at + 2); FieldAt(img, 16, w, v, 9, at + 4);
    FieldAt(img, 16, w, v, 10, at + 6); FieldAt(img, 16, w, v, 11, at + 8); FieldAt(img, 16, w, v, 12, at + 10);
  }

  lemma HeaderDecodes32(img: Image, h: Ehdr)
    requires Holding(img, 16, EhdrWidths(Elf32), EhdrFields(h))
    ensures Ehdr32(img) == h
  {
    hide Word, Holding, Offset;
    var w, v := EhdrWidths(Elf32), EhdrFields(h);
    FieldAt(img, 16, w, v, 0, 0); FieldAt(img, 16, w, v, 1, 2); FieldAt(img, 16, w, v, 2, 4);
    FieldAt(img, 16, w, v, 3, 8); FieldAt(img, 16, w, v, 4, 12); FieldAt(img, 16, w, v, 5, 16);
    FieldAt(img, 16, w, v, 6, 20);
    HeaderTail(Elf32, img, h, 24);
  }

  lemma HeaderDecodes64(img: Image, h: Ehdr)
    requires Holding(img, 16, EhdrWidths(Elf64), EhdrFields(h))
    ensures Ehdr64(img) == h
  {
    hide Word, Holding, Offset;
    var w, v := EhdrWidths(Elf64), EhdrFields(h);
    FieldAt(img, 16, w, v, 0, 0); FieldAt(img, 16, w, v, 1, 2); FieldAt(img, 16, w, v, 2, 4);
    FieldAt(img, 16, w, v, 3, 8); FieldAt(img, 16, w, v, 4, 16); FieldAt(img, 16, w, v, 5, 24);
    FieldAt(img, 16, w, v, 6, 32);
    HeaderTail(Elf64, img, h, 36);
  }

  lemma PhDecodes32(img: Image, at: nat, p: Ph)
    requires Holding(img, at, PhWidths(Elf32), PhFields(Elf32, p))
    ensures Ph32(img, at) == p
  {
    hide Word, Holding, Offset;
    var w, v := PhWidths(Elf32), PhFields(Elf32, p);
    FieldAt(img, at, w, v, 0, 0); FieldAt(img, at, w, v, 1, 4); FieldAt(img, at, w, v, 2, 8);
    FieldAt(img, at, w, v, 3, 12); FieldAt(img, at, w, v, 4, 16); FieldAt(img, at, w, v, 5, 20);
    FieldAt(img, at, w, v, 6, 24); FieldAt(img, at, w, v, 7, 28);
  }

  lemma PhDecodes64(img: Image, at: nat, p: Ph)
    requires Holding(img, at, PhWidths(Elf64), PhFields(Elf64, p))
    ensures Ph64(img, at) == p
  {
    hide Word, Holding, Offset;
    var w, v := PhWidths(Elf64), PhFields(Elf64, p);
    FieldAt(img, at, w, v, 0, 0); FieldAt(img, at, w, v, 1, 4); FieldAt(img, at, w, v, 2, 8);
    FieldAt(img, at, w, v, 3, 16); FieldAt(img, at, w, v, 4, 24); FieldAt(img, at, w, v, 5, 32);
    FieldAt(img, at, w, v, 6, 40); FieldAt(img, at, w, v, 7, 48);
  }

  lemma ShDecodes32(img: Image, at: nat, s: Sh)
    requires Holding(img, at, ShWidths(Elf32), ShFields(s))
    ensures Sh32(img, at) == s
  {
    hide Word, Holding, Offset;
    var w, v := ShWidths(Elf32), ShFields(s);
    FieldAt(img, at, w, v, 0, 0); FieldAt(img, at, w, v, 1, 4); FieldAt(img, at, w, v, 2, 8);
    FieldAt(img, at, w, v, 3, 12); FieldAt(img, at, w, v, 4, 16); FieldAt(img, at, w, v, 5, 20);
    FieldAt(img, at, w, v, 6, 24); FieldAt(img, at, w, v, 7, 28); FieldAt(img, at, w, v, 8, 32);
    FieldAt(img, at, w, v, 9, 36);
  }

  lemma ShDecodes64(img: Image, at: nat, s: Sh)
    requires Holding(img, at, ShWidths(Elf64), ShFields(s))
    ensures Sh64(img, at) == s
  {
    hide Word, Holding, Offset;
    var w, v := ShWidths(Elf64), ShFields(s);
    FieldAt(img, at, w, v, 0, 0); FieldAt(img, at, w, v, 1, 4); FieldAt(img, at, w, v, 2, 8);
    FieldAt(img, at, w, v, 3, 16); FieldAt(img, at, w, v, 4, 24); FieldAt(img, at, w, v, 5, 32);
    FieldAt(img, at, w, v, 6, 40); FieldAt(img, at, w, v, 7, 44); FieldAt(img, at, w, v, 8, 48);
    FieldAt(img, at, w, v, 9, 56);
  }

  // ------------------------------------------------------------------------------------------
  // Programs, independent of the width of their encoding.

  /** What one program header stands for; only loaded segments have more than a place in the table. */
  datatype Segment = Other | Load(paddr: nat, flags: word, bytes: seq<byte>)

  /** A section; `magic` is the first word of its content. */
  datatype Section = Section(name: seq<byte>, addr: nat, size: nat, magic: nat)

  datatype Prog = Prog(entry: nat, segments: seq<Segment>, sections: seq<Section>)

  /** The contents of an ELF file: its header and its two tables. */
  datatype File = File(h: Ehdr, phs: seq<Ph>, shs: seq<Sh>)

  /** The image holds `f` in the encoding of class `c`: identification, header and both tables. */
  ghost predicate Encodes(img: Image, c: Class, f: File) {
    && Slice(img, 0, 4) == [0x7f, 0x45, 0x4c, 0x46]
    && Slice(img, 4, 1) == [if c.Elf32? then 1 else 2]
    && Holding(img, 16, EhdrWidths(c), EhdrFields(f.h))
    && |f.phs| == f.h.phnum && |f.shs| == f.h.shnum
    && (forall i :: 0 <= i < f.h.phnum ==>
          Holding(img, EntryAt(f.h.phoff, i, f.h.phentsize), PhWidths(c), PhFields(c, f.phs[i])))
    && (forall i :: 0 <= i < f.h.shnum ==>
          Holding(img, EntryAt(f.h.shoff, i, f.h.shentsize), ShWidths(c), ShFields(f.shs[i])))
  }

  ghost predicate SegmentIn(img: Image, ph: Ph, s: Segment) {
    match s
    case Other => ph.typ != PT_LOAD
    case Load(paddr, flags, bytes) =>
      && ph.typ == PT_LOAD && ph.paddr == paddr && ph.flags == flags
      && ph.filesz == |bytes| < 0x1_0000_0000 && Stored(img, ph.offset, bytes)
  }

  ghost predicate SectionIn(img: Image, strings: Sh, sh: Sh, s: Section) {
    && 0 !in s.name && sh.name < strings.size && Stored(img, strings.offset + sh.name, s.name + [0])
    && sh.addr == s.addr && sh.size == s.size
    && Word(img, sh.offset, 4) == s.magic
  }

  /** The file is one of program `p`. */
  ghost predicate Represents(img: Image, f: File, p: Prog) {
    && f.h.shstrndx < |f.shs|
    && |f.phs| == |p.segments| && |f.shs| == |p.sections|
    && (forall i :: 0 <= i < |f.phs| ==> SegmentIn(img, f.phs[i], p.segments[i]))
    && (forall i :: 0 <= i < |f.shs| ==> SectionIn(img, f.shs[f.h.shstrndx], f.shs[i], p.sections[i]))
  }

  function ChunkOf(s: Segment, i: nat): Chunk {
    match s
    case Other => ZERO_CHUNK
    case Load(paddr, flags, bytes) => Chunk(i, paddr, bytes, (flags as bv32) & 2 == 0, false)
  }

  predicate HasComm(sections: seq<Section>) {
    exists i :: 0 <= i < |sections| && sections[i].name == COMM_NAME && sections[i].magic == 0xbadcafe5
  }

  /** Position `k` is the last section called ".comm_area". */
  predicate LastArea(sections: seq<Section>, k: nat) {
    && k < |sections| && sections[k].name == COMM_AREA_NAME
    && forall i :: k < i < |sections| ==> sections[i].name != COMM_AREA_NAME
  }

  /** Two strings of different lengths do not start at the same place. */
  lemma OneLength(img: Image, at: nat, s: seq<byte>, t: seq<byte>)
    requires |s| < |t| && 0 !in t
    ensures !(Stored(img, at, s + [0]) && Stored(img, at, t + [0]))
  {
    if Stored(img, at, s + [0]) {
      assert Slice(img, at, |t| + 1)[|s|] == Slice(img, at, |s| + 1)[|s|] == (s + [0])[|s|];
      assert (t + [0])[|s|] == t[|s|] && t[|s|] in t;
    }
  }

  lemma NameMatches(img: Image, at: nat, name: seq<byte>, text: seq<byte>)
    requires 0 !in name && 0 !in text && Stored(img, at, name + [0])
    ensures NameIs(img, at, text) <==> name == text
  {
    hide Slice;
    assert |text + [0]| == |text| + 1 && |name + [0]| == |name| + 1;
    assert NameIs(img, at, text) <==> Stored(img, at, text + [0]);
    if |name| < |text| {
      OneLength(img, at, name, text);
    } else if |text| < |name| {
      OneLength(img, at, text, name);
    } else {
      assert text + [0] == name + [0] ==> (text + [0])[..|text|] == (name + [0])[..|text|];
    }
  }

  lemma SectionMatches(img: Image, strings: Sh, sh: Sh, s: Section)
    requires SectionIn(img, strings, sh, s)
    ensures IsComm(img, strings, sh) <==> s.name == COMM_NAME && s.magic == COMM_MAGIC
    ensures IsArea(img, strings, sh) <==> s.name == COMM_AREA_NAME
    ensures sh.addr == s.addr && sh.size == s.size
  {
    hide NameIs, Stored, Word;
    NameMatches(img, strings.offset + sh.name, s.name, COMM_NAME);
    NameMatches(img, strings.offset + sh.name, s.name, COMM_AREA_NAME);
  }

  /** The scan finds a ".comm" section with the right magic and the last ".comm_area". */
  lemma {:induction false} ScanFinds(img: Image, strings: Sh, shs: seq<Sh>, sections: seq<Section>)
    requires |shs| == |sections|
    requires forall i :: 0 <= i < |shs| ==> SectionIn(img, strings, shs[i], sections[i])
    ensures var s := ScanAll(img, strings, shs);
            && (s.comm <==> HasComm(sections))
            && (s.area <==> exists k: nat :: LastArea(sections, k))
            && (forall k: nat :: LastArea(sections, k) ==> s.where == Comm(sections[k].addr, sections[k].size))
  {
    hide SectionIn, IsComm, IsArea;
    if shs != [] {
      var n := |shs| - 1;
      ScanFinds(img, strings, shs[..n], sections[..n]);
      SectionMatches(img, strings, shs[n], sections[n]);
      var init := sections[..n];
      assert sections == init + [sections[n]];
      HasCommSnoc(init, sections[n]);
      LastAreaSnoc(init, sections[n]);
      if sections[n].name == COMM_AREA_NAME {
        assert LastArea(sections, n);
      } else {
        assert forall k: nat :: LastArea(sections, k) <==> LastArea(init, k);
        assert forall k: nat :: LastArea(init, k) ==> init[k] == sections[k];
      }
    }
  }

  lemma HasCommSnoc(sections: seq<Section>, s: Section)
    ensures HasComm(sections + [s]) <==> HasComm(sections) || (s.name == COMM_NAME && s.magic == COMM_MAGIC)
  {
    var all := sections + [s];
    if HasComm(sections) {
      var i :| 0 <= i < |sections| && sections[i].name == COMM_NAME && sections[i].magic == COMM_MAGIC;
      assert all[i] == sections[i];
    }
    assert all[|sections|] == s;
  }

  lemma LastAreaSnoc(sections: seq<Section>, s: Section)
    ensures s.name == COMM_AREA_NAME ==> forall k: nat :: LastArea(sections + [s], k) <==> k == |sections|
    ensures s.name != COMM_AREA_NAME ==> forall k: nat :: LastArea(sections + [s], k) <==> LastArea(sections, k)
  {
    var all := sections + [s];
    assert all[|sections|] == s;
    forall k: nat
      ensures s.name == COMM_AREA_NAME ==> (LastArea(all, k) <==> k == |sections|)
      ensures s.name != COMM_AREA_NAME ==> (LastArea(all, k) <==> LastArea(sections, k))
    {
      if k < |sections| {
        assert all[k] == sections[k];
        assert forall i :: 0 <= i < |sections| ==> all[i] == sections[i];
      }
    }
  }

  ghost function TableOf(segments: seq<Segment>): (chunks: seq<Chunk>)
    ensures |chunks| == |segments|
    ensures forall i :: 0 <= i < |chunks| ==> chunks[i] == ChunkOf(segments[i], i)
  {
    seq(|segments|, i requires 0 <= i < |segments| => ChunkOf(segments[i], i))
  }

  /** What loading a file of the program should give: its chunk table and its last communication area, or a refusal
      if it lacks a communication section with the right magic or an area. */
  ghost predicate Meant(p: Prog, r: Parsed) {
    match r
    case Invalid => !HasComm(p.sections) || forall k: nat :: !LastArea(p.sections, k)
    case Loaded(chunks, comm) =>
      && HasComm(p.sections) && chunks == TableOf(p.segments)
      && exists k: nat :: LastArea(p.sections, k) && comm == Comm(p.sections[k].addr, p.sections[k].size)
  }

  lemma MeantOnce(p: Prog, r: Parsed, s: Parsed)
    requires Meant(p, r) && Meant(p, s)
    ensures r == s
  {
    hide HasComm, TableOf;
  }

  /** Loading inverts encoding in either width. */
  lemma ParseEncoded(img: Image, len: nat, c: Class, f: File, p: Prog)
    requires Encodes(img, c, f) && Represents(img, f, p) && Accepted(c, f.h, len)
    ensures Meant(p, Parse(img, len))
  {
    hide Word, Slice, Holding, SegmentIn, SectionIn, ScanAll, PhAt, ShAt, HasComm;
    hide LastArea, Accepted, Phs, Shs, HeaderAt, GetClass, Chunks;
    TablesDecode(img, c, f);
    ScanFinds(img, f.shs[f.h.shstrndx], f.shs, p.sections);
    ChunksDecode(img, f.phs, p.segments);
  }

  lemma TablesDecode(img: Image, c: Class, f: File)
    requires Encodes(img, c, f)
    ensures GetClass(img) == (CL_SUCCESS, c)
    ensures HeaderAt(c, img) == f.h && Phs(c, img, f.h) == f.phs && Shs(c, img, f.h) == f.shs
  {
    hide Word, Holding, Slice, EhdrWidths, PhWidths, ShWidths;
    if c.Elf32? { HeaderDecodes32(img, f.h); } else { HeaderDecodes64(img, f.h); }
    forall i | 0 <= i < f.h.phnum
      ensures PhAt(c, img, EntryAt(f.h.phoff, i, f.h.phentsize)) == f.phs[i]
    {
      var at := EntryAt(f.h.phoff, i, f.h.phentsize);
      if c.Elf32? { PhDecodes32(img, at, f.phs[i]); } else { PhDecodes64(img, at, f.phs[i]); }
    }
    forall i | 0 <= i < f.h.shnum
      ensures ShAt(c, img, EntryAt(f.h.shoff, i, f.h.shentsize)) == f.shs[i]
    {
      var at := EntryAt(f.h.shoff, i, f.h.shentsize);
      if c.Elf32? { ShDecodes32(img, at, f.shs[i]); } else { ShDecodes64(img, at, f.shs[i]); }
    }
  }

  lemma ChunksDecode(img: Image, phs: seq<Ph>, segments: seq<Segment>)
    requires |phs| == |segments|
    requires forall i :: 0 <= i < |phs| ==> SegmentIn(img, phs[i], segments[i])
    ensures Chunks(img, phs) == TableOf(segments)
  {
    hide Slice, ReadOnly;
    forall i | 0 <= i < |phs|
      ensures ChunkAt(img, phs[i], i) == ChunkOf(segments[i], i)
    {
      assert SegmentIn(img, phs[i], segments[i]);
      if segments[i].Load? {
        ReadOnlyBit(segments[i].flags);
      }
    }
  }

  /** The same program in a 32-bit and in a 64-bit file loads to the same chunk table and area, wherever the two
      files keep their tables and contents. */
  lemma WidthIndependent(a: Image, aLen: nat, f: File, b: Image, bLen: nat, g: File, p: Prog)
    requires Encodes(a, Elf32, f) && Represents(a, f, p) && Accepted(Elf32, f.h, aLen)
    requires Encodes(b, Elf64, g) && Represents(b, g, p) && Accepted(Elf64, g.h, bLen)
    ensures Parse(a, aLen) == Parse(b, bLen)
  {
    hide Encodes, Represents, Accepted, Parse, Meant;
    ParseEncoded(a, aLen, Elf32, f, p);
    ParseEncoded(b, bLen, Elf64, g, p);
    MeantOnce(p, Parse(a, aLen), Parse(b, bLen));
  }

  /** Loading a freshly parsed table writes each loaded segment to its address, in order, and nothing for the
      other program headers. */
  lemma {:induction false} SegmentTraffic(segments: seq<Segment>, n: nat)
    requires n <= |segments|
    ensures Traffic(TableOf(segments), n) == Writes(segments, n)
  {
    hide ChunkOf;
    if n > 0 {
      SegmentTraffic(segments, n - 1);
      TrafficOfSegment(segments[n - 1], n - 1);
    }
  }

  function WritesOf(s: Segment): seq<Op> {
    match s
    case Other => []
    case Load(paddr, _, bytes) => if bytes == [] then [] else [WriteMem(paddr, bytes)]
  }

  lemma TrafficOfSegment(s: Segment, i: nat)
    ensures TrafficOf(ChunkOf(s, i)) == WritesOf(s)
  {
  }

  function Writes(segments: seq<Segment>, n: nat): seq<Op>
    requires n <= |segments|
  {
    if n == 0 then [] else Writes(segments, n - 1) + WritesOf(segments[n - 1])
  }
}
