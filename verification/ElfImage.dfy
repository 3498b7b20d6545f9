/** A writer of ELF files in both widths: every program that fits has an image, and loading it gives the program back. */
module ElfImage {
  import opened Bits
  import opened CommArea
  import opened Elf

  /** Byte strings one after the other. */
  function Flat(parts: seq<seq<byte>>): seq<byte> {
    if parts == [] then [] else Flat(parts[..|parts| - 1]) + parts[|parts| - 1]
  }

  ghost predicate Lengths(parts: seq<seq<byte>>, lens: seq<nat>) {
    |parts| == |lens| && forall k :: 0 <= k < |parts| ==> |parts[k]| == lens[k]
  }

  lemma {:induction false} FlatPart(parts: seq<seq<byte>>, lens: seq<nat>, k: nat)
    requires Lengths(parts, lens) && k < |parts|
    ensures |Flat(parts)| == Offset(lens, |lens|)
    ensures Offset(lens, k) + lens[k] <= |Flat(parts)|
    ensures Flat(parts)[Offset(lens, k)..Offset(lens, k) + lens[k]] == parts[k]
  {
    var n := |parts| - 1;
    FlatLength(parts, lens);
    FlatLength(parts[..n], lens[..n]);
    OffsetOfPrefix(lens, n, n);
    OffsetMonotone(lens, k + 1, |lens|);
    if k < n {
      FlatPart(parts[..n], lens[..n], k);
      OffsetOfPrefix(lens, n, k);
    }
  }

  lemma {:induction false} FlatLength(parts: seq<seq<byte>>, lens: seq<nat>)
    requires Lengths(parts, lens)
    ensures |Flat(parts)| == Offset(lens, |lens|)
  {
    if parts != [] {
      var n := |parts| - 1;
      FlatLength(parts[..n], lens[..n]);
      OffsetOfPrefix(lens, n, n);
    }
  }

  function ImageOf(bytes: seq<byte>): Image {
    (i: nat) => if i < |bytes| then bytes[i] else 0
  }

  lemma FlatStored(parts: seq<seq<byte>>, lens: seq<nat>, k: nat)
    requires Lengths(parts, lens) && k < |parts| && Offset(lens, |lens|) <= TWO64
    ensures Stored(ImageOf(Flat(parts)), Offset(lens, k), parts[k])
  {
    hide Flat, Offset;
    FlatPart(parts, lens, k);
    var img, at := ImageOf(Flat(parts)), Offset(lens, k);
    forall i | 0 <= i < |parts[k]|
      ensures Slice(img, at, |parts[k]|)[i] == parts[k][i]
    {
      assert parts[k][i] == Flat(parts)[at..at + lens[k]][i];
      Small(at + i);
    }
  }

  lemma Small(x: nat)
    requires x < TWO64
    ensures x % TWO64 == x
  {
  }

  // ------------------------------------------------------------------------------------------
  // The parts of a file: identification, header, both tables, the contents of the segments, the first words of the
  // sections, and the string table, which starts with the first word of its own section.

  // The numbers of the first parts of the groups.

  const PHS_FROM: nat := 2

  function ShsFrom(p: Prog): nat {
    PHS_FROM + |p.segments|
  }

  function ContentsFrom(p: Prog): nat {
    ShsFrom(p) + |p.sections|
  }

  function WordsFrom(p: Prog): nat {
    ContentsFrom(p) + |p.segments|
  }

  function StringsAt(p: Prog): nat {
    WordsFrom(p) + |p.sections|
  }

  function PartCount(p: Prog): nat {
    StringsAt(p) + 1 + |p.sections|
  }

  function Content(s: Segment): seq<byte> {
    if s.Load? then s.bytes else []
  }

  function PartSize(c: Class, p: Prog, k: nat): nat
    requires k < PartCount(p)
  {
    if k == 0 then 16
    else if k == 1 then Offset(EhdrWidths(c), 13)
    else if k < ShsFrom(p) then PhSize(c)
    else if k < ContentsFrom(p) then ShSize(c)
    else if k < WordsFrom(p) then |Content(p.segments[k - ContentsFrom(p)])|
    else if k <= StringsAt(p) then 4
    else |p.sections[k - StringsAt(p) - 1].name| + 1
  }

  function Lens(c: Class, p: Prog): (l: seq<nat>)
    ensures |l| == PartCount(p) && forall k :: 0 <= k < |l| ==> l[k] == PartSize(c, p, k)
  {
    seq(PartCount(p), k requires 0 <= k < PartCount(p) => PartSize(c, p, k))
  }

  /** Where part `k` starts. */
  function At(c: Class, p: Prog, k: nat): nat
    requires k <= PartCount(p)
  {
    Offset(Lens(c, p), k)
  }

  function Header(c: Class, p: Prog, x: nat): Ehdr {
    Ehdr(ET_EXEC, EM_RISCV, 1, p.entry, At(c, p, PHS_FROM), At(c, p, ShsFrom(p)), 0, At(c, p, PHS_FROM),
         PhSize(c), |p.segments|, ShSize(c), |p.sections|, x)
  }

  function PhOf(c: Class, p: Prog, i: nat): Ph
    requires i < |p.segments|
  {
    match p.segments[i]
    case Other => Ph(0, 0, 0, 0, 0, 0, 0, 0)
    case Load(paddr, flags, bytes) =>
      Ph(PT_LOAD, flags, At(c, p, ContentsFrom(p) + i), 0, paddr, |bytes|, |bytes|, 1)
  }

  function NameAt(c: Class, p: Prog, j: nat): nat
    requires j < |p.sections|
  {
    OffsetMonotone(Lens(c, p), StringsAt(p), StringsAt(p) + 1 + j);
    At(c, p, StringsAt(p) + 1 + j) - At(c, p, StringsAt(p))
  }

  function ShOf(c: Class, p: Prog, x: nat, j: nat): Sh
    requires j < |p.sections|
  {
    var s := p.sections[j];
    var at := At(c, p, if j == x then StringsAt(p) else WordsFrom(p) + j);
    Sh(NameAt(c, p, j), 1, 0, s.addr, at, s.size, 0, 0, 1, 0)
  }

  function Part(c: Class, p: Prog, x: nat, k: nat): seq<byte>
    requires k < PartCount(p) && x < |p.sections|
  {
    if k == 0 then [0x7f, 0x45, 0x4c, 0x46, if c.Elf32? then 1 else 2] + ToLE(0, 11)
    else if k == 1 then Encode(EhdrWidths(c), EhdrFields(Header(c, p, x)))
    else if k < ShsFrom(p) then Encode(PhWidths(c), PhFields(c, PhOf(c, p, k - PHS_FROM)))
    else if k < ContentsFrom(p) then Encode(ShWidths(c), ShFields(ShOf(c, p, x, k - ShsFrom(p))))
    else if k < WordsFrom(p) then Content(p.segments[k - ContentsFrom(p)])
    else if k < StringsAt(p) then ToLE(p.sections[k - WordsFrom(p)].magic, 4)
    else if k == StringsAt(p) then ToLE(p.sections[x].magic, 4)
    else p.sections[k - StringsAt(p) - 1].name + [0]
  }

  function Parts(c: Class, p: Prog, x: nat): (ps: seq<seq<byte>>)
    requires x < |p.sections|
    ensures |ps| == PartCount(p) && forall k :: 0 <= k < |ps| ==> ps[k] == Part(c, p, x, k)
  {
    seq(PartCount(p), k requires 0 <= k < PartCount(p) => Part(c, p, x, k))
  }

  /** The file of program `p` in class `c`, with section `x` as its string table. */
  function Emit(c: Class, p: Prog, x: nat): seq<byte>
    requires x < |p.sections|
  {
    Flat(Parts(c, p, x))
  }

  function Written(c: Class, p: Prog, x: nat): File {
    File(Header(c, p, x),
         seq(|p.segments|, i requires 0 <= i < |p.segments| => PhOf(c, p, i)),
         seq(|p.sections|, j requires 0 <= j < |p.sections| => ShOf(c, p, x, j)))
  }

  /** The program fits the class: its tables, addresses and file size have their fields, and section `x` is long enough
      for the names. */
  ghost predicate ProgFits(c: Class, p: Prog, x: nat) {
    var bound := if c.Elf32? then 0x1_0000_0000 else TWO64;
    && p.entry < bound && p.entry % 4 == 0
    && 0 < |p.segments| < 0x1_0000 && x < |p.sections| < 0x1_0000
    && (forall s :: s in p.segments && s.Load? ==> s.paddr < bound && |s.bytes| < 0x1_0000_0000)
    && (forall s :: s in p.sections ==> s.addr < bound && s.size < bound && s.magic < 0x1_0000_0000 && 0 !in s.name)
    && At(c, p, PartCount(p)) < bound
    && At(c, p, PartCount(p)) - At(c, p, StringsAt(p)) <= p.sections[x].size
    && At(c, p, PartCount(p)) - At(c, p, StringsAt(p)) < 0x1_0000_0000
  }

  lemma TableWidths(c: Class)
    ensures Offset(PhWidths(c), 8) == PhSize(c) && Offset(ShWidths(c), 10) == ShSize(c)
  {
    hide Offset;
    var w, v := PhWidths(c), ShWidths(c);
    OffsetStart(w);
    OffsetStart(v);
    OffsetTwo(w, 0);
    OffsetTwo(w, 2);
    OffsetTwo(w, 4);
    OffsetTwo(w, 6);
    OffsetTwo(v, 0);
    OffsetTwo(v, 2);
    OffsetTwo(v, 4);
    OffsetTwo(v, 6);
    OffsetTwo(v, 8);
  }

  lemma OffsetStart(w: seq<nat>)
    ensures Offset(w, 0) == 0
  {
  }

  lemma OffsetTwo(w: seq<nat>, k: nat)
    requires k + 2 <= |w|
    ensures Offset(w, k + 2) == Offset(w, k) + w[k] + w[k + 1]
  {
    assert Offset(w, k + 1) == Offset(w, k) + w[k];
  }

  lemma PartLengths(c: Class, p: Prog, x: nat)
    requires x < |p.sections|
    ensures Lengths(Parts(c, p, x), Lens(c, p))
  {
    hide Encode, Offset, ToLE, Header, PhOf, ShOf;
    TableWidths(c);
    forall k | 0 <= k < PartCount(p)
      ensures |Part(c, p, x, k)| == PartSize(c, p, k)
    {
    }
  }

  lemma PartStored(c: Class, p: Prog, x: nat, k: nat)
    requires ProgFits(c, p, x) && k < PartCount(p)
    ensures Stored(ImageOf(Emit(c, p, x)), At(c, p, k), Part(c, p, x, k))
  {
    hide Flat, Part, PartSize, Offset, Stored, Lengths;
    PartLengths(c, p, x);
    FlatStored(Parts(c, p, x), Lens(c, p), k);
  }

  /** Entries of one size. */
  lemma {:induction false} Stride(lens: seq<nat>, from: nat, i: nat, size: nat)
    requires from + i <= |lens| && forall j :: from <= j < from + i ==> lens[j] == size
    ensures Offset(lens, from + i) == EntryAt(Offset(lens, from), i, size)
  {
    if i > 0 {
      Stride(lens, from, i - 1, size);
      assert i * size == (i - 1) * size + size;
    }
  }

  // ------------------------------------------------------------------------------------------
  // The emitted file is an encoding of the program.

  lemma StartsInside(c: Class, p: Prog, x: nat, k: nat)
    requires ProgFits(c, p, x) && k <= PartCount(p)
    ensures At(c, p, k) <= At(c, p, PartCount(p)) < if c.Elf32? then 0x1_0000_0000 else TWO64
  {
    hide Offset, PartSize;
    OffsetMonotone(Lens(c, p), k, PartCount(p));
  }

  lemma TableStarts(c: Class, p: Prog, i: nat, j: nat)
    requires i <= |p.segments| && j <= |p.sections|
    ensures At(c, p, 1) == 16 && At(c, p, PHS_FROM) > 16
    ensures At(c, p, PHS_FROM + i) == EntryAt(At(c, p, PHS_FROM), i, PhSize(c))
    ensures At(c, p, ShsFrom(p) + j) == EntryAt(At(c, p, ShsFrom(p)), j, ShSize(c))
  {
    var lens := Lens(c, p);
    assert Offset(lens, 1) == lens[0];
    assert Offset(lens, 2) == Offset(lens, 1) + lens[1] && lens[1] == Offset(EhdrWidths(c), 13);
    OffsetMonotone(EhdrWidths(c), 1, 13);
    Stride(lens, PHS_FROM, i, PhSize(c));
    Stride(lens, ShsFrom(p), j, ShSize(c));
  }

  lemma Pow256Small()
    ensures Pow256(2) == 0x1_0000 && Pow256(4) == 0x1_0000_0000 && Pow256(8) == TWO64
  {
    Pow256Values();
    assert Pow256(1) == 256;
  }

  lemma HeaderInWidth(c: Class, p: Prog, x: nat)
    requires ProgFits(c, p, x)
    ensures InWidth(EhdrWidths(c), EhdrFields(Header(c, p, x)))
  {
    hide At, Pow256;
    Pow256Small();
    StartsInside(c, p, x, PHS_FROM);
    StartsInside(c, p, x, ShsFrom(p));
    HeaderEnd(c, p);
  }

  lemma HeaderEnd(c: Class, p: Prog)
    ensures At(c, p, PHS_FROM) == if c.Elf32? then 52 else 64
  {
    hide Offset;
    var lens, w := Lens(c, p), EhdrWidths(c);
    OffsetStart(lens);
    OffsetTwo(lens, 0);
    OffsetStart(w);
    OffsetTwo(w, 0);
    OffsetTwo(w, 2);
    OffsetTwo(w, 4);
    OffsetTwo(w, 6);
    OffsetTwo(w, 8);
    OffsetTwo(w, 10);
    OffsetLast(w, 12);
  }

  lemma OffsetLast(w: seq<nat>, k: nat)
    requires k < |w|
    ensures Offset(w, k + 1) == Offset(w, k) + w[k]
  {
  }

  lemma PhInWidth(c: Class, p: Prog, x: nat, i: nat)
    requires ProgFits(c, p, x) && i < |p.segments|
    ensures InWidth(PhWidths(c), PhFields(c, PhOf(c, p, i)))
  {
    hide At, Pow256;
    Pow256Small();
    StartsInside(c, p, x, ContentsFrom(p) + i);
    assert p.segments[i] in p.segments;
  }

  lemma ShInWidth(c: Class, p: Prog, x: nat, j: nat)
    requires ProgFits(c, p, x) && j < |p.sections|
    ensures InWidth(ShWidths(c), ShFields(ShOf(c, p, x, j)))
    ensures ShOf(c, p, x, j).name < p.sections[x].size
  {
    hide At, Pow256;
    Pow256Small();
    StartsInside(c, p, x, WordsFrom(p) + j);
    StartsInside(c, p, x, StringsAt(p));
    assert p.sections[j] in p.sections;
    NameInside(c, p, x, j);
  }

  lemma NameInside(c: Class, p: Prog, x: nat, j: nat)
    requires ProgFits(c, p, x) && j < |p.sections|
    ensures At(c, p, StringsAt(p)) + NameAt(c, p, j) == At(c, p, StringsAt(p) + 1 + j) < At(c, p, PartCount(p))
  {
    hide PartSize;
    var lens, k := Lens(c, p), StringsAt(p) + 1 + j;
    OffsetMonotone(lens, StringsAt(p), k);
    OffsetMonotone(lens, k + 1, PartCount(p));
    assert Offset(lens, k + 1) == Offset(lens, k) + lens[k];
    assert lens[k] == PartSize(c, p, k) > 0 by { NameSize(c, p, j); }
  }

  lemma NameSize(c: Class, p: Prog, j: nat)
    requires j < |p.sections|
    ensures PartSize(c, p, StringsAt(p) + 1 + j) == |p.sections[j].name| + 1
  {
  }

  lemma EmitEncodes(c: Class, p: Prog, x: nat)
    requires ProgFits(c, p, x)
    ensures Encodes(ImageOf(Emit(c, p, x)), c, Written(c, p, x))
  {
    hide Emit, At, Encode, ProgFits, PartSize, InWidth, Stored, Header, PhOf, ShOf, EntryAt;
    FitsIndex(c, p, x);
    var img, f := ImageOf(Emit(c, p, x)), Written(c, p, x);
    IdentStored(c, p, x);
    HeaderShape(c, p, x);
    PartStored(c, p, x, 1);
    HeaderInWidth(c, p, x);
    TableStarts(c, p, 0, 0);
    forall i | 0 <= i < |p.segments|
      ensures Holding(img, EntryAt(f.h.phoff, i, f.h.phentsize), PhWidths(c), PhFields(c, f.phs[i]))
    {
      PartStored(c, p, x, PHS_FROM + i);
      PhInWidth(c, p, x, i);
      TableStarts(c, p, i, 0);
    }
    forall j | 0 <= j < |p.sections|
      ensures Holding(img, EntryAt(f.h.shoff, j, f.h.shentsize), ShWidths(c), ShFields(f.shs[j]))
    {
      PartStored(c, p, x, ShsFrom(p) + j);
      ShInWidth(c, p, x, j);
      TableStarts(c, p, 0, j);
    }
  }

  lemma HeaderShape(c: Class, p: Prog, x: nat)
    ensures var h := Header(c, p, x);
            && h.phoff == At(c, p, PHS_FROM) && h.shoff == At(c, p, ShsFrom(p))
            && h.phentsize == PhSize(c) && h.shentsize == ShSize(c)
            && h.phnum == |p.segments| && h.shnum == |p.sections| && h.shstrndx == x
  {
  }

  lemma IdentStored(c: Class, p: Prog, x: nat)
    requires ProgFits(c, p, x)
    ensures var img := ImageOf(Emit(c, p, x));
            && Slice(img, 0, 4) == [0x7f, 0x45, 0x4c, 0x46]
            && Slice(img, 4, 1) == [if c.Elf32? then 1 else 2]
  {
    hide Emit, ProgFits, PartSize, Slice, ToLE;
    FitsIndex(c, p, x);
    var img, bs := ImageOf(Emit(c, p, x)), Part(c, p, x, 0);
    PartStored(c, p, x, 0);
    StoredPart(img, 0, bs, 0, 4);
    StoredPart(img, 0, bs, 4, 1);
  }

  lemma SegmentEmitted(c: Class, p: Prog, x: nat, i: nat)
    requires ProgFits(c, p, x) && i < |p.segments|
    ensures SegmentIn(ImageOf(Emit(c, p, x)), PhOf(c, p, i), p.segments[i])
  {
    hide Emit, At, PartSize, Stored;
    assert p.segments[i] in p.segments;
    PartStored(c, p, x, ContentsFrom(p) + i);
  }

  lemma SectionEmitted(c: Class, p: Prog, x: nat, j: nat)
    requires ProgFits(c, p, x) && j < |p.sections|
    ensures SectionIn(ImageOf(Emit(c, p, x)), ShOf(c, p, x, x), ShOf(c, p, x, j), p.sections[j])
  {
    hide Emit, At, PartSize, Stored, Word, Pow256, ToLE;
    assert p.sections[j] in p.sections;
    ShInWidth(c, p, x, j);
    NameInside(c, p, x, j);
    PartStored(c, p, x, StringsAt(p) + 1 + j);
    var img, k := ImageOf(Emit(c, p, x)), if j == x then StringsAt(p) else WordsFrom(p) + j;
    PartStored(c, p, x, k);
    Pow256Small();
    WordStored(img, At(c, p, k), p.sections[j].magic);
  }

  lemma WordStored(img: Image, at: nat, w: nat)
    requires Stored(img, at, ToLE(w, 4)) && w < Pow256(4)
    ensures Word(img, at, 4) == w
  {
    hide Slice, ToLE, FromLE, Pow256;
    FromToLE(w, 4);
  }

  lemma EmitAccepted(c: Class, p: Prog, x: nat)
    requires ProgFits(c, p, x)
    ensures Accepted(c, Header(c, p, x), |Emit(c, p, x)|)
  {
    hide Emit, At, PartSize, EntryAt;
    PartLengths(c, p, x);
    EmitLength(c, p, x);
    HeaderEnd(c, p);
    TableStarts(c, p, |p.segments|, |p.sections|);
    StartsInside(c, p, x, ShsFrom(p));
    StartsInside(c, p, x, ContentsFrom(p));
    TableFits(At(c, p, PHS_FROM), |p.segments|, PhSize(c));
    TableFits(At(c, p, ShsFrom(p)), |p.sections|, ShSize(c));
  }

  lemma EmitLength(c: Class, p: Prog, x: nat)
    requires x < |p.sections|
    ensures |Emit(c, p, x)| == At(c, p, PartCount(p))
  {
    hide Flat, Part, PartSize, Offset;
    PartLengths(c, p, x);
    FlatLength(Parts(c, p, x), Lens(c, p));
  }

  lemma TableFits(off: nat, num: nat, size: nat)
    requires num < 0x1_0000 && size < 0x1_0000 && EntryAt(off, num, size) < TWO64
    ensures TableEnd(off, num, size) == EntryAt(off, num, size)
  {
    ProductFits(num, size);
    EndValue(off, num, size);
  }

  /** Writing and loading is the identity: the emitted file holds the program, is accepted, and loads to what the
      program means. */
  lemma RoundTrip(c: Class, p: Prog, x: nat)
    requires ProgFits(c, p, x)
    ensures var img, f := ImageOf(Emit(c, p, x)), Written(c, p, x);
            && Encodes(img, c, f) && Represents(img, f, p) && Accepted(c, f.h, |Emit(c, p, x)|)
            && Meant(p, Parse(img, |Emit(c, p, x)|))
  {
    hide Emit, Encodes, Accepted, ProgFits, SegmentIn, SectionIn, PhOf, ShOf, Header, Meant, Parse;
    FitsIndex(c, p, x);
    var img, f := ImageOf(Emit(c, p, x)), Written(c, p, x);
    EmitEncodes(c, p, x);
    EmitAccepted(c, p, x);
    HeaderShape(c, p, x);
    forall i | 0 <= i < |f.phs|
      ensures SegmentIn(img, f.phs[i], p.segments[i])
    {
      SegmentEmitted(c, p, x, i);
    }
    forall j | 0 <= j < |f.shs|
      ensures SectionIn(img, f.shs[f.h.shstrndx], f.shs[j], p.sections[j])
    {
      SectionEmitted(c, p, x, j);
    }
    ParseEncoded(img, |Emit(c, p, x)|, c, f, p);
  }

  lemma FitsIndex(c: Class, p: Prog, x: nat)
    requires ProgFits(c, p, x)
    ensures x < |p.sections|
  {
  }

  // ------------------------------------------------------------------------------------------
  // A file whose table wraps around.

  /** A 64-bit header with its only program header 56 bytes in front of the file. */
  const WRAPPED: Ehdr := Ehdr(ET_EXEC, EM_RISCV, 1, 0, 0xFFFF_FFFF_FFFF_FFC8, 64, 0, 64, 56, 1, 64, 1, 0)

  function WrappedFile(): seq<byte> {
    Flat([[0x7f, 0x45, 0x4c, 0x46, 2] + ToLE(0, 11), Encode(EhdrWidths(Elf64), EhdrFields(WRAPPED)), ToLE(0, 64)])
  }

  /** The file is accepted, although its table lies outside. */
  lemma WrappedHeader()
    ensures var img, len := ImageOf(WrappedFile()), |WrappedFile()|;
            var h := HeaderAt(Elf64, img);
            && len == 128 && HeaderOk(img, len) && GetClass(img).1 == Elf64
            && !TableInFile(h.phoff, h.phnum, h.phentsize, 56, len)
  {
    hide Flat, Encode, ToLE, Slice, Word;
    var ident := [0x7f, 0x45, 0x4c, 0x46, 2] + ToLE(0, 11);
    var parts := [ident, Encode(EhdrWidths(Elf64), EhdrFields(WRAPPED)), ToLE(0, 64)];
    var lens, img := [16, 48, 64], ImageOf(WrappedFile());
    HeaderSize();
    ThreeOffsets(lens);
    FlatLength(parts, lens);
    FlatStored(parts, lens, 0);
    FlatStored(parts, lens, 1);
    StoredPart(img, 0, ident, 0, 4);
    StoredPart(img, 0, ident, 4, 1);
    Pow256Small();
    WrappedInWidth();
    HeaderDecodes64(img, WRAPPED);
    assert EntryAt(0xFFFF_FFFF_FFFF_FFC8, 0, 56) + 56 > 128;
  }

  lemma WrappedInWidth()
    ensures InWidth(EhdrWidths(Elf64), EhdrFields(WRAPPED))
  {
    hide Pow256;
    Pow256Small();
  }

  lemma ThreeOffsets(lens: seq<nat>)
    requires lens == [16, 48, 64]
    ensures Offset(lens, 0) == 0 && Offset(lens, 1) == 16 && Offset(lens, 2) == 64 && Offset(lens, 3) == 128
  {
    OffsetLast(lens, 0);
    OffsetLast(lens, 1);
    OffsetLast(lens, 2);
  }

  lemma HeaderSize()
    ensures Offset(EhdrWidths(Elf64), 13) == 48
  {
    hide Offset;
    var w := EhdrWidths(Elf64);
    OffsetStart(w);
    OffsetTwo(w, 0);
    OffsetTwo(w, 2);
    OffsetTwo(w, 4);
    OffsetTwo(w, 6);
    OffsetTwo(w, 8);
    OffsetTwo(w, 10);
    OffsetLast(w, 12);
  }
}
