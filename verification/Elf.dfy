/**
 * The ELF parser (libkernel/src/elf.rs) and the loader's page loop
 * (osl/src/elf_loader.rs): what the parser guarantees about the segments it
 * returns, and what memory holds once they are loaded, as the Program Header
 * chapter of the System V gABI requires.
 */
module Elf {
  import opened Base
  import opened Bits
  import opened Bytes
  import opened Pages

  const EHDR_SIZE: nat := 64
  const PHDR_SIZE: nat := 56
  const ELFCLASS64: nat := 2
  const ELFDATA2LSB: nat := 1
  const ET_EXEC: nat := 2
  const EM_X86_64: nat := 62
  const PT_LOAD: nat := 1
  const PT_PHDR: nat := 6

  datatype ElfError = TooSmall | BadMagic | Not64Bit | NotLittleEndian | NotExec | NotX86_64 | BadPhdr

  datatype Segment = Segment(vaddr: nat, offset: nat, filesz: nat, memsz: nat, flags: nat)

  datatype ElfInfo = ElfInfo(entry: nat, segments: seq<Segment>, phdr: nat, phnum: nat, phentsize: nat)

  /** An addition that overflows 64 bits stops the kernel. */
  datatype Parsed = Accepted(info: ElfInfo) | Rejected(error: ElfError) | Panics

  // ---- the file format ----

  /** The little-endian field of `n` bytes at offset `at`. */
  function Field(data: seq<Byte>, at: nat, n: nat): nat {
    if at + n <= |data| then FromLE(data[at..at + n]) else 0
  }

  function HeaderError(data: seq<Byte>): Option<ElfError> {
    if |data| < EHDR_SIZE then Some(TooSmall)
    else if data[..4] != [0x7F, 0x45, 0x4C, 0x46] then Some(BadMagic)
    else if data[4] != ELFCLASS64 then Some(Not64Bit)
    else if data[5] != ELFDATA2LSB then Some(NotLittleEndian)
    else if Field(data, 16, 2) != ET_EXEC then Some(NotExec)
    else if Field(data, 18, 2) != EM_X86_64 then Some(NotX86_64)
    else None
  }

  function TableOffset(data: seq<Byte>): nat {
    Field(data, 32, 8)
  }

  function TableCount(data: seq<Byte>): nat {
    Field(data, 56, 2)
  }

  /** Where program header `i` starts in the file. */
  function HeaderAt(data: seq<Byte>, i: nat): nat {
    TableOffset(data) + i * Field(data, 54, 2)
  }

  function HeaderType(data: seq<Byte>, i: nat): nat {
    Field(data, HeaderAt(data, i), 4)
  }

  function SegmentAt(data: seq<Byte>, i: nat): Segment {
    var at := HeaderAt(data, i);
    Segment(Field(data, at + 16, 8), Field(data, at + 8, 8), Field(data, at + 32, 8), Field(data, at + 40, 8),
            Field(data, at + 4, 4))
  }

  /** The segment's bytes lie in the file. */
  predicate InFile(data: seq<Byte>, s: Segment) {
    s.offset + s.filesz <= |data|
  }

  predicate HeaderOk(data: seq<Byte>, i: nat) {
    && HeaderAt(data, i) + PHDR_SIZE <= |data|
    && (HeaderType(data, i) == PT_LOAD ==> InFile(data, SegmentAt(data, i)))
  }

  predicate FirstBad(data: seq<Byte>, i: nat) {
    i < TableCount(data) && !HeaderOk(data, i) && forall j | 0 <= j < i :: HeaderOk(data, j)
  }

  /** The loadable segments among the first `n` headers, in order. */
  function Loads(data: seq<Byte>, n: nat): seq<Segment> {
    if n == 0 then []
    else Loads(data, n - 1) + (if HeaderType(data, n - 1) == PT_LOAD then [SegmentAt(data, n - 1)] else [])
  }

  /** The address in the last PT_PHDR among the first `n` headers. */
  function TableHeader(data: seq<Byte>, n: nat): Option<nat> {
    if n == 0 then None
    else if HeaderType(data, n - 1) == PT_PHDR then Some(SegmentAt(data, n - 1).vaddr)
    else TableHeader(data, n - 1)
  }

  predicate Holds(s: Segment, offset: nat) {
    s.offset <= offset < s.offset + s.filesz
  }

  /** Where the header table ends up in memory: in the first segment that holds it, or nowhere. */
  function TableInSegments(segments: seq<Segment>, offset: nat): nat {
    if segments == [] then 0
    else if Holds(segments[0], offset) then segments[0].vaddr + (offset - segments[0].offset)
    else TableInSegments(segments[1..], offset)
  }

  function TableAddress(data: seq<Byte>): nat {
    match TableHeader(data, TableCount(data))
    case Some(a) => a
    case None => TableInSegments(Loads(data, TableCount(data)), TableOffset(data))
  }

  lemma {:induction false} LoadsInFile(data: seq<Byte>, n: nat)
    requires forall i | 0 <= i < n :: HeaderOk(data, i)
    ensures forall s <- Loads(data, n) :: InFile(data, s)
  {
    hide HeaderType, SegmentAt, HeaderAt, InFile;
    if n > 0 {
      LoadsInFile(data, n - 1);
      assert HeaderOk(data, n - 1);
    }
  }

  // ---- what a file says, written down and read back ----

  /** The file header of the ELF-64 object format. */
  datatype Ehdr = Ehdr(
    ident: seq<Byte>,
    version: nat,
    entry: nat,
    phoff: nat,
    shoff: nat,
    flags: nat,
    ehsize: nat,
    phentsize: nat,
    phnum: nat,
    sections: seq<Byte>)

  /** A program header of the ELF-64 object format. */
  datatype Phdr = Phdr(kind: nat, flags: nat, offset: nat, vaddr: nat, paddr: nat, filesz: nat, memsz: nat, align: nat)

  predicate EhdrFits(e: Ehdr) {
    && |e.ident| == 10 && |e.sections| == 6 && e.entry < U64 && e.phoff < U64
    && e.phentsize < 0x1_0000 && e.phnum < 0x1_0000
  }

  predicate PhdrFits(h: Phdr) {
    h.kind < U32 && h.flags < U32 && h.offset < U64 && h.vaddr < U64 && h.filesz < U64 && h.memsz < U64
  }

  /** An executable for x86-64, field by field. */
  function EhdrBytes(e: Ehdr): seq<Byte> {
    [0x7F, 0x45, 0x4C, 0x46, 2, 1] + e.ident + LE(2, 2) + LE(62, 2) + LE(e.version, 4) + LE(e.entry, 8) + LE(e.phoff, 8)
    + LE(e.shoff, 8) + LE(e.flags, 4) + LE(e.ehsize, 2) + LE(e.phentsize, 2) + LE(e.phnum, 2) + e.sections
  }

  function PhdrBytes(h: Phdr): seq<Byte> {
    LE(h.kind, 4) + LE(h.flags, 4) + LE(h.offset, 8) + LE(h.vaddr, 8) + LE(h.paddr, 8) + LE(h.filesz, 8) + LE(h.memsz, 8)
    + LE(h.align, 8)
  }

  function LoadsOf(hs: seq<Phdr>): seq<Segment> {
    if hs == [] then []
    else
      var h := hs[|hs| - 1];
      LoadsOf(hs[..|hs| - 1]) +
      (if h.kind == 1
       then [Segment(vaddr := h.vaddr, offset := h.offset, filesz := h.filesz, memsz := h.memsz, flags := h.flags)]
       else [])
  }

  lemma FieldIs(data: seq<Byte>, at: nat, n: nat, v: nat)
    requires at + n <= |data| && data[at..at + n] == LE(v, n) && v < Pow2(8 * n)
    ensures Field(data, at, n) == v
  {
    LERoundTrip(v, n);
  }

  lemma Widths()
    ensures Pow2(8 * 2) == 0x1_0000 && Pow2(8 * 4) == U32 && Pow2(8 * 8) == U64
  {
    Pow2Values();
    Pow2Small();
    Pow2Add(8, 8);
    Pow2Add(16, 16);
  }

  lemma Slice(data: seq<Byte>, at: nat, whole: seq<Byte>, i: nat, j: nat)
    requires at + |whole| <= |data| && data[at..at + |whole|] == whole && i <= j <= |whole|
    ensures data[at + i..at + j] == whole[i..j]
  {
    forall k | 0 <= k < j - i
      ensures data[at + i..at + j][k] == whole[i..j][k]
    {
      assert data[at + (i + k)] == data[at..at + |whole|][i + k];
    }
  }

  /** A part behind a known beginning. */
  lemma PartAt(pre: seq<Byte>, x: seq<Byte>, whole: seq<Byte>)
    requires pre + x <= whole
    ensures whole[|pre|..|pre| + |x|] == x
  {
    assert whole[..|pre| + |x|] == pre + x;
    forall k | 0 <= k < |x|
      ensures whole[|pre|..|pre| + |x|][k] == x[k]
    {
      assert whole[..|pre| + |x|][|pre| + k] == (pre + x)[|pre| + k];
    }
  }

  lemma PhdrParts(h: Phdr)
    ensures var b := PhdrBytes(h);
            && |b| == 56 && b[0..4] == LE(h.kind, 4) && b[4..8] == LE(h.flags, 4) && b[8..16] == LE(h.offset, 8)
            && b[16..24] == LE(h.vaddr, 8) && b[32..40] == LE(h.filesz, 8) && b[40..48] == LE(h.memsz, 8)
  {
    hide LE;
    var b := PhdrBytes(h);
    var p1 := LE(h.kind, 4);
    var p2 := p1 + LE(h.flags, 4);
    var p3 := p2 + LE(h.offset, 8);
    var p4 := p3 + LE(h.vaddr, 8);
    var p5 := p4 + LE(h.paddr, 8);
    var p6 := p5 + LE(h.filesz, 8);
    var p7 := p6 + LE(h.memsz, 8);
    assert b == p7 + LE(h.align, 8) && [] + p1 == p1;
    assert p1 <= p2 <= p3 <= p4 <= p5 <= p6 <= p7 <= b;
    PartAt([], LE(h.kind, 4), b);
    PartAt(p1, LE(h.flags, 4), b);
    PartAt(p2, LE(h.offset, 8), b);
    PartAt(p3, LE(h.vaddr, 8), b);
    PartAt(p5, LE(h.filesz, 8), b);
    PartAt(p6, LE(h.memsz, 8), b);
  }

  lemma EhdrParts(e: Ehdr)
    requires EhdrFits(e)
    ensures var b := EhdrBytes(e);
            && |b| == 64 && b[0..4] == [0x7F, 0x45, 0x4C, 0x46] && b[4] == 2 && b[5] == 1 && b[16..18] == LE(2, 2) && b[18..20] == LE(62, 2)
            && b[24..32] == LE(e.entry, 8) && b[32..40] == LE(e.phoff, 8) && b[54..56] == LE(e.phentsize, 2) && b[56..58] == LE(e.phnum, 2)
  {
    hide LE;
    var b := EhdrBytes(e);
    var magic: seq<Byte> := [0x7F, 0x45, 0x4C, 0x46];
    var p0 := magic + [2, 1];
    var p1 := p0 + e.ident;
    var p2 := p1 + LE(2, 2);
    var p3 := p2 + LE(62, 2);
    var p4 := p3 + LE(e.version, 4);
    var p5 := p4 + LE(e.entry, 8);
    var p6 := p5 + LE(e.phoff, 8);
    var p7 := p6 + LE(e.shoff, 8) + LE(e.flags, 4) + LE(e.ehsize, 2);
    var p8 := p7 + LE(e.phentsize, 2);
    var p9 := p8 + LE(e.phnum, 2);
    assert p0 == [0x7F, 0x45, 0x4C, 0x46, 2, 1] && [] + magic == magic;
    assert b == p9 + e.sections;
    assert magic <= p0 <= p1 <= p2 <= p3 <= p4 <= p5 <= p6 <= p7 <= p8 <= p9 <= b;
    PartAt([], magic, b);
    PartAt(magic, [2, 1], b);
    PartAt(p1, LE(2, 2), b);
    PartAt(p2, LE(62, 2), b);
    PartAt(p4, LE(e.entry, 8), b);
    PartAt(p5, LE(e.phoff, 8), b);
    PartAt(p7, LE(e.phentsize, 2), b);
    PartAt(p8, LE(e.phnum, 2), b);
    assert b[4] == b[4..6][0] && b[5] == b[4..6][1];
  }

  lemma EhdrReadsBack(data: seq<Byte>, e: Ehdr)
    requires EhdrFits(e) && |data| >= 64 && data[..64] == EhdrBytes(e)
    ensures HeaderError(data) == None && Field(data, 24, 8) == e.entry && TableOffset(data) == e.phoff
    ensures Field(data, 54, 2) == e.phentsize && TableCount(data) == e.phnum
  {
    hide LE, Field, EhdrBytes, Pow2;
    Widths();
    EhdrParts(e);
    var b := EhdrBytes(e);
    assert data[0..0 + 64] == b;
    Slice(data, 0, b, 0, 4);
    Slice(data, 0, b, 16, 18);
    Slice(data, 0, b, 18, 20);
    Slice(data, 0, b, 24, 32);
    Slice(data, 0, b, 32, 40);
    Slice(data, 0, b, 54, 56);
    Slice(data, 0, b, 56, 58);
    assert data[4] == b[4] && data[5] == b[5] && data[..4] == data[0..4];
    FieldIs(data, 16, 2, 2);
    FieldIs(data, 18, 2, 62);
    FieldIs(data, 24, 8, e.entry);
    FieldIs(data, 32, 8, e.phoff);
    FieldIs(data, 54, 2, e.phentsize);
    FieldIs(data, 56, 2, e.phnum);
  }

  lemma PhdrReadsBack(data: seq<Byte>, i: nat, h: Phdr)
    requires PhdrFits(h) && HeaderAt(data, i) + 56 <= |data| && data[HeaderAt(data, i)..HeaderAt(data, i) + 56] == PhdrBytes(h)
    ensures HeaderType(data, i) == h.kind
    ensures SegmentAt(data, i) == Segment(vaddr := h.vaddr, offset := h.offset, filesz := h.filesz, memsz := h.memsz, flags := h.flags)
  {
    hide LE, Field, PhdrBytes, Pow2, HeaderAt;
    Widths();
    PhdrParts(h);
    var at, b := HeaderAt(data, i), PhdrBytes(h);
    Slice(data, at, b, 0, 4);
    Slice(data, at, b, 4, 8);
    Slice(data, at, b, 8, 16);
    Slice(data, at, b, 16, 24);
    Slice(data, at, b, 32, 40);
    Slice(data, at, b, 40, 48);
    FieldIs(data, at, 4, h.kind);
    FieldIs(data, at + 4, 4, h.flags);
    FieldIs(data, at + 8, 8, h.offset);
    FieldIs(data, at + 16, 8, h.vaddr);
    FieldIs(data, at + 32, 8, h.filesz);
    FieldIs(data, at + 40, 8, h.memsz);
  }

  /** The file says this header and these program headers, wherever its table is. */
  ghost predicate Encodes(data: seq<Byte>, e: Ehdr, hs: seq<Phdr>) {
    && EhdrFits(e) && |data| >= 64 && data[..64] == EhdrBytes(e) && e.phnum == |hs|
    && forall i | 0 <= i < |hs| ::
         && PhdrFits(hs[i]) && e.phoff + i * e.phentsize + 56 <= |data|
         && data[e.phoff + i * e.phentsize..e.phoff + i * e.phentsize + 56] == PhdrBytes(hs[i])
  }

  /**
   * What was written is what the parser reads: entry point, table, and the loadable segments in order.
   * A header is bad only for a loadable segment that runs past the end of the file.
   */
  lemma FileReadsBack(data: seq<Byte>, e: Ehdr, hs: seq<Phdr>)
    requires Encodes(data, e, hs)
    ensures HeaderError(data) == None && Field(data, 24, 8) == e.entry && TableCount(data) == |hs|
    ensures TableOffset(data) == e.phoff && Field(data, 54, 2) == e.phentsize
    ensures Loads(data, |hs|) == LoadsOf(hs)
    ensures forall i | 0 <= i < |hs| :: HeaderOk(data, i) <==> (hs[i].kind == 1 ==> hs[i].offset + hs[i].filesz <= |data|)
  {
    hide Field, EhdrBytes, PhdrBytes, HeaderError;
    EhdrReadsBack(data, e);
    LoadsReadBack(data, e, hs, |hs|);
    assert hs[..|hs|] == hs;
    forall i | 0 <= i < |hs|
      ensures HeaderOk(data, i) <==> (hs[i].kind == 1 ==> hs[i].offset + hs[i].filesz <= |data|)
    {
      PhdrReadsBack(data, i, hs[i]);
    }
  }

  /** Without PT_PHDR the table is found through the first segment whose file bytes cover it, and is 0 if none does. */
  lemma {:induction false} TableInSegmentsIs(segments: seq<Segment>, offset: nat)
    ensures forall i | 0 <= i < |segments| && segments[i].offset <= offset < segments[i].offset + segments[i].filesz
                       && (forall j | 0 <= j < i :: offset < segments[j].offset || segments[j].offset + segments[j].filesz <= offset) ::
              TableInSegments(segments, offset) - segments[i].vaddr == offset - segments[i].offset
    ensures (forall s <- segments :: offset < s.offset || s.offset + s.filesz <= offset) ==> TableInSegments(segments, offset) == 0
  {
    if segments != [] {
      var rest := segments[1..];
      TableInSegmentsIs(rest, offset);
      forall i | 0 < i < |segments|
        ensures segments[i] == rest[i - 1]
      {
      }
    }
  }

  /** The table address comes from the last PT_PHDR header, if there is one. */
  lemma {:induction false} TableHeaderIs(data: seq<Byte>, n: nat)
    ensures TableHeader(data, n).None? <==> forall i | 0 <= i < n :: HeaderType(data, i) != 6
    ensures forall i | 0 <= i < n && HeaderType(data, i) == 6 && (forall j | i < j < n :: HeaderType(data, j) != 6) ::
              TableHeader(data, n) == Some(SegmentAt(data, i).vaddr)
    decreases n
  {
    hide HeaderType, SegmentAt;
    if n > 0 { TableHeaderIs(data, n - 1); }
  }

  /** Each header error names the first thing that is wrong: size, magic, class, byte order, type, machine. */
  lemma HeaderErrors(data: seq<Byte>)
    ensures HeaderError(data) == Some(TooSmall) <==> |data| < 64
    ensures |data| >= 64 ==>
              var magic := data[0] == 0x7F && data[1] == 0x45 && data[2] == 0x4C && data[3] == 0x46;
              && (HeaderError(data) == Some(BadMagic) <==> !magic)
              && (HeaderError(data) == Some(Not64Bit) <==> magic && data[4] != 2)
              && (HeaderError(data) == Some(NotLittleEndian) <==> magic && data[4] == 2 && data[5] != 1)
              && (HeaderError(data) == Some(NotExec) <==> magic && data[4] == 2 && data[5] == 1 && Field(data, 16, 2) != 2)
              && (HeaderError(data) == Some(NotX86_64) <==>
                    magic && data[4] == 2 && data[5] == 1 && Field(data, 16, 2) == 2 && Field(data, 18, 2) != 62)
              && HeaderError(data) != Some(BadPhdr)
  {
    hide Field;
    if |data| >= 64 {
      var m := data[..4];
      assert m == [data[0], data[1], data[2], data[3]];
      assert m == [0x7F, 0x45, 0x4C, 0x46] <==> m[0] == 0x7F && m[1] == 0x45 && m[2] == 0x4C && m[3] == 0x46;
    }
  }

  lemma {:induction false} LoadsReadBack(data: seq<Byte>, e: Ehdr, hs: seq<Phdr>, n: nat)
    requires Encodes(data, e, hs) && n <= |hs| && TableOffset(data) == e.phoff && Field(data, 54, 2) == e.phentsize
    ensures Loads(data, n) == LoadsOf(hs[..n])
    decreases n
  {
    hide Field, EhdrBytes, PhdrBytes, TableOffset, SegmentAt, HeaderType;
    if n > 0 {
      LoadsReadBack(data, e, hs, n - 1);
      assert hs[..n][..n - 1] == hs[..n - 1];
      PhdrReadsBack(data, n - 1, hs[n - 1]);
    }
  }

  // ---- the parser ----

  /** The fallback when no header gives the table's address. */
  method FindTable(segments: seq<Segment>, offset: nat) returns (address: nat)
    ensures address == TableInSegments(segments, offset)
  {
    for i := 0 to |segments|
      invariant TableInSegments(segments, offset) == TableInSegments(segments[i..], offset)
    {
      assert segments[i..][1..] == segments[i + 1..];
      if offset >= segments[i].offset && offset < segments[i].offset + segments[i].filesz {
        return segments[i].vaddr + (offset - segments[i].offset);
      }
    }
    address := 0;
  }

  method CheckHeader(data: seq<Byte>) returns (error: Option<ElfError>)
    ensures error == HeaderError(data)
  {
    hide Field;
    if |data| < EHDR_SIZE {
      return Some(TooSmall);
    }
    if data[0..4] != [0x7F, 0x45, 0x4C, 0x46] {
      return Some(BadMagic);
    }
    if data[4] != ELFCLASS64 {
      return Some(Not64Bit);
    }
    if data[5] != ELFDATA2LSB {
      return Some(NotLittleEndian);
    }
    if Field(data, 16, 2) != ET_EXEC {
      return Some(NotExec);
    }
    if Field(data, 18, 2) != EM_X86_64 {
      return Some(NotX86_64);
    }
    error := None;
  }

  method Parse(data: seq<Byte>) returns (r: Parsed)
    requires |data| < U64
    ensures match r
            case Accepted(info) =>
              && HeaderError(data) == None
              && (forall i | 0 <= i < TableCount(data) :: HeaderOk(data, i))
              && info.entry == Field(data, 24, 8) && info.phnum == TableCount(data) && info.phentsize == Field(data, 54, 2)
              && info.segments == Loads(data, TableCount(data))
              && (forall s <- info.segments :: InFile(data, s))
              && info.phdr == TableAddress(data) < U64
              && info.entry < U64 && info.phnum < 0x1_0000 && info.phentsize < 0x1_0000
            case Rejected(e) =>
              || HeaderError(data) == Some(e)
              || (&& HeaderError(data) == None && e == BadPhdr
                  && exists i :: FirstBad(data, i) && HeaderAt(data, i) + PHDR_SIZE < U64)
            case Panics =>
              && HeaderError(data) == None
              && (|| (exists i :: FirstBad(data, i) && HeaderAt(data, i) + PHDR_SIZE >= U64)
                  || ((forall i | 0 <= i < TableCount(data) :: HeaderOk(data, i)) && TableAddress(data) >= U64))
  {
    hide Field, HeaderError, Loads, TableHeader, TableInSegments;
    var error := CheckHeader(data);
    if error.Some? {
      return Rejected(error.value);
    }
    var phoff, phentsize, phnum := Field(data, 32, 8), Field(data, 54, 2), Field(data, 56, 2);
    var segments: seq<Segment> := [];
    var table: Option<nat> := None;
    NoHeaders(data);
    for i := 0 to phnum
      invariant forall j | 0 <= j < i :: HeaderOk(data, j)
      invariant segments == Loads(data, i) && table == TableHeader(data, i)
    {
      var off := phoff + i * phentsize;
      if off + PHDR_SIZE >= U64 {
        assert FirstBad(data, i);
        return Panics;
      }
      if off + PHDR_SIZE > |data| {
        assert FirstBad(data, i);
        return Rejected(BadPhdr);
      }
      NextHeader(data, i);
      var kind := Field(data, off, 4);
      if kind == PT_PHDR {
        table := Some(Field(data, off + 16, 8));
      }
      if kind != PT_LOAD {
        continue;
      }
      var end := Field(data, off + 8, 8) + Field(data, off + 32, 8);
      if end >= U64 || end > |data| {
        assert FirstBad(data, i);
        return Rejected(BadPhdr);
      }
      segments := segments + [Segment(Field(data, off + 16, 8), Field(data, off + 8, 8), Field(data, off + 32, 8),
                                      Field(data, off + 40, 8), Field(data, off + 4, 4))];
    }
    LoadsInFile(data, phnum);
    var phdr: nat;
    if table.Some? {
      phdr := table.value;
    } else {
      phdr := FindTable(segments, phoff);
    }
    if phdr >= U64 {
      return Panics;
    }
    FieldsFit(data);
    r := Accepted(ElfInfo(Field(data, 24, 8), segments, phdr, phnum, phentsize));
  }

  lemma FieldsFit(data: seq<Byte>)
    ensures Field(data, 24, 8) < U64 && Field(data, 54, 2) < 0x1_0000 && Field(data, 56, 2) < 0x1_0000
  {
    Pow2Values();
    Pow2Small();
    Pow2Add(8, 8);
    hide FromLE, Pow2;
    if |data| >= EHDR_SIZE {
      FromLEBound(data[24..32]);
      FromLEBound(data[54..56]);
      FromLEBound(data[56..58]);
    } else {
      if 32 <= |data| { FromLEBound(data[24..32]); }
      if 56 <= |data| { FromLEBound(data[54..56]); }
      if 58 <= |data| { FromLEBound(data[56..58]); }
    }
  }

  lemma NoHeaders(data: seq<Byte>)
    ensures Loads(data, 0) == [] && TableHeader(data, 0) == None
  {
  }

  lemma NextHeader(data: seq<Byte>, i: nat)
    ensures Loads(data, i + 1) ==
            Loads(data, i) + (if HeaderType(data, i) == PT_LOAD then [SegmentAt(data, i)] else [])
    ensures TableHeader(data, i + 1) ==
            if HeaderType(data, i) == PT_PHDR then Some(SegmentAt(data, i).vaddr) else TableHeader(data, i)
  {
  }

  // ---- the loaded image ----

  const ELF_STACK_VIRT: nat := 0x7FFF_F000_0000
  const ELF_STACK_PAGES: nat := 8

  /** User memory as the new page table maps it: page address to page contents. */
  type Image = map<nat, seq<Byte>>

  datatype Loaded = Loaded(image: Image) | LoadPanics

  /** The sums the loader forms fit in 64 bits. */
  predicate Fits64(s: Segment) {
    s.vaddr + s.memsz + PAGE_MASK < U64
  }

  function PageStart(s: Segment): nat {
    AlignDown(s.vaddr)
  }

  function PageEnd(s: Segment): nat
    requires Fits64(s)
  {
    AlignUp(s.vaddr + s.memsz)
  }

  /** `page` is one of the pages the segment needs. */
  predicate InPages(s: Segment, page: nat)
    requires Fits64(s)
  {
    page % PAGE_SIZE == 0 && PageStart(s) <= page < PageEnd(s)
  }

  lemma PageRange(s: Segment)
    requires Fits64(s)
    ensures PageStart(s) % PAGE_SIZE == 0 && PageStart(s) <= s.vaddr < PageStart(s) + PAGE_SIZE
    ensures PageEnd(s) % PAGE_SIZE == 0 && s.vaddr + s.memsz <= PageEnd(s) < s.vaddr + s.memsz + PAGE_SIZE
    ensures PageStart(s) <= PageEnd(s)
  {
    hide AlignUp, AlignDown;
    AlignDownIs(s.vaddr);
    AlignUpIs(s.vaddr + s.memsz);
  }

  /** What the gABI asks for at address `a` of a page that belongs to the segment. */
  function SegmentByte(data: seq<Byte>, s: Segment, a: nat): Byte
    requires InFile(data, s)
  {
    if s.vaddr <= a < s.vaddr + s.filesz then data[s.offset + (a - s.vaddr)] else 0
  }

  function PageContent(data: seq<Byte>, s: Segment, page: nat): (r: seq<Byte>)
    requires InFile(data, s)
    ensures |r| == PAGE_SIZE
    ensures forall j | 0 <= j < PAGE_SIZE :: r[j] == SegmentByte(data, s, page + j)
  {
    seq<Byte>(PAGE_SIZE, j requires 0 <= j => SegmentByte(data, s, page + j))
  }

  function WithPage(m: Image, page: nat, bytes: seq<Byte>): Image {
    m[page := bytes]
  }

  /** `m` with the segment's pages added. */
  ghost predicate Added(m: Image, data: seq<Byte>, s: Segment, m': Image)
    requires Fits64(s) && InFile(data, s)
  {
    && (forall k: nat :: k in m' <==> k in m || InPages(s, k))
    && (forall k | k in m :: m'[k] == m[k])
    && (forall k: nat | InPages(s, k) :: m'[k] == PageContent(data, s, k))
  }

  /** One page: cleared, then the part of the file that falls into it copied in. */
  method FillPage(data: seq<Byte>, s: Segment, page: nat) returns (bytes: seq<Byte>)
    requires InFile(data, s) && s.vaddr < page + PAGE_SIZE
    ensures bytes == PageContent(data, s, page)
  {
    var cleared: seq<Byte> := seq(PAGE_SIZE, j => 0);
    var copyStart := if page < s.vaddr then s.vaddr - page else 0;
    var segOffset := if page >= s.vaddr then page - s.vaddr else 0;
    bytes := cleared;
    if segOffset < s.filesz {
      var avail := s.filesz - segOffset;
      var room := PAGE_SIZE - copyStart;
      var count := if avail < room then avail else room;
      var src := data[s.offset + segOffset..][..count];
      bytes := cleared[..copyStart] + src + cleared[copyStart + count..];
    }
    assert bytes == PageContent(data, s, page);
  }

  lemma PageCount(s: Segment)
    requires Fits64(s)
    ensures PageStart(s) + (PageEnd(s) - PageStart(s)) / PAGE_SIZE * PAGE_SIZE == PageEnd(s)
    ensures PageStart(s) <= PageEnd(s)
  {
    PageRange(s);
    hide PageStart, PageEnd;
    AlignedBetween(PageStart(s), PageEnd(s));
    WholeQuotient(PageEnd(s) - PageStart(s));
  }

  lemma WholeQuotient(x: nat)
    requires x % PAGE_SIZE == 0
    ensures x / PAGE_SIZE * PAGE_SIZE == x
  {
  }

  /** The pages below the `p`-th have been added. */
  ghost predicate AddedBelow(m: Image, data: seq<Byte>, s: Segment, limit: nat, m': Image)
    requires Fits64(s) && InFile(data, s)
  {
    && (forall k: nat :: k in m' <==> k in m || (InPages(s, k) && k < limit))
    && (forall k | k in m :: m'[k] == m[k])
    && (forall k: nat | InPages(s, k) && k < limit :: k !in m && m'[k] == PageContent(data, s, k))
  }

  lemma AddedStart(m: Image, data: seq<Byte>, s: Segment)
    requires Fits64(s) && InFile(data, s)
    ensures AddedBelow(m, data, s, PageStart(s), m)
  {
    hide PageStart, PageEnd, PageContent;
  }

  lemma AddedNext(m: Image, data: seq<Byte>, s: Segment, page: nat, m': Image)
    requires Fits64(s) && InFile(data, s) && AddedBelow(m, data, s, page, m') && InPages(s, page) && page !in m
    ensures AddedBelow(m, data, s, page + PAGE_SIZE, WithPage(m', page, PageContent(data, s, page)))
  {
    hide PageStart, PageEnd, PageContent;
    forall k: nat | InPages(s, k) && k < page + PAGE_SIZE
      ensures k <= page
    {
      NoPageBetween(page, k);
    }
  }

  lemma NoPageBetween(a: nat, b: nat)
    requires a % PAGE_SIZE == 0 && b % PAGE_SIZE == 0 && b < a + PAGE_SIZE
    ensures b <= a
  {
  }

  lemma AddedDone(m: Image, data: seq<Byte>, s: Segment, m': Image)
    requires Fits64(s) && InFile(data, s) && AddedBelow(m, data, s, PageEnd(s), m')
    ensures Added(m, data, s, m')
  {
    hide PageStart, PageEnd, PageContent;
  }

  /** Map one segment; mapping a page that is already mapped stops the kernel. */
  method LoadSegment(m: Image, data: seq<Byte>, s: Segment) returns (r: Loaded)
    requires Fits64(s) && InFile(data, s)
    ensures r.LoadPanics? <==> exists k: nat :: InPages(s, k) && k in m
    ensures r.Loaded? ==> Added(m, data, s, r.image)
  {
    PageRange(s);
    PageCount(s);
    hide PageStart, PageEnd, PageContent, Added, AddedBelow;
    var start, end := PageStart(s), PageEnd(s);
    var image: Image := m;
    AddedStart(m, data, s);
    for p := 0 to (end - start) / PAGE_SIZE
      invariant AddedBelow(m, data, s, start + p * PAGE_SIZE, image)
    {
      var page := start + p * PAGE_SIZE;
      PageInRange(start, end, p);
      AddedFacts(m, data, s, page, image);
      var bytes := FillPage(data, s, page);
      if page in image {
        return LoadPanics;
      }
      AddedNext(m, data, s, page, image);
      image := WithPage(image, page, bytes);
    }
    AddedDone(m, data, s, image);
    AddedFresh(m, data, s, image);
    r := Loaded(image);
  }

  lemma PageInRange(start: nat, end: nat, p: nat)
    requires start % PAGE_SIZE == 0 && start <= end && p < (end - start) / PAGE_SIZE
    ensures (start + p * PAGE_SIZE) % PAGE_SIZE == 0 && start <= start + p * PAGE_SIZE < end
  {
  }

  lemma AddedFacts(m: Image, data: seq<Byte>, s: Segment, page: nat, m': Image)
    requires Fits64(s) && InFile(data, s) && AddedBelow(m, data, s, page, m')
    ensures page in m' <==> page in m
  {
    hide PageStart, PageEnd, PageContent;
  }

  lemma AddedFresh(m: Image, data: seq<Byte>, s: Segment, m': Image)
    requires Fits64(s) && InFile(data, s) && AddedBelow(m, data, s, PageEnd(s), m')
    ensures !exists k: nat :: InPages(s, k) && k in m
  {
    hide PageStart, PageEnd, PageContent;
  }

  /** The user stack, as a segment without file contents. */
  function StackSegment(): Segment {
    Segment(ELF_STACK_VIRT, 0, 0, ELF_STACK_PAGES * PAGE_SIZE, 0)
  }

  /** The image holds exactly the pages of the first `n` segments, each as its segment wants it. */
  ghost predicate Holding(m: Image, data: seq<Byte>, all: seq<Segment>)
    requires forall s <- all :: Fits64(s) && InFile(data, s)
  {
    && (forall k | k in m :: exists i :: 0 <= i < |all| && InPages(all[i], k))
    && (forall i, k: nat | 0 <= i < |all| && InPages(all[i], k) :: k in m && m[k] == PageContent(data, all[i], k))
  }

  /** No two segments need the same page. */
  ghost predicate NoSharedPage(all: seq<Segment>)
    requires forall s <- all :: Fits64(s)
  {
    forall i, j, k: nat | 0 <= i < j < |all| && InPages(all[i], k) :: !InPages(all[j], k)
  }

  lemma HoldingNext(m: Image, data: seq<Byte>, all: seq<Segment>, s: Segment, m': Image)
    requires forall t <- all + [s] :: Fits64(t) && InFile(data, t)
    requires (forall t <- all :: t in all + [s]) && s in all + [s] && Holding(m, data, all) && NoSharedPage(all)
    requires Added(m, data, s, m') && !exists k: nat :: InPages(s, k) && k in m
    ensures Holding(m', data, all + [s]) && NoSharedPage(all + [s])
  {
    hide InPages, PageContent;
    var next := all + [s];
    forall k | k in m'
      ensures exists i :: 0 <= i < |next| && InPages(next[i], k)
    {
      if k in m {
        var i :| 0 <= i < |all| && InPages(all[i], k);
        assert InPages(next[i], k);
      } else {
        assert InPages(next[|all|], k);
      }
    }
    forall i, k: nat | 0 <= i < |next| && InPages(next[i], k)
      ensures k in m' && m'[k] == PageContent(data, next[i], k)
    {
      if i < |all| { assert InPages(all[i], k); }
    }
    forall i, j, k: nat | 0 <= i < j < |next| && InPages(next[i], k)
      ensures !InPages(next[j], k)
    {
      assert InPages(all[i], k);
    }
  }

  lemma SharedWitness(m: Image, data: seq<Byte>, all: seq<Segment>, s: Segment)
    requires forall t <- all + [s] :: Fits64(t) && InFile(data, t)
    requires (forall t <- all :: t in all + [s]) && s in all + [s] && Holding(m, data, all)
    requires exists k: nat :: InPages(s, k) && k in m
    ensures !NoSharedPage(all + [s])
  {
    hide InPages, PageContent;
    var k :| InPages(s, k) && k in m;
    var i :| 0 <= i < |all| && InPages(all[i], k);
    assert InPages((all + [s])[i], k) && InPages((all + [s])[|all|], k);
  }

  lemma SharedGrows(all: seq<Segment>, n: nat)
    requires (forall s <- all :: Fits64(s)) && n <= |all| && forall s <- all[..n] :: s in all
    ensures NoSharedPage(all) ==> NoSharedPage(all[..n])
  {
    hide InPages;
    if NoSharedPage(all) {
      forall i, j, k: nat | 0 <= i < j < n && InPages(all[..n][i], k)
        ensures !InPages(all[..n][j], k)
      {
        assert InPages(all[i], k);
      }
    }
  }

  /** The stack's pages, zeroed; they are mapped like those of a segment. */
  method MapStack(m: Image, data: seq<Byte>) returns (r: Loaded)
    ensures Fits64(StackSegment()) && InFile(data, StackSegment())
    ensures r.LoadPanics? <==> exists k: nat :: InPages(StackSegment(), k) && k in m
    ensures r.Loaded? ==> Added(m, data, StackSegment(), r.image)
  {
    r := LoadSegment(m, data, StackSegment());
  }

  /**
   * The whole loader.  It succeeds exactly when no two segments share a page, with each other or
   * with the stack, and then memory holds those pages and no others.
   */
  method LoadElf(data: seq<Byte>, segments: seq<Segment>) returns (r: Loaded)
    requires forall s <- segments :: InFile(data, s)
    ensures (exists s <- segments :: !Fits64(s)) ==> r.LoadPanics?
    ensures (forall s <- segments :: Fits64(s)) ==>
              && (forall s <- segments + [StackSegment()] :: Fits64(s) && InFile(data, s))
              && (r.Loaded? <==> NoSharedPage(segments + [StackSegment()]))
              && (r.Loaded? ==> Holding(r.image, data, segments + [StackSegment()]))
  {
    hide InPages, PageContent, Added, Holding, NoSharedPage;
    StackFits(data);
    var all := segments + [StackSegment()];
    var image: Image := map[];
    NothingHeld(data);
    for i := 0 to |segments|
      invariant forall s <- segments[..i] :: Fits64(s) && InFile(data, s)
      invariant Holding(image, data, segments[..i]) && NoSharedPage(segments[..i])
    {
      var s := segments[i];
      assert segments[..i + 1] == segments[..i] + [s] && s in segments;
      if s.vaddr + s.memsz + PAGE_MASK >= U64 {
        return LoadPanics;
      }
      var next := LoadSegment(image, data, s);
      if next.LoadPanics? {
        SharedWitness(image, data, segments[..i], s);
        if forall t <- segments :: Fits64(t) {
          assert all[..i + 1] == segments[..i + 1] && forall t <- all :: Fits64(t);
          SharedGrows(all, i + 1);
        }
        return LoadPanics;
      }
      HoldingNext(image, data, segments[..i], s, next.image);
      image := next.image;
    }
    assert segments[..|segments|] == segments;
    r := MapStack(image, data);
    if r.LoadPanics? {
      SharedWitness(image, data, segments, StackSegment());
    } else {
      HoldingNext(image, data, segments, StackSegment(), r.image);
    }
  }

  lemma StackFits(data: seq<Byte>)
    ensures Fits64(StackSegment()) && InFile(data, StackSegment())
  {
  }

  lemma NothingHeld(data: seq<Byte>)
    ensures Holding(map[], data, []) && NoSharedPage([])
  {
  }

  /** The byte the image holds at an address of a mapped page. */
  function ByteAt(m: Image, a: nat): Option<Byte> {
    var page: nat := a - a % PAGE_SIZE;
    if page in m && a % PAGE_SIZE < |m[page]| then Some(m[page][a % PAGE_SIZE]) else None
  }

  /** Every byte of every segment is where it should be: from the file, or zero past the file's part. */
  lemma SegmentIsLoaded(m: Image, data: seq<Byte>, all: seq<Segment>, i: nat, k: nat)
    requires (forall s <- all :: Fits64(s) && InFile(data, s)) && Holding(m, data, all)
    requires i < |all| && all[i] in all && k < all[i].memsz
    ensures ByteAt(m, all[i].vaddr + k) ==
            Some(if k < all[i].filesz then data[all[i].offset + k] else 0)
  {
    var s := all[i];
    var a := s.vaddr + k;
    var page: nat := a - a % PAGE_SIZE;
    PageRange(s);
    PageOfAddress(a, PageStart(s), PageEnd(s));
    hide PageStart, PageEnd;
    assert InPages(s, page);
    assert m[page] == PageContent(data, s, page);
    assert m[page][a % PAGE_SIZE] == SegmentByte(data, s, page + a % PAGE_SIZE);
  }

  lemma PageOfAddress(a: nat, start: nat, end: nat)
    requires start % PAGE_SIZE == 0 && end % PAGE_SIZE == 0 && start <= a < end
    ensures (a - a % PAGE_SIZE) % PAGE_SIZE == 0 && start <= a - a % PAGE_SIZE < end
  {
  }

  /** The segment holds the header table, at the address the parser reports. */
  predicate TablePlaced(data: seq<Byte>, s: Segment) {
    Holds(s, TableOffset(data)) && TableAddress(data) == s.vaddr + (TableOffset(data) - s.offset)
  }

  /**
   * Wherever the reported table address agrees with a loaded segment that holds the table, the
   * loaded header table is there, as far as the segment's file part goes.
   */
  lemma TableIsLoaded(m: Image, data: seq<Byte>, all: seq<Segment>, s: Segment, k: nat)
    requires (forall t <- all :: Fits64(t) && InFile(data, t)) && Holding(m, data, all)
    requires s in all && TablePlaced(data, s) && s.filesz <= s.memsz && TableOffset(data) + k < s.offset + s.filesz
    ensures TableOffset(data) + k < |data| && ByteAt(m, TableAddress(data) + k) == Some(data[TableOffset(data) + k])
  {
    hide ByteAt, Holding, InPages, TableAddress, TableOffset;
    var i :| 0 <= i < |all| && all[i] == s;
    SegmentIsLoaded(m, data, all, i, TableOffset(data) - s.offset + k);
  }

  /** Without a PT_PHDR header it agrees with the first segment that holds the table; with one, exactly when that header says so. */
  lemma TableIsPlaced(data: seq<Byte>)
    ensures var segments := Loads(data, TableCount(data));
            match TableHeader(data, TableCount(data))
            case None => (exists s <- segments :: Holds(s, TableOffset(data))) ==> exists s <- segments :: TablePlaced(data, s)
            case Some(a) => forall s <- segments ::
              TablePlaced(data, s) <==> Holds(s, TableOffset(data)) && a == s.vaddr + (TableOffset(data) - s.offset)
  {
    hide Loads, TableOffset, TableHeader;
    var segments := Loads(data, TableCount(data));
    if exists s <- segments :: Holds(s, TableOffset(data)) {
      FirstHolds(segments, TableOffset(data));
    }
  }

  lemma {:induction false} FirstHolds(segments: seq<Segment>, offset: nat)
    requires exists s <- segments :: Holds(s, offset)
    ensures exists s <- segments :: Holds(s, offset) && TableInSegments(segments, offset) == s.vaddr + (offset - s.offset)
  {
    if Holds(segments[0], offset) {
      assert segments[0] in segments;
    } else {
      var t :| t in segments && Holds(t, offset);
      assert t in segments[1..];
      FirstHolds(segments[1..], offset);
      var s :| s in segments[1..] && Holds(s, offset) && TableInSegments(segments[1..], offset) == s.vaddr + (offset - s.offset);
      assert s in segments;
    }
  }

  // ---- the program break ----

  /** The break starts at the least page boundary at or above the end of every segment. */
  method ComputeBrkBase(segments: seq<Segment>) returns (brk: nat)
    requires forall s <- segments :: Fits64(s)
    ensures brk % PAGE_SIZE == 0 && forall s <- segments :: s.vaddr + s.memsz <= brk
    ensures forall b: nat | b % PAGE_SIZE == 0 && (forall s <- segments :: s.vaddr + s.memsz <= b) :: brk <= b
  {
    var maxEnd := 0;
    for i := 0 to |segments|
      invariant maxEnd + PAGE_MASK < U64
      invariant forall j | 0 <= j < i :: segments[j].vaddr + segments[j].memsz <= maxEnd
      invariant maxEnd == 0 || exists j :: 0 <= j < i && segments[j].vaddr + segments[j].memsz == maxEnd
    {
      var s := segments[i];
      assert s in segments;
      if s.vaddr + s.memsz > maxEnd {
        maxEnd := s.vaddr + s.memsz;
      }
    }
    AlignUpIs(maxEnd);
    brk := AlignUp(maxEnd);
    hide AlignUp;
    forall b: nat | b % PAGE_SIZE == 0 && (forall s <- segments :: s.vaddr + s.memsz <= b)
      ensures brk <= b
    {
      if maxEnd > 0 {
        var j :| 0 <= j < |segments| && segments[j].vaddr + segments[j].memsz == maxEnd;
        assert segments[j] in segments;
      }
      NoPageBetween(b, brk);
    }
  }

}
