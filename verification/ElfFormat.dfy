/** The bytes of ELF headers, written field by field in the order of the System V gABI, and
    what the loader's reading of them gives. */
module ElfFormat {
  import opened Bytes
  import opened Elf

  /** A little-endian field of `size` bytes. */
  datatype Field = Field(value: nat, size: nat)

  ghost predicate FieldsOk(fs: seq<Field>) {
    forall i :: 0 <= i < |fs| ==> fs[i].value < Pow256(fs[i].size)
  }

  function Width(fs: seq<Field>): nat {
    if fs == [] then 0 else fs[0].size + Width(fs[1..])
  }

  function Encode(fs: seq<Field>): (r: seq<byte>)
    ensures |r| == Width(fs)
  {
    if fs == [] then [] else LeBytes(fs[0].value, fs[0].size) + Encode(fs[1..])
  }

  /** Every field reads back, at the sum of the sizes of those before it. */
  lemma {:induction false} FieldReadsBack(f: seq<byte>, at: nat, fs: seq<Field>, i: nat)
    requires FieldsOk(fs) && at + Width(fs) <= |f| && f[at..at + Width(fs)] == Encode(fs) && i < |fs|
    ensures Width(fs[..i]) + fs[i].size <= Width(fs)
    ensures Le(f, at + Width(fs[..i]), fs[i].size) == fs[i].value
    decreases i
  {
    hide Le, LeBytes, Pow256;
    var n := fs[0].size;
    assert f[at..at + Width(fs)][..n] == f[at..at + n] && f[at..at + Width(fs)][n..] == f[at + n..at + Width(fs)];
    if i == 0 {
      LeRoundTrip(f, at, fs[0].value, n);
    } else {
      FieldReadsBack(f, at + n, fs[1..], i - 1);
      assert fs[..i][1..] == fs[1..][..i - 1];
    }
  }

  lemma {:induction false} WidthAppend(fs: seq<Field>, x: Field)
    ensures Width(fs + [x]) == Width(fs) + x.size
  {
    if fs != [] {
      assert (fs + [x])[1..] == fs[1..] + [x];
      WidthAppend(fs[1..], x);
    }
  }

  lemma WidthNone(fs: seq<Field>)
    ensures Width(fs[..0]) == 0
  {
  }

  lemma WidthStep(fs: seq<Field>, i: nat)
    requires i < |fs|
    ensures Width(fs[..i + 1]) == Width(fs[..i]) + fs[i].size
  {
    assert fs[..i + 1] == fs[..i] + [fs[i]];
    WidthAppend(fs[..i], fs[i]);
  }

  // ---- program headers ----

  datatype ProgHdr = ProgHdr(kind: nat, flags: nat, offset: nat, vaddr: nat, paddr: nat, filesz: nat, memsz: nat, align: nat)

  function ProgFields(h: ProgHdr): seq<Field> {
    [Field(h.kind, 4), Field(h.flags, 4), Field(h.offset, 8), Field(h.vaddr, 8), Field(h.paddr, 8),
     Field(h.filesz, 8), Field(h.memsz, 8), Field(h.align, 8)]
  }

  lemma ProgOffsets(h: ProgHdr)
    ensures
      var fs := ProgFields(h);
      && Width(fs) == 56 && Width(fs[..0]) == 0 && Width(fs[..1]) == 4 && Width(fs[..2]) == 8
      && Width(fs[..3]) == 16 && Width(fs[..5]) == 32 && Width(fs[..6]) == 40
  {
    hide Width;
    var fs := ProgFields(h);
    WidthNone(fs);
    WidthStep(fs, 0);
    WidthStep(fs, 1);
    WidthStep(fs, 2);
    WidthStep(fs, 3);
    WidthStep(fs, 4);
    WidthStep(fs, 5);
    WidthStep(fs, 6);
    WidthStep(fs, 7);
    assert fs[..8] == fs;
  }

  /** Any file that holds the 56 bytes of a program header at its place in the table has that
      header there for the loader. */
  lemma ProgHdrReadsBack(f: File, i: nat, h: ProgHdr)
    requires |f| >= EHDR_SIZE && PhOff(f) + 56 * i + 56 <= |f| && FieldsOk(ProgFields(h))
    requires
      var at := PhOff(f) + 56 * i;
      f[at..at + 56] == Encode(ProgFields(h))
    ensures PhOff(f) + PHDR_SIZE * (i + 1) <= |f|
    ensures PhdrAt(f, i) == Phdr(h.kind, h.flags, h.offset, h.vaddr, h.filesz, h.memsz)
  {
    hide Le, Encode, Width, PhOff, FieldsOk;
    var at, fs := PhOff(f) + 56 * i, ProgFields(h);
    ProgOffsets(h);
    FieldReadsBack(f, at, fs, 0);
    FieldReadsBack(f, at, fs, 1);
    FieldReadsBack(f, at, fs, 2);
    FieldReadsBack(f, at, fs, 3);
    FieldReadsBack(f, at, fs, 5);
    FieldReadsBack(f, at, fs, 6);
  }

  // ---- the file header ----

  datatype FileHdr = FileHdr(
    ident: seq<byte>, kind: nat, machine: nat, version: nat, entry: nat, phoff: nat, shoff: nat, flags: nat,
    ehsize: nat, phentsize: nat, phnum: nat, shentsize: nat, shnum: nat, shstrndx: nat)

  function FileFields(h: FileHdr): seq<Field> {
    [Field(h.kind, 2), Field(h.machine, 2), Field(h.version, 4), Field(h.entry, 8), Field(h.phoff, 8),
     Field(h.shoff, 8), Field(h.flags, 4), Field(h.ehsize, 2), Field(h.phentsize, 2), Field(h.phnum, 2),
     Field(h.shentsize, 2), Field(h.shnum, 2), Field(h.shstrndx, 2)]
  }

  lemma FileOffsets(h: FileHdr)
    ensures
      var fs := FileFields(h);
      && Width(fs) == 48 && Width(fs[..0]) == 0 && Width(fs[..3]) == 8 && Width(fs[..4]) == 16 && Width(fs[..9]) == 40
  {
    hide Width;
    var fs := FileFields(h);
    WidthNone(fs);
    WidthStep(fs, 0);
    WidthStep(fs, 1);
    WidthStep(fs, 2);
    WidthStep(fs, 3);
    WidthStep(fs, 4);
    WidthStep(fs, 5);
    WidthStep(fs, 6);
    WidthStep(fs, 7);
    WidthStep(fs, 8);
    WidthStep(fs, 9);
    WidthStep(fs, 10);
    WidthStep(fs, 11);
    WidthStep(fs, 12);
    assert fs[..13] == fs;
  }

  /** The 16 bytes of the identification and the fields after them. */
  ghost predicate StartsWith(f: File, h: FileHdr) {
    |f| >= 64 && |h.ident| == 16 && f[..16] == h.ident && f[16..64] == Encode(FileFields(h)) && FieldsOk(FileFields(h))
  }

  /** The loader takes exactly the files that say they are ELF, of 64-bit class, little-endian,
      version 1 and executable, and finds entry and program headers where the header says. */
  lemma FileHdrReadsBack(f: File, h: FileHdr)
    requires StartsWith(f, h)
    ensures GoodIdent(f) <==> h.ident[..4] == [0x7F, 0x45, 0x4C, 0x46]
    ensures GoodCompat(f) <==> h.ident[4] == 2 && h.ident[5] == 1 && h.ident[6] == 1 && h.kind == 2
    ensures Le(f, 24, 8) == h.entry && PhOff(f) == h.phoff && PhNum(f) == h.phnum
  {
    hide Le, Encode, Width, FieldsOk;
    var fs := FileFields(h);
    FileOffsets(h);
    FieldReadsBack(f, 16, fs, 0);
    FieldReadsBack(f, 16, fs, 3);
    FieldReadsBack(f, 16, fs, 4);
    FieldReadsBack(f, 16, fs, 9);
    assert f[0] == h.ident[0] && f[1] == h.ident[1] && f[2] == h.ident[2] && f[3] == h.ident[3];
    assert f[4] == h.ident[4] && f[5] == h.ident[5] && f[6] == h.ident[6];
  }
}
