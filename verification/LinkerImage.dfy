/** The ELF images emitted for debuggers, and the symbol lookup that readers of such an image perform. */
module LinkerImage {
  import opened Bytes
  import opened Common

  datatype Field = Field(value: int, width: nat)

  /** Where field `k` of a packed structure starts. */
  function Start(fs: seq<Field>, k: nat): nat
    requires k <= |fs|
  {
    if k == 0 then 0 else Start(fs, k - 1) + fs[k - 1].width
  }

  /** The first `k` fields, packed without padding. */
  function Pack(fs: seq<Field>, k: nat): (r: seq<Byte>)
    requires k <= |fs|
    ensures |r| == Start(fs, k)
  {
    if k == 0 then [] else Pack(fs, k - 1) + LittleEndian(fs[k - 1].value, fs[k - 1].width)
  }

  lemma {:induction false} PackedField(fs: seq<Field>, k: nat, n: nat)
    requires k < n <= |fs|
    ensures Start(fs, k) + fs[k].width <= Start(fs, n)
    ensures Pack(fs, n)[Start(fs, k)..Start(fs, k) + fs[k].width] == LittleEndian(fs[k].value, fs[k].width)
  {
    if k < n - 1 {
      PackedField(fs, k, n - 1);
    }
  }

  /** A structure packed at `at` gives back each of its fields. */
  lemma FieldAt(m: seq<Byte>, at: int, fs: seq<Field>, k: nat)
    requires k < |fs| && Fits(m, at, Start(fs, |fs|)) && Slice(m, at, Start(fs, |fs|)) == Pack(fs, |fs|)
    requires 0 <= fs[k].value < Capacity(fs[k].width)
    ensures Word(m, at + Start(fs, k), fs[k].width) == fs[k].value
  {
    PackedField(fs, k, |fs|);
    SliceOfSlice(m, at, Start(fs, |fs|), Start(fs, k), fs[k].width);
    SmallWord(fs[k].value, fs[k].width);
  }

  // ------------------------------------------------------------------ the structures

  const DT_NULL := 0
  const DT_HASH := 4
  const DT_STRTAB := 5
  const DT_SYMTAB := 6
  const DT_STRSZ := 10
  const DT_SYMENT := 11
  const DT_SONAME := 14
  const PT_LOAD := 1
  const PT_DYNAMIC := 2
  const PT_PHDR := 6

  predicate PointerSize(ptr: nat) { ptr == 4 || ptr == 8 }

  function EhdrSize(ptr: nat): nat { if ptr == 8 then 64 else 52 }

  function PhdrSize(ptr: nat): nat { if ptr == 8 then 56 else 32 }

  function SymSize(ptr: nat): nat { if ptr == 8 then 24 else 16 }

  function EhdrFields(ptr: nat, eType: int, entry: int, phoff: int, phent: int, phnum: int): seq<Field> {
    [Field(0x464C457F, 4), Field(if ptr == 8 then 0x10102 else 0x10101, 4), Field(0, 8), Field(eType, 2),
     Field(if ptr == 8 then 183 else 40, 2), Field(1, 4), Field(entry, ptr), Field(phoff, ptr),
     Field(0, ptr), Field(0, 4), Field(EhdrSize(ptr), 2), Field(phent, 2), Field(phnum, 2), Field(0, 2), Field(0, 2),
     Field(0, 2)]
  }

  function PhdrFields(ptr: nat, pType: int, flags: int, offset: int, vaddr: int, size: int): seq<Field> {
    if ptr == 8 then
      [Field(pType, 4), Field(flags, 4), Field(offset, 8), Field(vaddr, 8), Field(vaddr, 8), Field(size, 8),
       Field(size, 8), Field(0x1000, 8)]
    else
      [Field(pType, 4), Field(offset, 4), Field(vaddr, 4), Field(vaddr, 4), Field(size, 4), Field(size, 4),
       Field(flags, 4), Field(0x1000, 4)]
  }

  function SymFields(ptr: nat, name: int, value: int, size: int, info: int, shndx: int): seq<Field> {
    if ptr == 8 then
      [Field(name, 4), Field(info, 1), Field(0, 1), Field(shndx, 2), Field(value, 8), Field(size, 8)]
    else
      [Field(name, 4), Field(value, 4), Field(size, 4), Field(info, 1), Field(0, 1), Field(shndx, 2)]
  }

  function Packed(fs: seq<Field>): seq<Byte> { Pack(fs, |fs|) }

  lemma EhdrStarts(ptr: nat, eType: int, entry: int, phoff: int, phent: int, phnum: int)
    requires PointerSize(ptr)
    ensures var fs := EhdrFields(ptr, eType, entry, phoff, phent, phnum);
      && Start(fs, 0) == 0 && Start(fs, 1) == 4 && Start(fs, 3) == 16 && Start(fs, 4) == 18 && Start(fs, 5) == 20
      && Start(fs, 6) == 24 && Start(fs, 7) == 24 + ptr && Start(fs, 8) == 24 + 2 * ptr
      && Start(fs, 10) == 28 + 3 * ptr && Start(fs, 11) == 30 + 3 * ptr && Start(fs, 12) == 32 + 3 * ptr
      && |Packed(fs)| == EhdrSize(ptr)
  {
    var fs := EhdrFields(ptr, eType, entry, phoff, phent, phnum);
    assert Start(fs, 1) == 4 && Start(fs, 2) == 8 && Start(fs, 3) == 16 && Start(fs, 4) == 18;
    assert Start(fs, 5) == 20 && Start(fs, 6) == 24 && Start(fs, 7) == 24 + ptr && Start(fs, 8) == 24 + 2 * ptr;
    assert Start(fs, 9) == 24 + 3 * ptr && Start(fs, 10) == 28 + 3 * ptr && Start(fs, 11) == 30 + 3 * ptr;
    assert Start(fs, 12) == 32 + 3 * ptr && Start(fs, 13) == 34 + 3 * ptr && Start(fs, 14) == 36 + 3 * ptr;
  }

  lemma PhdrStarts(ptr: nat, pType: int, flags: int, offset: int, vaddr: int, size: int)
    requires PointerSize(ptr)
    ensures var fs := PhdrFields(ptr, pType, flags, offset, vaddr, size);
      && Start(fs, 0) == 0 && Start(fs, 1) == 4 && Start(fs, if ptr == 8 then 2 else 1) == ptr
      && Start(fs, if ptr == 8 then 3 else 2) == 2 * ptr && Start(fs, if ptr == 8 then 4 else 3) == 3 * ptr
      && Start(fs, if ptr == 8 then 5 else 4) == 4 * ptr && Start(fs, if ptr == 8 then 6 else 5) == 5 * ptr
      && Start(fs, 6) == (if ptr == 8 then 40 else 24) && Start(fs, 7) == (if ptr == 8 then 48 else 28)
      && |Packed(fs)| == PhdrSize(ptr)
  {
    var fs := PhdrFields(ptr, pType, flags, offset, vaddr, size);
    assert Start(fs, 1) == 4 && Start(fs, 2) == 8 && Start(fs, 3) == 8 + ptr && Start(fs, 4) == 8 + 2 * ptr;
    assert Start(fs, 5) == 8 + 3 * ptr && Start(fs, 6) == 8 + 4 * ptr && Start(fs, 7) == 8 + 5 * ptr;
  }

  lemma SymStarts(ptr: nat, name: int, value: int, size: int, info: int, shndx: int)
    requires PointerSize(ptr)
    ensures var fs := SymFields(ptr, name, value, size, info, shndx);
      && Start(fs, 0) == 0 && Start(fs, if ptr == 8 then 4 else 1) == ptr
      && Start(fs, if ptr == 8 then 1 else 3) == (if ptr == 8 then 4 else 12)
      && Start(fs, if ptr == 8 then 3 else 5) == (if ptr == 8 then 6 else 14)
      && Start(fs, if ptr == 8 then 5 else 2) == 2 * ptr && |Packed(fs)| == SymSize(ptr)
  {
    var fs := SymFields(ptr, name, value, size, info, shndx);
    assert Start(fs, 1) == 4 && Start(fs, 2) == (if ptr == 8 then 5 else 8);
    assert Start(fs, 3) == (if ptr == 8 then 6 else 12);
    assert Start(fs, 4) == (if ptr == 8 then 8 else 13) && Start(fs, 5) == (if ptr == 8 then 16 else 14);
  }

  lemma EhdrReads(m: seq<Byte>, ptr: nat, eType: int, entry: int, phoff: int, phent: int, phnum: int)
    requires PointerSize(ptr) && Fits(m, 0, EhdrSize(ptr))
    requires Slice(m, 0, EhdrSize(ptr)) == Packed(EhdrFields(ptr, eType, entry, phoff, phent, phnum))
    requires 0 <= phoff < Capacity(ptr) && 0 <= phent < Capacity(2) && 0 <= phnum < Capacity(2)
    requires 0 <= eType < Capacity(2) && 0 <= entry < Capacity(ptr)
    // 0x7F E L F; the class, little-endian, version 1; the type, the machine, version 1, the entry point.
    ensures Word(m, 0, 4) == 0x464C457F && Word(m, 4, 4) == (if ptr == 8 then 0x010102 else 0x010101)
    ensures Word(m, 16, 2) == eType && Word(m, 18, 2) == (if ptr == 8 then 183 else 40)
    ensures Word(m, 20, 4) == 1 && Word(m, 24, ptr) == entry
    ensures Word(m, if ptr == 8 then 40 else 32, ptr) == 0
    ensures Word(m, if ptr == 8 then 52 else 40, 2) == (if ptr == 8 then 64 else 52)
    ensures Word(m, if ptr == 8 then 32 else 28, ptr) == phoff
    ensures Word(m, if ptr == 8 then 54 else 42, 2) == phent
    ensures Word(m, if ptr == 8 then 56 else 44, 2) == phnum
  {
    var fs := EhdrFields(ptr, eType, entry, phoff, phent, phnum);
    EhdrStarts(ptr, eType, entry, phoff, phent, phnum);
    WordSizes();
    hide Start, Pack, Capacity, Word;
    FieldAt(m, 0, fs, 0);
    FieldAt(m, 0, fs, 1);
    FieldAt(m, 0, fs, 3);
    FieldAt(m, 0, fs, 4);
    FieldAt(m, 0, fs, 5);
    FieldAt(m, 0, fs, 6);
    FieldAt(m, 0, fs, 8);
    FieldAt(m, 0, fs, 10);
    FieldAt(m, 0, fs, 7);
    FieldAt(m, 0, fs, 11);
    FieldAt(m, 0, fs, 12);
  }

  lemma Phdr64(m: seq<Byte>, at: int, pType: int, flags: int, offset: int, vaddr: int, size: int)
    requires Holds(m, at, Packed(PhdrFields(8, pType, flags, offset, vaddr, size)))
    requires 0 <= pType < Capacity(4) && 0 <= flags < Capacity(4)
    requires 0 <= offset < Capacity(8) && 0 <= vaddr < Capacity(8) && 0 <= size < Capacity(8)
    ensures Word(m, at, 4) == pType && Word(m, at + 4, 4) == flags && Word(m, at + 8, 8) == offset
    ensures Word(m, at + 16, 8) == vaddr && Word(m, at + 24, 8) == vaddr && Word(m, at + 32, 8) == size
    ensures Word(m, at + 40, 8) == size && Word(m, at + 48, 8) == 0x1000
  {
    var fs := PhdrFields(8, pType, flags, offset, vaddr, size);
    PhdrStarts(8, pType, flags, offset, vaddr, size);
    WordSizes();
    hide Start, Pack, Capacity, Word;
    FieldAt(m, at, fs, 0);
    FieldAt(m, at, fs, 1);
    FieldAt(m, at, fs, 2);
    FieldAt(m, at, fs, 3);
    FieldAt(m, at, fs, 4);
    FieldAt(m, at, fs, 5);
    FieldAt(m, at, fs, 6);
    FieldAt(m, at, fs, 7);
  }

  lemma Phdr32(m: seq<Byte>, at: int, pType: int, flags: int, offset: int, vaddr: int, size: int)
    requires Holds(m, at, Packed(PhdrFields(4, pType, flags, offset, vaddr, size)))
    requires 0 <= pType < Capacity(4) && 0 <= flags < Capacity(4)
    requires 0 <= offset < Capacity(4) && 0 <= vaddr < Capacity(4) && 0 <= size < Capacity(4)
    ensures Word(m, at, 4) == pType && Word(m, at + 4, 4) == offset && Word(m, at + 8, 4) == vaddr
    ensures Word(m, at + 12, 4) == vaddr && Word(m, at + 16, 4) == size && Word(m, at + 20, 4) == size
    ensures Word(m, at + 24, 4) == flags && Word(m, at + 28, 4) == 0x1000
  {
    var fs := PhdrFields(4, pType, flags, offset, vaddr, size);
    PhdrStarts(4, pType, flags, offset, vaddr, size);
    WordSizes();
    hide Start, Pack, Capacity, Word;
    FieldAt(m, at, fs, 0);
    FieldAt(m, at, fs, 1);
    FieldAt(m, at, fs, 2);
    FieldAt(m, at, fs, 3);
    FieldAt(m, at, fs, 4);
    FieldAt(m, at, fs, 5);
    FieldAt(m, at, fs, 6);
    FieldAt(m, at, fs, 7);
  }

  lemma PhdrReads(m: seq<Byte>, at: int, ptr: nat, pType: int, flags: int, offset: int, vaddr: int, size: int)
    requires PointerSize(ptr) && Fits(m, at, PhdrSize(ptr))
    requires Slice(m, at, PhdrSize(ptr)) == Packed(PhdrFields(ptr, pType, flags, offset, vaddr, size))
    requires 0 <= pType < Capacity(4) && 0 <= flags < Capacity(4)
    requires 0 <= offset < Capacity(ptr) && 0 <= vaddr < Capacity(ptr) && 0 <= size < Capacity(ptr)
    ensures Word(m, at, 4) == pType && Word(m, at + 2 * ptr, ptr) == vaddr
    // File offset, both addresses, both sizes; the flags move with the class, and the alignment is a page.
    ensures Word(m, at + ptr, ptr) == offset && Word(m, at + 3 * ptr, ptr) == vaddr
    ensures Word(m, at + 4 * ptr, ptr) == size && Word(m, at + 5 * ptr, ptr) == size
    ensures Word(m, at + (if ptr == 8 then 4 else 24), 4) == flags
    ensures Word(m, at + (if ptr == 8 then 48 else 28), ptr) == 0x1000
  {
    WordSizes();
    PhdrStarts(ptr, pType, flags, offset, vaddr, size);
    hide Start, Pack, Capacity, Word, Slice, Fits;
    if ptr == 8 {
      Phdr64(m, at, pType, flags, offset, vaddr, size);
    } else {
      Phdr32(m, at, pType, flags, offset, vaddr, size);
    }
  }

  lemma SymReads(m: seq<Byte>, at: int, ptr: nat, name: int, value: int, size: int, info: int, shndx: int)
    requires PointerSize(ptr) && Fits(m, at, SymSize(ptr))
    requires Slice(m, at, SymSize(ptr)) == Packed(SymFields(ptr, name, value, size, info, shndx))
    requires 0 <= name < Capacity(4) && 0 <= value < Capacity(ptr) && 0 <= size < Capacity(ptr)
    requires 0 <= info < Capacity(1) && 0 <= shndx < Capacity(2)
    ensures Word(m, at, 4) == name && Word(m, at + ptr, ptr) == value && Word(m, at + 2 * ptr, ptr) == size
    ensures Word(m, at + (if ptr == 8 then 4 else 12), 1) == info
    ensures Word(m, at + (if ptr == 8 then 6 else 14), 2) == shndx
  {
    var fs := SymFields(ptr, name, value, size, info, shndx);
    SymStarts(ptr, name, value, size, info, shndx);
    WordSizes();
    hide Start, Pack, Capacity, Word;
    FieldAt(m, at, fs, 0);
    FieldAt(m, at, fs, if ptr == 8 then 4 else 1);
    FieldAt(m, at, fs, if ptr == 8 then 5 else 2);
    FieldAt(m, at, fs, if ptr == 8 then 1 else 3);
    FieldAt(m, at, fs, if ptr == 8 then 3 else 5);
  }

  // ------------------------------------------------------------------ what an image is made of

  /** The string table after the first `k` names. */
  function Strings(names: seq<seq<Byte>>, k: nat): (r: seq<Byte>)
    requires k <= |names|
  {
    if k == 0 then [0] else Strings(names, k - 1) + (names[k - 1] + [0])
  }

  lemma {:induction false} StringsPrefix(names: seq<seq<Byte>>, k: nat, n: nat)
    requires k <= n <= |names|
    ensures Strings(names, k) <= Strings(names, n)
  {
    if k < n {
      StringsPrefix(names, k, n - 1);
    }
  }

  lemma AfterPrefix(table: seq<Byte>, before: seq<Byte>, middle: seq<Byte>)
    requires before + middle <= table
    ensures |before| + |middle| <= |table| && table[|before|..|before| + |middle|] == middle
  {
    assert table[..|before| + |middle|] == before + middle;
  }

  lemma StringsGrow(names: seq<seq<Byte>>, k: nat, rest: seq<Byte>)
    requires k < |names|
    ensures Strings(names, k) + (names[k] + [0]) <= Strings(names, |names|) + rest
  {
    StringsPrefix(names, k + 1, |names|);
  }

  lemma NameAt(m: seq<Byte>, at: int, names: seq<seq<Byte>>, rest: seq<Byte>, k: nat)
    requires k < |names| && Holds(m, at, Strings(names, |names|) + rest)
    ensures CString(m, at + |Strings(names, k)|) == Text(names[k])
  {
    hide Text, CString, Strings;
    StringsGrow(names, k, rest);
    AfterPrefix(Strings(names, |names|) + rest, Strings(names, k), names[k] + [0]);
    PartHeld(m, at, Strings(names, |names|) + rest, |Strings(names, k)|, names[k] + [0]);
    CStringAt(m, at + |Strings(names, k)|, names[k]);
  }

  /** Bucket count 1, the chain length, the only bucket, then the chain: each symbol leads to the next. */
  function HashWords(defined: nat): seq<int> {
    [1, defined + 1, 1] + ([0] + seq(if defined == 0 then 0 else defined - 1, i => i + 2) + [0])
  }
}
