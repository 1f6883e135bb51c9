/** Emitting a debugger-visible ELF image, and finding its symbols the way a System V reader does. */
module LinkerDebug {
  import opened Bytes
  import opened Common
  import opened LinkerImage

  const ET_DYN := 3
  const PF_R := 4
  const PF_RW := 6
  const PHNUM := 3
  const FUNC_GLOBAL := 18

  /** The anonymous mapping arena is this large, so no larger image can be placed. */
  const ARENA := 0x20000000

  function Zeros(n: nat): (r: seq<Byte>)
    ensures |r| == n && forall i :: 0 <= i < n ==> r[i] == 0
  {
    seq(n, i => 0)
  }

  function StringTable(names: seq<seq<Byte>>, soname: seq<Byte>): seq<Byte> {
    Strings(names, |names|) + (soname + [0])
  }

  datatype Layout =
    Layout(phoff: int, codeOff: int, symOff: int, strtabOff: int, hashOff: int, dynOff: int, size: int)

  function LayoutOf(ptr: nat, count: nat, strings: nat, code: nat): (l: Layout)
    requires PointerSize(ptr)
    ensures l.phoff == EhdrSize(ptr)
    ensures l.phoff + PHNUM * PhdrSize(ptr) <= l.codeOff && l.codeOff + code <= l.symOff
    ensures l.symOff + (count + 1) * SymSize(ptr) == l.strtabOff && l.strtabOff + strings == l.hashOff
    ensures l.hashOff + |HashWords(count)| * 4 <= l.dynOff && l.dynOff + 14 * ptr == l.size
    // Code, symbols and the dynamic section start at the next multiple of 8.
    ensures l.codeOff % 8 == 0 && l.codeOff < l.phoff + PHNUM * PhdrSize(ptr) + 8
    ensures l.symOff % 8 == 0 && l.symOff < l.codeOff + code + 8
    ensures l.dynOff % 8 == 0 && l.dynOff < l.hashOff + |HashWords(count)| * 4 + 8
  {
    var codeOff := Up8(EhdrSize(ptr) + PHNUM * PhdrSize(ptr));
    var symOff := Up8(codeOff + code);
    var strtabOff := symOff + (count + 1) * SymSize(ptr);
    var hashOff := strtabOff + strings;
    var dynOff := Up8(hashOff + |HashWords(count)| * 4);
    Layout(EhdrSize(ptr), codeOff, symOff, strtabOff, hashOff, dynOff, dynOff + 14 * ptr)
  }

  function Phdrs(ptr: nat, l: Layout): (r: seq<seq<Byte>>)
    ensures |r| == PHNUM
  {
    [Packed(PhdrFields(ptr, PT_PHDR, PF_R, l.phoff, l.phoff, PHNUM * PhdrSize(ptr))),
     Packed(PhdrFields(ptr, PT_LOAD, PF_R, 0, 0, l.size)),
     Packed(PhdrFields(ptr, PT_DYNAMIC, PF_RW, l.dynOff, l.dynOff, 14 * ptr))]
  }

  function DynFields(ptr: nat, tag: int, value: int): seq<Field> { [Field(tag, ptr), Field(value, ptr)] }

  function Dynamic(ptr: nat, l: Layout, strings: nat, sonameOff: int): (r: seq<seq<Byte>>)
    ensures |r| == 7
  {
    [Packed(DynFields(ptr, DT_HASH, l.hashOff)), Packed(DynFields(ptr, DT_STRTAB, l.strtabOff)),
     Packed(DynFields(ptr, DT_SYMTAB, l.symOff)), Packed(DynFields(ptr, DT_STRSZ, strings)),
     Packed(DynFields(ptr, DT_SYMENT, SymSize(ptr))), Packed(DynFields(ptr, DT_SONAME, sonameOff)),
     Packed(DynFields(ptr, DT_NULL, 0))]
  }

  /** Row `k` of the symbol table: the null symbol, then one global function for each name. */
  function SymRow(ptr: nat, names: seq<seq<Byte>>, values: seq<int>, code: nat, k: nat): seq<Byte>
    requires |values| == |names| && k <= |names|
  {
    if k == 0 then Packed(SymFields(ptr, 0, 0, 0, 0, 0))
    else Packed(SymFields(ptr, |Strings(names, k - 1)|, values[k - 1], code, FUNC_GLOBAL, 1))
  }

  function SymRows(ptr: nat, names: seq<seq<Byte>>, values: seq<int>, code: nat): (r: seq<seq<Byte>>)
    requires |values| == |names|
    ensures |r| == |names| + 1
  {
    seq(|names| + 1, k requires 0 <= k <= |names| => SymRow(ptr, names, values, code, k))
  }

  lemma SymRowAt(ptr: nat, names: seq<seq<Byte>>, values: seq<int>, code: nat, k: nat)
    requires |values| == |names| && k <= |names|
    ensures SymRows(ptr, names, values, code)[k] == SymRow(ptr, names, values, code, k)
  {
    hide SymRow;
  }

  /** The image: seven sections at their offsets, and zeros in the gaps between them. */
  ghost predicate Emitted(ptr: nat, m: seq<Byte>, names: seq<seq<Byte>>, soname: seq<Byte>, values: seq<int>,
                          code: seq<Byte>)
    requires PointerSize(ptr) && |values| == |names|
  {
    var strings := StringTable(names, soname);
    var l := LayoutOf(ptr, |names|, |strings|, |code|);
    var words := HashWords(|names|);
    && |m| == l.size
    && Holds(m, 0, Packed(EhdrFields(ptr, ET_DYN, 0, l.phoff, PhdrSize(ptr), PHNUM)))
    && Holds(m, l.phoff, Rows(Phdrs(ptr, l), PHNUM))
    && Holds(m, l.codeOff, code)
    && Holds(m, l.symOff, Rows(SymRows(ptr, names, values, |code|), |names| + 1))
    && Holds(m, l.strtabOff, strings)
    && Holds(m, l.hashOff, Rows(WordRows(words, 4), |words|))
    && Holds(m, l.dynOff, Rows(Dynamic(ptr, l, |strings|, |Strings(names, |names|)|), 7))
    && Holds(m, l.phoff + PHNUM * PhdrSize(ptr), Zeros(l.codeOff - (l.phoff + PHNUM * PhdrSize(ptr))))
    && Holds(m, l.codeOff + |code|, Zeros(l.symOff - (l.codeOff + |code|)))
    && Holds(m, l.hashOff + |words| * 4, Zeros(l.dynOff - (l.hashOff + |words| * 4)))
  }

  lemma ZerosHold(n: nat, at: int, k: nat)
    requires 0 <= at && at + k <= n
    ensures Holds(Zeros(n), at, Zeros(k))
  {
  }

  lemma RowWidths(ptr: nat, l: Layout, names: seq<seq<Byte>>, values: seq<int>, code: nat, strings: nat, off: int)
    requires PointerSize(ptr) && |values| == |names|
    ensures Even(Phdrs(ptr, l), PhdrSize(ptr)) && |Rows(Phdrs(ptr, l), PHNUM)| == PHNUM * PhdrSize(ptr)
    ensures Even(SymRows(ptr, names, values, code), SymSize(ptr))
    ensures |Rows(SymRows(ptr, names, values, code), |names| + 1)| == (|names| + 1) * SymSize(ptr)
    ensures Even(Dynamic(ptr, l, strings, off), 2 * ptr) && |Rows(Dynamic(ptr, l, strings, off), 7)| == 14 * ptr
    ensures |Rows(WordRows(HashWords(|names|), 4), |HashWords(|names|)|)| == |HashWords(|names|)| * 4
    ensures forall phoff :: |Packed(EhdrFields(ptr, ET_DYN, 0, phoff, PhdrSize(ptr), PHNUM))| == EhdrSize(ptr)
  {
    PhdrWidths(ptr, l);
    SymWidths(ptr, names, values, code);
    DynWidths(ptr, l, strings, off);
    RowsLength(WordRows(HashWords(|names|), 4), 4, |HashWords(|names|)|);
    forall phoff
      ensures |Packed(EhdrFields(ptr, ET_DYN, 0, phoff, PhdrSize(ptr), PHNUM))| == EhdrSize(ptr)
    {
      EhdrStarts(ptr, ET_DYN, 0, phoff, PhdrSize(ptr), PHNUM);
    }
  }

  lemma PhdrWidths(ptr: nat, l: Layout)
    requires PointerSize(ptr)
    ensures Even(Phdrs(ptr, l), PhdrSize(ptr)) && |Rows(Phdrs(ptr, l), PHNUM)| == PHNUM * PhdrSize(ptr)
  {
    hide PhdrFields, Packed, Rows;
    PhdrStarts(ptr, PT_PHDR, PF_R, l.phoff, l.phoff, PHNUM * PhdrSize(ptr));
    PhdrStarts(ptr, PT_LOAD, PF_R, 0, 0, l.size);
    PhdrStarts(ptr, PT_DYNAMIC, PF_RW, l.dynOff, l.dynOff, 14 * ptr);
    RowsLength(Phdrs(ptr, l), PhdrSize(ptr), PHNUM);
  }

  lemma SymWidths(ptr: nat, names: seq<seq<Byte>>, values: seq<int>, code: nat)
    requires PointerSize(ptr) && |values| == |names|
    ensures Even(SymRows(ptr, names, values, code), SymSize(ptr))
    ensures |Rows(SymRows(ptr, names, values, code), |names| + 1)| == (|names| + 1) * SymSize(ptr)
  {
    hide SymFields, Packed, Rows, Strings;
    var rows := SymRows(ptr, names, values, code);
    forall k | 0 <= k < |rows|
      ensures |rows[k]| == SymSize(ptr)
    {
      if k == 0 {
        SymStarts(ptr, 0, 0, 0, 0, 0);
      } else {
        SymStarts(ptr, |Strings(names, k - 1)|, values[k - 1], code, FUNC_GLOBAL, 1);
      }
    }
    RowsLength(rows, SymSize(ptr), |names| + 1);
  }

  lemma DynStarts(ptr: nat, tag: int, value: int)
    ensures var fs := DynFields(ptr, tag, value);
      Start(fs, 0) == 0 && Start(fs, 1) == ptr && Start(fs, 2) == 2 * ptr && |Packed(fs)| == 2 * ptr
  {
  }

  lemma DynWidths(ptr: nat, l: Layout, strings: nat, off: int)
    requires PointerSize(ptr)
    ensures Even(Dynamic(ptr, l, strings, off), 2 * ptr) && |Rows(Dynamic(ptr, l, strings, off), 7)| == 14 * ptr
  {
    hide DynFields, Packed, Rows;
    DynStarts(ptr, DT_HASH, l.hashOff);
    DynStarts(ptr, DT_STRTAB, l.strtabOff);
    DynStarts(ptr, DT_SYMTAB, l.symOff);
    DynStarts(ptr, DT_STRSZ, strings);
    DynStarts(ptr, DT_SYMENT, SymSize(ptr));
    DynStarts(ptr, DT_SONAME, off);
    DynStarts(ptr, DT_NULL, 0);
    RowsLength(Dynamic(ptr, l, strings, off), 2 * ptr, 7);
  }

  /** The seven sections of an image, with the zeros between them. */
  function Sections(ptr: nat, names: seq<seq<Byte>>, soname: seq<Byte>, values: seq<int>,
                    code: seq<Byte>): (r: seq<seq<Byte>>)
    requires PointerSize(ptr) && |values| == |names|
    ensures |r| == 10
  {
    var strings := StringTable(names, soname);
    var l := LayoutOf(ptr, |names|, |strings|, |code|);
    var words := HashWords(|names|);
    [Packed(EhdrFields(ptr, ET_DYN, 0, l.phoff, PhdrSize(ptr), PHNUM)), Rows(Phdrs(ptr, l), PHNUM),
     Zeros(l.codeOff - (l.phoff + PHNUM * PhdrSize(ptr))), code, Zeros(l.symOff - (l.codeOff + |code|)),
     Rows(SymRows(ptr, names, values, |code|), |names| + 1), strings, Rows(WordRows(words, 4), |words|),
     Zeros(l.dynOff - (l.hashOff + |words| * 4)), Rows(Dynamic(ptr, l, |strings|, |Strings(names, |names|)|), 7)]
  }

  function Image(ptr: nat, names: seq<seq<Byte>>, soname: seq<Byte>, values: seq<int>, code: seq<Byte>): seq<Byte>
    requires PointerSize(ptr) && |values| == |names|
  {
    Rows(Sections(ptr, names, soname, values, code), 10)
  }

  /** Laid one after another, the sections are at the offsets of the layout. */
  lemma SectionOffsets(ptr: nat, names: seq<seq<Byte>>, soname: seq<Byte>, values: seq<int>, code: seq<Byte>)
    requires PointerSize(ptr) && |values| == |names|
    ensures var s := Sections(ptr, names, soname, values, code);
            var l := LayoutOf(ptr, |names|, |StringTable(names, soname)|, |code|);
      && |Rows(s, 0)| == 0 && |Rows(s, 1)| == l.phoff && |Rows(s, 2)| == l.phoff + PHNUM * PhdrSize(ptr)
      && |Rows(s, 3)| == l.codeOff && |Rows(s, 4)| == l.codeOff + |code| && |Rows(s, 5)| == l.symOff
      && |Rows(s, 6)| == l.strtabOff && |Rows(s, 7)| == l.hashOff
         && |Rows(s, 8)| == l.hashOff + |HashWords(|names|)| * 4
      && |Rows(s, 9)| == l.dynOff && |Rows(s, 10)| == l.size
  {
    hide Packed, Strings, SymRows, Dynamic, Phdrs, WordRows, HashWords, Zeros, LayoutOf, StringTable;
    var strings := StringTable(names, soname);
    var l := LayoutOf(ptr, |names|, |strings|, |code|);
    RowWidths(ptr, l, names, values, |code|, |strings|, |Strings(names, |names|)|);
    var s := Sections(ptr, names, soname, values, code);
    SectionEnds(s);
  }

  lemma SectionEnds(s: seq<seq<Byte>>)
    requires |s| == 10
    ensures |Rows(s, 0)| == 0 && forall k :: 0 <= k < 10 ==> |Rows(s, k + 1)| == |Rows(s, k)| + |s[k]|
  {
  }

  lemma ImageEmitted(ptr: nat, names: seq<seq<Byte>>, soname: seq<Byte>, values: seq<int>, code: seq<Byte>)
    requires PointerSize(ptr) && |values| == |names|
    ensures Emitted(ptr, Image(ptr, names, soname, values, code), names, soname, values, code)
  {
    hide Packed, Rows, Strings, SymRows, Dynamic, Phdrs, WordRows, HashWords, Holds, Zeros, LayoutOf, StringTable;
    var s := Sections(ptr, names, soname, values, code);
    SectionOffsets(ptr, names, soname, values, code);
    AllHeld(s);
  }

  lemma AllHeld(s: seq<seq<Byte>>)
    requires |s| == 10
    ensures var m := Rows(s, 10);
      && Holds(m, |Rows(s, 0)|, s[0]) && Holds(m, |Rows(s, 1)|, s[1]) && Holds(m, |Rows(s, 2)|, s[2])
      && Holds(m, |Rows(s, 3)|, s[3]) && Holds(m, |Rows(s, 4)|, s[4]) && Holds(m, |Rows(s, 5)|, s[5])
      && Holds(m, |Rows(s, 6)|, s[6]) && Holds(m, |Rows(s, 7)|, s[7]) && Holds(m, |Rows(s, 8)|, s[8])
      && Holds(m, |Rows(s, 9)|, s[9])
  {
    hide Rows, Holds;
    forall k | 0 <= k < 10
      ensures Holds(Rows(s, 10), |Rows(s, k)|, s[k])
    {
      RowHeld(s, k, 10);
    }
  }

  /** Nothing else meets the description: a buffer with the sections and gaps in place is the image. */
  lemma EmittedIsImage(ptr: nat, m: seq<Byte>, names: seq<seq<Byte>>, soname: seq<Byte>, values: seq<int>,
                       code: seq<Byte>)
    requires PointerSize(ptr) && |values| == |names| && Emitted(ptr, m, names, soname, values, code)
    ensures m == Image(ptr, names, soname, values, code)
  {
    hide Packed, Rows, Strings, SymRows, Dynamic, Phdrs, WordRows, HashWords, Holds, Zeros, LayoutOf, StringTable;
    var s := Sections(ptr, names, soname, values, code);
    SectionOffsets(ptr, names, soname, values, code);
    RowsMakeTable(m, s, 10);
    WholeBuffer(m, Rows(s, 10));
  }

  lemma WholeBuffer(m: seq<Byte>, data: seq<Byte>)
    requires Holds(m, 0, data) && |data| == |m|
    ensures m == data
  {
  }

  function Values(names: seq<seq<Byte>>, base: int, codeOff: int, stValue: (seq<Byte>, int, int) -> int): (r: seq<int>)
    ensures |r| == |names|
  {
    seq(|names|, k requires 0 <= k < |names| => stValue(names[k], base, codeOff))
  }

  /** The name table and each name's offset in it. */
  method BuildStrings(names: seq<seq<Byte>>, soname: seq<Byte>)
    returns (strtab: seq<Byte>, offs: seq<int>, sonameOff: int)
    ensures strtab == StringTable(names, soname) && sonameOff == |Strings(names, |names|)|
    ensures |offs| == |names| && forall k :: 0 <= k < |names| ==> offs[k] == |Strings(names, k)|
  {
    strtab, offs := [0], [];
    for i := 0 to |names|
      invariant strtab == Strings(names, i) && |offs| == i
      invariant forall k :: 0 <= k < i ==> offs[k] == |Strings(names, k)|
    {
      offs := offs + [|strtab|];
      strtab := strtab + (names[i] + [0]);
    }
    sonameOff := |strtab|;
    strtab := strtab + (soname + [0]);
  }

  /** A value that does not fit the symbol's value field is a packing error. */
  method BuildSymbols(ptr: nat, names: seq<seq<Byte>>, offs: seq<int>, values: seq<int>, code: nat)
    returns (syms: Option<seq<Byte>>)
    requires |offs| == |names| == |values| && forall k :: 0 <= k < |names| ==> offs[k] == |Strings(names, k)|
    ensures syms.Some? <==> forall k :: 0 <= k < |values| ==> 0 <= values[k] < Capacity(ptr)
    ensures syms.Some? ==> syms.value == Rows(SymRows(ptr, names, values, code), |names| + 1)
  {
    hide Packed, Strings, Capacity, SymRows, SymFields;
    ghost var rows := SymRows(ptr, names, values, code);
    var out := Packed(SymFields(ptr, 0, 0, 0, 0, 0));
    SymRowAt(ptr, names, values, code, 0);
    assert Rows(rows, 0) == [] && rows[0] == out;
    assert [] + out == out;
    for i := 0 to |names|
      invariant out == Rows(rows, i + 1)
      invariant forall k :: 0 <= k < i ==> 0 <= values[k] < Capacity(ptr)
    {
      if !(0 <= values[i] < Capacity(ptr)) {
        return None;
      }
      var sym := Packed(SymFields(ptr, offs[i], values[i], code, FUNC_GLOBAL, 1));
      SymRowAt(ptr, names, values, code, i + 1);
      out := out + sym;
    }
    return Some(out);
  }

  /** `base` is where the arena placed the image. */
  method EmitModule(ptr: nat, names: seq<seq<Byte>>, soname: seq<Byte>, stValue: (seq<Byte>, int, int) -> int,
                    code: seq<Byte>, base: int)
    returns (image: Option<seq<Byte>>, ld: int, phdr: int, phnum: int, blob: int)
    requires PointerSize(ptr)
    requires LayoutOf(ptr, |names|, |StringTable(names, soname)|, |code|).size <= ARENA
    ensures var l := LayoutOf(ptr, |names|, |StringTable(names, soname)|, |code|);
            var values := Values(names, base, l.codeOff, stValue);
      && (image.Some? <==> forall k :: 0 <= k < |values| ==> 0 <= values[k] < Capacity(ptr))
      && (image.Some? ==>
            && image.value == Image(ptr, names, soname, values, code)
            && ld == base + l.dynOff && phdr == base + l.phoff && phnum == PHNUM && blob == base + l.codeOff)
  {
    hide Packed, Rows, Strings, Capacity, SymRows, Dynamic, Phdrs, WordRows, HashWords, Holds, Write, Zeros, LayoutOf;
    var strtab, offs, sonameOff := BuildStrings(names, soname);
    var l := LayoutOf(ptr, |names|, |strtab|, |code|);
    var words := HashWords(|names|);
    var hash := Rows(WordRows(words, 4), |words|);
    var dyn := Rows(Dynamic(ptr, l, |strtab|, sonameOff), 7);
    var phdrs := Rows(Phdrs(ptr, l), PHNUM);
    var values := Values(names, base, l.codeOff, stValue);
    ld, phdr, phnum, blob := base + l.dynOff, base + l.phoff, PHNUM, base + l.codeOff;
    var syms := BuildSymbols(ptr, names, offs, values, |code|);
    if syms == None {
      return None, 0, 0, 0, 0;
    }
    RowWidths(ptr, l, names, values, |code|, |strtab|, sonameOff);
    var ehdr := Packed(EhdrFields(ptr, ET_DYN, 0, l.phoff, PhdrSize(ptr), PHNUM));
    var m := Assemble(l, ehdr, phdrs, code, syms.value, strtab, hash, dyn);
    assert Emitted(ptr, m, names, soname, values, code);
    hide Image, Emitted;
    EmittedIsImage(ptr, m, names, soname, values, code);
    image := Some(m);
  }

  /** Fill a zeroed buffer with the seven sections. */
  method Assemble(l: Layout, ehdr: seq<Byte>, phdrs: seq<Byte>, code: seq<Byte>, syms: seq<Byte>, strtab: seq<Byte>,
                  hash: seq<Byte>, dyn: seq<Byte>)
    returns (m: seq<Byte>)
    requires |ehdr| == l.phoff && l.phoff + |phdrs| <= l.codeOff && l.codeOff + |code| <= l.symOff
    requires l.symOff + |syms| == l.strtabOff && l.strtabOff + |strtab| == l.hashOff
    requires l.hashOff + |hash| <= l.dynOff && l.dynOff + |dyn| == l.size
    ensures |m| == l.size && Holds(m, 0, ehdr) && Holds(m, l.phoff, phdrs) && Holds(m, l.codeOff, code)
    ensures Holds(m, l.symOff, syms) && Holds(m, l.strtabOff, strtab) && Holds(m, l.hashOff, hash)
            && Holds(m, l.dynOff, dyn)
    ensures Holds(m, l.phoff + |phdrs|, Zeros(l.codeOff - (l.phoff + |phdrs|)))
    ensures Holds(m, l.codeOff + |code|, Zeros(l.symOff - (l.codeOff + |code|)))
    ensures Holds(m, l.hashOff + |hash|, Zeros(l.dynOff - (l.hashOff + |hash|)))
  {
    hide Holds, Zeros, Write;
    m := Zeros(l.size);
    ZerosHold(l.size, l.phoff + |phdrs|, l.codeOff - (l.phoff + |phdrs|));
    ZerosHold(l.size, l.codeOff + |code|, l.symOff - (l.codeOff + |code|));
    ZerosHold(l.size, l.hashOff + |hash|, l.dynOff - (l.hashOff + |hash|));
    Blit(m, 0, ehdr);
    m := Write(m, 0, ehdr);
    Blit(m, l.phoff, phdrs);
    m := Write(m, l.phoff, phdrs);
    Blit(m, l.codeOff, code);
    m := Write(m, l.codeOff, code);
    Blit(m, l.symOff, syms);
    m := Write(m, l.symOff, syms);
    Blit(m, l.strtabOff, strtab);
    m := Write(m, l.strtabOff, strtab);
    Blit(m, l.hashOff, hash);
    m := Write(m, l.hashOff, hash);
    Blit(m, l.dynOff, dyn);
    m := Write(m, l.dynOff, dyn);
  }

  // ------------------------------------------------------------------ reading an image back

  datatype Answer = Found(value: int) | Absent | Fault

  /** The address field of the first PT_DYNAMIC among `count` program headers at `at`. */
  function FindDynamic(ptr: nat, m: seq<Byte>, at: int, entry: int, count: int): int
    decreases count
  {
    if count <= 0 then -1
    else if Word(m, at, 4) == PT_DYNAMIC then Word(m, at + 2 * ptr, ptr)
    else FindDynamic(ptr, m, at + entry, entry, count - 1)
  }

  function DynamicOf(ptr: nat, m: seq<Byte>): int {
    FindDynamic(ptr, m, Word(m, if ptr == 8 then 32 else 28, ptr), Word(m, if ptr == 8 then 54 else 42, 2),
                Word(m, if ptr == 8 then 56 else 44, 2))
  }

  /** The value under `tag` in the dynamic section at `at`. */
  function Tagged(ptr: nat, m: seq<Byte>, at: int, tag: int): int
    requires ptr > 0
    decreases |m| - at
  {
    var t := Word(m, at, ptr);
    if t == -1 then -1 else if t == tag then Word(m, at + ptr, ptr)
    else if t == DT_NULL then -1 else Tagged(ptr, m, at + 2 * ptr, tag)
  }

  datatype Tables = Tables(hash: int, strtab: int, symtab: int, syment: int)

  function TablesOf(ptr: nat, m: seq<Byte>): Tables
    requires ptr > 0
  {
    var dyn := DynamicOf(ptr, m);
    Tables(Tagged(ptr, m, dyn, DT_HASH), Tagged(ptr, m, dyn, DT_STRTAB), Tagged(ptr, m, dyn, DT_SYMTAB),
           Tagged(ptr, m, dyn, DT_SYMENT))
  }

  /** Follow a chain for at most `left` symbols. */
  function Walk(ptr: nat, m: seq<Byte>, t: Tables, nbucket: int, nchain: int, name: seq<Byte>, i: int,
                left: nat): Answer
    decreases left
  {
    if i == 0 then Absent
    else if i < 0 || i >= nchain || left == 0 then Fault
    else if CString(m, t.strtab + Word(m, t.symtab + i * t.syment, 4)) == name then
      Found(Word(m, t.symtab + i * t.syment + ptr, ptr))
    else
      Walk(ptr, m, t, nbucket, nchain, name, Word(m, t.hash + (2 + nbucket + i) * 4, 4), left - 1)
  }

  /**
   * The lookup of the System V gABI, chapter 5, "Hash Table", for a name whose hash value is `h`. `Fault` is an
   * index outside the chain array, or a chain that does not end.
   */
  function Lookup(ptr: nat, m: seq<Byte>, name: seq<Byte>, h: nat): Answer
    requires ptr > 0
  {
    var t := TablesOf(ptr, m);
    var nbucket, nchain := Word(m, t.hash, 4), Word(m, t.hash + 4, 4);
    if nbucket <= 0 || nchain < 0 then Fault
    else Walk(ptr, m, t, nbucket, nchain, name, Word(m, t.hash + (2 + h % nbucket) * 4, 4), nchain)
  }

  lemma DynamicFound(ptr: nat, m: seq<Byte>, l: Layout)
    requires PointerSize(ptr) && l.phoff == EhdrSize(ptr) && 0 <= l.dynOff < ARENA && 0 <= l.size <= ARENA
    requires Holds(m, 0, Packed(EhdrFields(ptr, ET_DYN, 0, l.phoff, PhdrSize(ptr), PHNUM)))
    requires Holds(m, l.phoff, Rows(Phdrs(ptr, l), PHNUM))
    ensures DynamicOf(ptr, m) == l.dynOff
  {
    hide Packed, Rows, EhdrFields, PhdrFields, Word, Start, Pack, Phdrs, FindDynamic;
    SegmentsRead(ptr, m, l);
    EhdrStarts(ptr, ET_DYN, 0, l.phoff, PhdrSize(ptr), PHNUM);
    EhdrReads(m, ptr, ET_DYN, 0, l.phoff, PhdrSize(ptr), PHNUM);
    ThirdIsDynamic(ptr, m, l.phoff, PhdrSize(ptr));
  }

  lemma ThirdIsDynamic(ptr: nat, m: seq<Byte>, at: int, entry: int)
    requires Word(m, at, 4) != PT_DYNAMIC && Word(m, at + entry, 4) != PT_DYNAMIC
    requires Word(m, at + 2 * entry, 4) == PT_DYNAMIC
    ensures FindDynamic(ptr, m, at, entry, PHNUM) == Word(m, at + 2 * entry + 2 * ptr, ptr)
  {
    hide Word;
    assert FindDynamic(ptr, m, at + 2 * entry, entry, 1) == Word(m, at + 2 * entry + 2 * ptr, ptr);
    assert FindDynamic(ptr, m, at + entry, entry, 2) == FindDynamic(ptr, m, at + 2 * entry, entry, 1);
  }

  /** The program header at `at`: its kind, permissions, place in the file and in memory, and size. */
  ghost predicate Segment(ptr: nat, m: seq<Byte>, at: int, kind: int, flags: int, offset: int, size: int)
    requires PointerSize(ptr)
  {
    && Word(m, at, 4) == kind && Word(m, at + (if ptr == 8 then 4 else 24), 4) == flags
    && Word(m, at + ptr, ptr) == offset && Word(m, at + 2 * ptr, ptr) == offset
    && Word(m, at + 4 * ptr, ptr) == size && Word(m, at + 5 * ptr, ptr) == size
  }

  /** The headers describe themselves, the whole image as one readable segment, and the dynamic section. */
  lemma SegmentsRead(ptr: nat, m: seq<Byte>, l: Layout)
    requires PointerSize(ptr) && l.phoff == EhdrSize(ptr) && 0 <= l.dynOff < ARENA && 0 <= l.size <= ARENA
    requires Holds(m, l.phoff, Rows(Phdrs(ptr, l), PHNUM))
    ensures Segment(ptr, m, l.phoff, 6, 4, l.phoff, 3 * PhdrSize(ptr))
    ensures Segment(ptr, m, l.phoff + PhdrSize(ptr), 1, 4, 0, l.size)
    ensures Segment(ptr, m, l.phoff + 2 * PhdrSize(ptr), 2, 6, l.dynOff, 14 * ptr)
  {
    WordSizes();
    hide Packed, Rows, PhdrFields, Word, Start, Pack, Capacity;
    var size := PhdrSize(ptr);
    PhdrWidths(ptr, l);
    RowAt(m, l.phoff, Phdrs(ptr, l), size, 0);
    RowAt(m, l.phoff, Phdrs(ptr, l), size, 1);
    RowAt(m, l.phoff, Phdrs(ptr, l), size, 2);
    PhdrReads(m, l.phoff, ptr, PT_PHDR, PF_R, l.phoff, l.phoff, PHNUM * size);
    PhdrReads(m, l.phoff + size, ptr, PT_LOAD, PF_R, 0, 0, l.size);
    PhdrReads(m, l.phoff + 2 * size, ptr, PT_DYNAMIC, PF_RW, l.dynOff, l.dynOff, 14 * ptr);
  }

  lemma DynReads(m: seq<Byte>, at: int, ptr: nat, tag: int, value: int)
    requires PointerSize(ptr) && Holds(m, at, Packed(DynFields(ptr, tag, value)))
    requires 0 <= tag < Capacity(4) && 0 <= value < Capacity(4)
    ensures Word(m, at, ptr) == tag && Word(m, at + ptr, ptr) == value
  {
    var fs := DynFields(ptr, tag, value);
    DynStarts(ptr, tag, value);
    WordSizes();
    hide Start, Pack, Capacity, Word;
    FieldAt(m, at, fs, 0);
    FieldAt(m, at, fs, 1);
  }

  lemma TablesFound(ptr: nat, m: seq<Byte>, l: Layout, strings: nat, off: int)
    requires PointerSize(ptr) && l.phoff == EhdrSize(ptr) && 0 <= off < ARENA && strings < ARENA
    requires 0 <= l.symOff <= l.strtabOff <= l.hashOff <= l.dynOff < ARENA && 0 <= l.size <= ARENA
    requires Holds(m, 0, Packed(EhdrFields(ptr, ET_DYN, 0, l.phoff, PhdrSize(ptr), PHNUM)))
    requires Holds(m, l.phoff, Rows(Phdrs(ptr, l), PHNUM))
    requires Holds(m, l.dynOff, Rows(Dynamic(ptr, l, strings, off), 7))
    ensures TablesOf(ptr, m) == Tables(l.hashOff, l.strtabOff, l.symOff, SymSize(ptr))
    // The size of the string table and the offset of the image's own name in it.
    ensures Tagged(ptr, m, DynamicOf(ptr, m), 10) == strings && Tagged(ptr, m, DynamicOf(ptr, m), 14) == off
  {
    WordSizes();
    hide Packed, Rows, DynFields, Word, Tagged, DynamicOf, Holds, Capacity;
    DynamicFound(ptr, m, l);
    DynWidths(ptr, l, strings, off);
    var rows := Dynamic(ptr, l, strings, off);
    var at := l.dynOff;
    RowAt(m, at, rows, 2 * ptr, 0);
    RowAt(m, at, rows, 2 * ptr, 1);
    RowAt(m, at, rows, 2 * ptr, 2);
    RowAt(m, at, rows, 2 * ptr, 3);
    RowAt(m, at, rows, 2 * ptr, 4);
    RowAt(m, at, rows, 2 * ptr, 5);
    DynReads(m, at, ptr, DT_HASH, l.hashOff);
    DynReads(m, at + 2 * ptr, ptr, DT_STRTAB, l.strtabOff);
    DynReads(m, at + 4 * ptr, ptr, DT_SYMTAB, l.symOff);
    DynReads(m, at + 6 * ptr, ptr, DT_STRSZ, strings);
    DynReads(m, at + 8 * ptr, ptr, DT_SYMENT, SymSize(ptr));
    DynReads(m, at + 10 * ptr, ptr, DT_SONAME, off);
    AllSkipped(ptr, m, at);
  }

  /** With the six entries in place, each tag is found at its own. */
  lemma AllSkipped(ptr: nat, m: seq<Byte>, at: int)
    requires ptr > 0
    requires Word(m, at, ptr) == DT_HASH && Word(m, at + 2 * ptr, ptr) == DT_STRTAB
    requires Word(m, at + 4 * ptr, ptr) == DT_SYMTAB && Word(m, at + 6 * ptr, ptr) == DT_STRSZ
    requires Word(m, at + 8 * ptr, ptr) == DT_SYMENT && Word(m, at + 10 * ptr, ptr) == DT_SONAME
    ensures Tagged(ptr, m, at, DT_HASH) == Word(m, at + ptr, ptr)
    ensures Tagged(ptr, m, at, DT_STRTAB) == Word(m, at + 3 * ptr, ptr)
    ensures Tagged(ptr, m, at, DT_SYMTAB) == Word(m, at + 5 * ptr, ptr)
    ensures Tagged(ptr, m, at, DT_STRSZ) == Word(m, at + 7 * ptr, ptr)
    ensures Tagged(ptr, m, at, DT_SYMENT) == Word(m, at + 9 * ptr, ptr)
    ensures Tagged(ptr, m, at, DT_SONAME) == Word(m, at + 11 * ptr, ptr)
  {
    hide Word, Tagged;
    Skip(ptr, m, at, DT_HASH);
    Skip(ptr, m, at + 2 * ptr, DT_HASH);
    Skip(ptr, m, at, DT_STRTAB);
    Skip(ptr, m, at + 2 * ptr, DT_STRTAB);
    Skip(ptr, m, at, DT_SYMTAB);
    Skip(ptr, m, at + 2 * ptr, DT_SYMTAB);
    Skip(ptr, m, at + 4 * ptr, DT_SYMTAB);
    Skip(ptr, m, at, DT_SYMENT);
    Skip(ptr, m, at + 2 * ptr, DT_SYMENT);
    Skip(ptr, m, at + 4 * ptr, DT_SYMENT);
    Skip(ptr, m, at + 6 * ptr, DT_SYMENT);
    Skip(ptr, m, at + 8 * ptr, DT_SYMENT);
    Skip(ptr, m, at, DT_STRSZ);
    Skip(ptr, m, at + 2 * ptr, DT_STRSZ);
    Skip(ptr, m, at + 4 * ptr, DT_STRSZ);
    Skip(ptr, m, at + 6 * ptr, DT_STRSZ);
    Skip(ptr, m, at, DT_SONAME);
    Skip(ptr, m, at + 2 * ptr, DT_SONAME);
    Skip(ptr, m, at + 4 * ptr, DT_SONAME);
    Skip(ptr, m, at + 6 * ptr, DT_SONAME);
    Skip(ptr, m, at + 8 * ptr, DT_SONAME);
    Skip(ptr, m, at + 10 * ptr, DT_SONAME);
  }

  lemma Skip(ptr: nat, m: seq<Byte>, at: int, tag: int)
    requires ptr > 0
    ensures Word(m, at, ptr) == tag && tag >= 0 ==> Tagged(ptr, m, at, tag) == Word(m, at + ptr, ptr)
    ensures Word(m, at, ptr) > 0 && Word(m, at, ptr) != tag ==>
              Tagged(ptr, m, at, tag) == Tagged(ptr, m, at + 2 * ptr, tag)
  {
  }

  /** The first listed name, at or after `k`, that a reader sees as `name`. */
  function FirstNamed(names: seq<seq<Byte>>, name: seq<Byte>, k: nat): (r: nat)
    requires k <= |names|
    ensures k <= r <= |names|
    ensures r < |names| ==> Text(names[r]) == name
    ensures forall i :: k <= i < r ==> Text(names[i]) != name
    decreases |names| - k
  {
    if k == |names| || Text(names[k]) == name then k else FirstNamed(names, name, k + 1)
  }

  /** What one step of a chain reads. */
  ghost predicate Linked(ptr: nat, m: seq<Byte>, t: Tables, names: seq<seq<Byte>>, values: seq<int>, i: nat)
    requires 1 <= i <= |names| == |values|
  {
    && CString(m, t.strtab + Word(m, t.symtab + i * t.syment, 4)) == Text(names[i - 1])
    && Word(m, t.symtab + i * t.syment + ptr, ptr) == values[i - 1]
    && Word(m, t.hash + (3 + i) * 4, 4) == if i < |names| then i + 1 else 0
  }

  lemma {:induction false} WalkFinds(ptr: nat, m: seq<Byte>, t: Tables, names: seq<seq<Byte>>, values: seq<int>,
                                     name: seq<Byte>, i: nat, left: nat)
    requires 1 <= i <= |names| == |values| && left >= |names| - i + 1
    requires forall j :: 1 <= j <= |names| ==> Linked(ptr, m, t, names, values, j)
    ensures var r := FirstNamed(names, name, i - 1);
            Walk(ptr, m, t, 1, |names| + 1, name, i, left) == if r < |names| then Found(values[r]) else Absent
    decreases |names| - i
  {
    hide Word, CString, Text;
    assert Linked(ptr, m, t, names, values, i);
    if i < |names| {
      WalkFinds(ptr, m, t, names, values, name, i + 1, left - 1);
    }
  }

  lemma LinkedAt(ptr: nat, m: seq<Byte>, l: Layout, names: seq<seq<Byte>>, soname: seq<Byte>, values: seq<int>,
                 code: nat, i: nat)
    requires PointerSize(ptr) && 1 <= i <= |names| == |values| && |names| < ARENA && code < ARENA
    requires |Strings(names, i - 1)| < ARENA && 0 <= values[i - 1] < Capacity(ptr)
    requires Holds(m, l.symOff, Rows(SymRows(ptr, names, values, code), |names| + 1))
    requires Holds(m, l.strtabOff, StringTable(names, soname))
    requires Holds(m, l.hashOff, Rows(WordRows(HashWords(|names|), 4), |HashWords(|names|)|))
    ensures Linked(ptr, m, Tables(l.hashOff, l.strtabOff, l.symOff, SymSize(ptr)), names, values, i)
  {
    hide Packed, Rows, SymFields, Word, Strings, Holds, CString, Text;
    SymWidths(ptr, names, values, code);
    var rows := SymRows(ptr, names, values, code);
    RowAt(m, l.symOff, rows, SymSize(ptr), i);
    SymFound(ptr, m, l.symOff + i * SymSize(ptr), names, values, code, i);
    NameAt(m, l.strtabOff, names, soname + [0], i - 1);
    WordAt(m, l.hashOff, HashWords(|names|), 4, 3 + i);
  }

  lemma SymFound(ptr: nat, m: seq<Byte>, at: int, names: seq<seq<Byte>>, values: seq<int>, code: nat, i: nat)
    requires PointerSize(ptr) && 1 <= i <= |names| == |values| && code < ARENA
    requires |Strings(names, i - 1)| < ARENA && 0 <= values[i - 1] < Capacity(ptr)
    requires Holds(m, at, SymRow(ptr, names, values, code, i))
    ensures Word(m, at, 4) == |Strings(names, i - 1)| && Word(m, at + ptr, ptr) == values[i - 1]
    // A global function (binding 1, type 2) of section 1 that is as long as the code.
    ensures Word(m, at + 2 * ptr, ptr) == code && Word(m, at + (if ptr == 8 then 4 else 12), 1) == 1 * 16 + 2
    ensures Word(m, at + (if ptr == 8 then 6 else 14), 2) == 1
  {
    WordSizes();
    hide Packed, SymFields, Strings, Capacity, Word;
    SymStarts(ptr, |Strings(names, i - 1)|, values[i - 1], code, FUNC_GLOBAL, 1);
    SymReads(m, at, ptr, |Strings(names, i - 1)|, values[i - 1], code, FUNC_GLOBAL, 1);
  }

  lemma HashHead(m: seq<Byte>, at: int, n: nat)
    requires n < ARENA && Holds(m, at, Rows(WordRows(HashWords(n), 4), |HashWords(n)|))
    ensures Word(m, at, 4) == 1 && Word(m, at + 4, 4) == n + 1 && Word(m, at + 8, 4) == 1
  {
    WordSizes();
    hide Rows, Word, Holds, Capacity;
    WordAt(m, at, HashWords(n), 4, 0);
    WordAt(m, at, HashWords(n), 4, 1);
    WordAt(m, at, HashWords(n), 4, 2);
  }

  lemma AllLinked(ptr: nat, names: seq<seq<Byte>>, soname: seq<Byte>, values: seq<int>, code: seq<Byte>)
    requires PointerSize(ptr) && |values| == |names|
    requires LayoutOf(ptr, |names|, |StringTable(names, soname)|, |code|).size <= ARENA
    requires forall k :: 0 <= k < |values| ==> 0 <= values[k] < Capacity(ptr)
    ensures |names| < ARENA
    ensures var l := LayoutOf(ptr, |names|, |StringTable(names, soname)|, |code|);
            var m := Image(ptr, names, soname, values, code);
      && TablesOf(ptr, m) == Tables(l.hashOff, l.strtabOff, l.symOff, SymSize(ptr))
      && Holds(m, l.hashOff, Rows(WordRows(HashWords(|names|), 4), |HashWords(|names|)|))
      && forall j :: 1 <= j <= |names| ==> Linked(ptr, m, TablesOf(ptr, m), names, values, j)
  {
    hide Packed, Rows, Word, Strings, Holds, CString, Text, TablesOf, Capacity, SymRows, EhdrFields, Dynamic;
    hide Phdrs, Zeros;
    hide Linked, WordRows, HashWords, Up8, Image, Sections;
    var m := Image(ptr, names, soname, values, code);
    ImageEmitted(ptr, names, soname, values, code);
    var strings := StringTable(names, soname);
    var l := LayoutOf(ptr, |names|, |strings|, |code|);
    assert |strings| == |Strings(names, |names|)| + |soname| + 1;
    assert (|names| + 1) * SymSize(ptr) >= |names| + 1;
    TablesFound(ptr, m, l, |strings|, |Strings(names, |names|)|);
    forall j | 1 <= j <= |names|
      ensures Linked(ptr, m, TablesOf(ptr, m), names, values, j)
    {
      StringsPrefix(names, j - 1, |names|);
      LinkedAt(ptr, m, l, names, soname, values, |code|, j);
    }
  }

  /**
   * A reader of the image finds the identification of a shared object for this machine, one segment that maps the
   * whole image, the headers and the dynamic section in it, and the image's own name.
   */
  lemma ImageReads(ptr: nat, names: seq<seq<Byte>>, soname: seq<Byte>, values: seq<int>, code: seq<Byte>)
    requires PointerSize(ptr) && |values| == |names|
    requires LayoutOf(ptr, |names|, |StringTable(names, soname)|, |code|).size <= ARENA
    ensures var l := LayoutOf(ptr, |names|, |StringTable(names, soname)|, |code|);
            var m := Image(ptr, names, soname, values, code);
      // 0x7F E L F; the class, little-endian, version 1; a shared object; AArch64 or ARM.
      && |m| == l.size && Word(m, 0, 4) == 0x464C457F && Word(m, 4, 4) == (if ptr == 8 then 0x010102 else 0x010101)
      && Word(m, 16, 2) == 3 && Word(m, 18, 2) == (if ptr == 8 then 183 else 40) && Word(m, 24, ptr) == 0
      && Word(m, if ptr == 8 then 52 else 40, 2) == (if ptr == 8 then 64 else 52) == l.phoff
      && Segment(ptr, m, l.phoff, 6, 4, l.phoff, 3 * PhdrSize(ptr))
      && Segment(ptr, m, l.phoff + PhdrSize(ptr), 1, 4, 0, |m|)
      && Segment(ptr, m, l.phoff + 2 * PhdrSize(ptr), 2, 6, l.dynOff, |m| - l.dynOff)
      && Tagged(ptr, m, DynamicOf(ptr, m), 10) == |StringTable(names, soname)|
      && CString(m, l.strtabOff + Tagged(ptr, m, DynamicOf(ptr, m), 14)) == Text(soname)
      && CString(m, l.strtabOff) == []
      && Holds(m, l.codeOff, code)
  {
    hide Packed, Rows, Word, Holds, CString, Text, Capacity, SymRows, EhdrFields, Dynamic, Phdrs, Zeros, Strings;
    hide WordRows, HashWords, Image, Sections, Tagged, DynamicOf, Segment;
    var m := Image(ptr, names, soname, values, code);
    ImageEmitted(ptr, names, soname, values, code);
    var strings := StringTable(names, soname);
    var l := LayoutOf(ptr, |names|, |strings|, |code|);
    WordSizes();
    EhdrStarts(ptr, ET_DYN, 0, l.phoff, PhdrSize(ptr), PHNUM);
    HeaderReads(ptr, m, l);
    SegmentsRead(ptr, m, l);
    TablesFound(ptr, m, l, |strings|, |Strings(names, |names|)|);
    OwnName(m, l.strtabOff, names, soname);
  }

  lemma HeaderReads(ptr: nat, m: seq<Byte>, l: Layout)
    requires PointerSize(ptr) && l.phoff == EhdrSize(ptr)
    requires Holds(m, 0, Packed(EhdrFields(ptr, ET_DYN, 0, l.phoff, PhdrSize(ptr), PHNUM)))
    ensures Word(m, 0, 4) == 0x464C457F && Word(m, 4, 4) == (if ptr == 8 then 0x010102 else 0x010101)
    ensures Word(m, 16, 2) == 3 && Word(m, 18, 2) == (if ptr == 8 then 183 else 40) && Word(m, 24, ptr) == 0
    ensures Word(m, if ptr == 8 then 52 else 40, 2) == (if ptr == 8 then 64 else 52)
  {
    EhdrStarts(ptr, ET_DYN, 0, l.phoff, PhdrSize(ptr), PHNUM);
    WordSizes();
    hide Packed, EhdrFields, Word, Capacity, Start, Pack;
    EhdrReads(m, ptr, ET_DYN, 0, l.phoff, PhdrSize(ptr), PHNUM);
  }

  /** The string table starts with the empty name and ends with the image's own. */
  lemma OwnName(m: seq<Byte>, at: int, names: seq<seq<Byte>>, soname: seq<Byte>)
    requires Holds(m, at, StringTable(names, soname))
    ensures CString(m, at + |Strings(names, |names|)|) == Text(soname) && CString(m, at) == []
  {
    var table, before := StringTable(names, soname), Strings(names, |names|);
    assert table == before + (soname + [0]);
    StringsPrefix(names, 0, |names|);
    assert table[0] == before[0] == 0;
    hide Text, CString, Strings, StringTable, Holds;
    EmptyName(m, at, table);
    AfterPrefix(table, before, soname + [0]);
    PartHeld(m, at, table, |before|, soname + [0]);
    NameHeld(m, at + |before|, soname);
  }

  lemma NameHeld(m: seq<Byte>, at: int, s: seq<Byte>)
    requires Holds(m, at, s + [0])
    ensures CString(m, at) == Text(s)
  {
    CStringAt(m, at, s);
  }

  lemma EmptyName(m: seq<Byte>, at: int, table: seq<Byte>)
    requires Holds(m, at, table) && table != [] && table[0] == 0
    ensures CString(m, at) == []
  {
    assert Slice(m, at, |table|)[0] == m[at] == m[at..][0];
  }

  /** Row `i` of the image's symbol table: a global function of the code section that covers the code. */
  lemma SymbolReads(ptr: nat, names: seq<seq<Byte>>, soname: seq<Byte>, values: seq<int>, code: seq<Byte>, i: nat)
    requires PointerSize(ptr) && 1 <= i <= |names| == |values| && 0 <= values[i - 1] < Capacity(ptr)
    requires LayoutOf(ptr, |names|, |StringTable(names, soname)|, |code|).size <= ARENA
    ensures var l := LayoutOf(ptr, |names|, |StringTable(names, soname)|, |code|);
            var m := Image(ptr, names, soname, values, code);
            var at := l.symOff + i * SymSize(ptr);
      && CString(m, l.strtabOff + Word(m, at, 4)) == Text(names[i - 1])
      && Word(m, at + ptr, ptr) == values[i - 1] && Word(m, at + 2 * ptr, ptr) == |code|
      && Word(m, at + (if ptr == 8 then 4 else 12), 1) == 1 * 16 + 2
      && Word(m, at + (if ptr == 8 then 6 else 14), 2) == 1
  {
    hide Packed, Rows, Word, Strings, Holds, CString, Text, Capacity, EhdrFields, Dynamic, Phdrs, Zeros, SymFields;
    hide WordRows, HashWords, Up8, Image, Sections;
    var m := Image(ptr, names, soname, values, code);
    ImageEmitted(ptr, names, soname, values, code);
    var l := LayoutOf(ptr, |names|, |StringTable(names, soname)|, |code|);
    StringsPrefix(names, i - 1, |names|);
    SymWidths(ptr, names, values, |code|);
    RowAt(m, l.symOff, SymRows(ptr, names, values, |code|), SymSize(ptr), i);
    SymFound(ptr, m, l.symOff + i * SymSize(ptr), names, values, |code|, i);
    NameAt(m, l.strtabOff, names, soname + [0], i - 1);
  }

  /**
   * Over an emitted image with at least one name, the lookup ends and is right for every name: it finds the value
   * of the first listed name the reader sees as `name`, and rejects all others. With no names it runs off the chain.
   */
  lemma LookupFinds(ptr: nat, names: seq<seq<Byte>>, soname: seq<Byte>, values: seq<int>, code: seq<Byte>,
                    name: seq<Byte>, h: nat)
    requires PointerSize(ptr) && |values| == |names|
    requires LayoutOf(ptr, |names|, |StringTable(names, soname)|, |code|).size <= ARENA
    requires forall k :: 0 <= k < |values| ==> 0 <= values[k] < Capacity(ptr)
    ensures var r, m := FirstNamed(names, name, 0), Image(ptr, names, soname, values, code);
      && (Lookup(ptr, m, name, h) == Fault <==> names == [])
      && (names != [] ==> Lookup(ptr, m, name, h) == if r < |names| then Found(values[r]) else Absent)
  {
    hide Image, Rows, Word, Holds, CString, Text, TablesOf, Capacity, HashWords, WordRows, LayoutOf, Linked;
    hide StringTable;
    var m := Image(ptr, names, soname, values, code);
    AllLinked(ptr, names, soname, values, code);
    HashHead(m, TablesOf(ptr, m).hash, |names|);
    assert h % 1 == 0;
    if names != [] {
      WalkFinds(ptr, m, TablesOf(ptr, m), names, values, name, 1, |names| + 1);
    }
  }

  /** With NUL-free names, a listed name is found with the value given for it, and any other name is rejected. */
  lemma ListedNamesAreFound(ptr: nat, names: seq<seq<Byte>>, soname: seq<Byte>, base: int,
                            stValue: (seq<Byte>, int, int) -> int, code: seq<Byte>, name: seq<Byte>, h: nat)
    requires PointerSize(ptr) && names != [] && forall k :: 0 <= k < |names| ==> NulFree(names[k])
    requires LayoutOf(ptr, |names|, |StringTable(names, soname)|, |code|).size <= ARENA
    requires var codeOff := LayoutOf(ptr, |names|, |StringTable(names, soname)|, |code|).codeOff;
      forall k :: 0 <= k < |names| ==> 0 <= stValue(names[k], base, codeOff) < Capacity(ptr)
    ensures var codeOff := LayoutOf(ptr, |names|, |StringTable(names, soname)|, |code|).codeOff;
            var m := Image(ptr, names, soname, Values(names, base, codeOff, stValue), code);
      Lookup(ptr, m, name, h) == if name in names then Found(stValue(name, base, codeOff)) else Absent
  {
    hide Image, Capacity, Lookup, LayoutOf, StringTable, Text, NulFree;
    var codeOff := LayoutOf(ptr, |names|, |StringTable(names, soname)|, |code|).codeOff;
    LookupFinds(ptr, names, soname, Values(names, base, codeOff, stValue), code, name, h);
    forall k | 0 <= k < |names|
      ensures Text(names[k]) == names[k]
    {
      TextOfNulFree(names[k]);
    }
  }
}
