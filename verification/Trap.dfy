/** Trampoline slots: `svc #imm; ret` pairs in one guest page, each bound to a host handler. */
module Trap {
  import opened Common

  const TRAMPOLINE_BASE := 0x6000_0000
  const STRIDE := 8
  const MAX_SLOTS := 0x1000 / 8

  datatype Arch = Arm64 | Arm32

  type Word = w: int | 0 <= w < 0x1_0000_0000

  // The immediate occupies bits 5..20 of an A64 svc and bits 0..23 of an A32 one; the source combines and
  // extracts it with `|`, `<<`, `>>` and masks, which on these disjoint bit fields is the arithmetic below.

  function EncodeSvc(arch: Arch, imm: int): (w: Word)
    requires 0 <= imm < 0x1_0000
  {
    if arch.Arm64? then 0xD400_0001 + imm * 0x20 else 0xEF00_0000 + imm
  }

  function DecodeSvc(arch: Arch, w: Word): (r: Option<int>)
    ensures r.Some? ==> r.value >= 0
  {
    if arch.Arm64? then
      if w / 0x20_0000 == 0x6A0 && w % 0x20 == 1 then Some(w / 0x20 % 0x1_0000) else None
    else if w / 0x100_0000 == 0xEF then Some(w % 0x100_0000) else None
  }

  function RetInstruction(arch: Arch): Word {
    if arch.Arm64? then 0xD65F_03C0 else 0xE12F_FF1E
  }

  function DecodeThumb(half: Word): (r: Option<int>)
    ensures r.Some? ==> r.value >= 0
  {
    if half / 0x100 == 0xDF then Some(half % 0x100) else None
  }

  /** The instruction is an svc with this number: its fixed bits, and the number in the immediate field. */
  predicate Carries(arch: Arch, thumb: bool, w: Word, imm: int) {
    if thumb then 0 <= imm < 0x100 && w == 0xDF00 + imm  // 1101_1111 imm8
    else if arch.Arm64? then 0 <= imm < 0x1_0000 && w == 0xD400_0000 + imm * 0x20 + 1  // 1101_0100_000 imm16 00001
    else 0 <= imm < 0x100_0000 && w == 0xE000_0000 + 0xF00_0000 + imm  // condition AL, 1111, imm24
  }

  lemma DecodedCarries(arch: Arch, thumb: bool, w: Word)
    ensures forall imm :: Carries(arch, thumb, w, imm) <==>
              (if thumb then DecodeThumb(w) else DecodeSvc(arch, w)) == Some(imm)
  {
    if !thumb && arch.Arm64? {
      assert w == 0x20_0000 * (w / 0x20_0000) + w % 0x20_0000;
      assert w / 0x20 == 0x1_0000 * (w / 0x20_0000) + w / 0x20 % 0x1_0000;
    }
  }

  /** Both architectures return through the link register: RET X30, and BX LR under every condition. */
  lemma ReturnsThroughLink()
    ensures var w := RetInstruction(Arm64); w / 0x400 == 0x3597C0 && w / 0x20 % 0x20 == 30 && w % 0x20 == 0
    ensures var w := RetInstruction(Arm32);
            w / 0x1000_0000 == 0xE && w / 0x10 % 0x100_0000 == 0x12FFF1 && w % 0x10 == 14
  {
  }

  /** The immediate survives encoding, and a return instruction is never taken for a trap. */
  lemma SvcRoundTrip(arch: Arch, imm: int)
    requires 0 <= imm < 0x1_0000
    ensures DecodeSvc(arch, EncodeSvc(arch, imm)) == Some(imm)
    ensures DecodeSvc(arch, RetInstruction(arch)) == None
  {
    if arch.Arm64? {
      var w := EncodeSvc(arch, imm);
      assert w / 0x20 == 0x6A0_0000 + imm && w % 0x20 == 1;
      assert w / 0x20_0000 == (w / 0x20) / 0x1_0000;
    }
  }

  function Address(imm: int): int { TRAMPOLINE_BASE + (imm - 1) * STRIDE }

  function ImmOf(a: int): int { (a - TRAMPOLINE_BASE) / STRIDE + 1 }

  lemma AddressFacts()
    ensures forall i :: ImmOf(Address(i)) == i
    ensures forall i, j :: Address(i) == Address(j) ==> i == j
    ensures forall i, j :: Address(i) != Address(j) + 4
    ensures forall i :: i >= 1 ==> Address(i) > 0
  {
  }

  lemma OffsetImm(a: int)
    requires a >= TRAMPOLINE_BASE && (a - TRAMPOLINE_BASE) % STRIDE == 0
    ensures Address(ImmOf(a)) == a
  {
  }

  lemma AddressOffset(imm: int)
    requires imm >= 1
    ensures Address(imm) >= TRAMPOLINE_BASE && (Address(imm) - TRAMPOLINE_BASE) % STRIDE == 0
  {
  }

  /** Every stride of the page is the address of one slot, and no slot lies elsewhere. */
  lemma PageOfSlots(a: int)
    ensures TRAMPOLINE_BASE <= a && a + STRIDE <= TRAMPOLINE_BASE + PAGE && (a - TRAMPOLINE_BASE) % STRIDE == 0
            <==> exists imm :: 1 <= imm <= MAX_SLOTS && Address(imm) == a
  {
    if TRAMPOLINE_BASE <= a && a + STRIDE <= TRAMPOLINE_BASE + PAGE && (a - TRAMPOLINE_BASE) % STRIDE == 0 {
      OffsetImm(a);
      assert 1 <= ImmOf(a) <= MAX_SLOTS;
    }
  }

  type Slots<H> = seq<Option<H>>

  ghost predicate Live<H>(slots: Slots<H>, imm: int) { 1 <= imm < |slots| && slots[imm].Some? }

  /** The free list holds each empty slot exactly once. */
  ghost predicate FreeListed<H>(slots: Slots<H>, freeSlots: seq<int>) {
    && (forall i :: 0 <= i < |freeSlots| ==> 1 <= freeSlots[i] < |slots| && slots[freeSlots[i]] == None)
    && (forall i, j :: 0 <= i < j < |freeSlots| ==> freeSlots[i] != freeSlots[j])
    && (forall imm :: 1 <= imm < |slots| && slots[imm] == None ==> imm in freeSlots)
  }

  /** The map from live trampoline addresses to handlers that the slots stand for. */
  ghost predicate Meant<H>(slots: Slots<H>, handlers: map<int, H>) {
    && (forall imm :: Live(slots, imm) ==> Address(imm) in handlers && handlers[Address(imm)] == slots[imm].value)
    && (forall a :: a in handlers ==> Live(slots, ImmOf(a)) && Address(ImmOf(a)) == a)
  }

  ghost predicate Written(arch: Arch, code: map<int, Word>, imm: int) {
    && 0 <= imm < 0x1_0000
    && Address(imm) in code && code[Address(imm)] == EncodeSvc(arch, imm)
    && Address(imm) + 4 in code && code[Address(imm) + 4] == RetInstruction(arch)
  }

  ghost predicate AllWritten<H>(arch: Arch, slots: Slots<H>, code: map<int, Word>) {
    forall imm :: Live(slots, imm) ==> Written(arch, code, imm)
  }

  lemma FreeListedPop<H>(slots: Slots<H>, freeSlots: seq<int>, h: H)
    requires FreeListed(slots, freeSlots) && freeSlots != []
    ensures var n := |freeSlots| - 1;
      1 <= freeSlots[n] < |slots| && FreeListed(slots[freeSlots[n] := Some(h)], freeSlots[..n])
  {
    var n := |freeSlots| - 1;
    var after, rest := slots[freeSlots[n] := Some(h)], freeSlots[..n];
    forall imm | 1 <= imm < |after| && after[imm] == None ensures imm in rest {
      var k :| 0 <= k < |freeSlots| && freeSlots[k] == imm;
      assert rest[k] == imm;
    }
  }

  lemma FreeListedPush<H>(slots: Slots<H>, freeSlots: seq<int>, imm: int)
    requires FreeListed(slots, freeSlots) && Live(slots, imm)
    ensures FreeListed(slots[imm := None], freeSlots + [imm])
  {
    var after, list := slots[imm := None], freeSlots + [imm];
    assert list[|freeSlots|] == imm;
    forall k | 1 <= k < |after| && after[k] == None ensures k in list {
      if k != imm {
        assert k in freeSlots;
      }
    }
  }

  lemma FreeListedGrow<H>(slots: Slots<H>, h: H)
    requires FreeListed(slots, [])
    ensures FreeListed(slots + [Some(h)], [])
  {
    var after := slots + [Some(h)];
    forall k | 1 <= k < |after| ensures after[k] != None {
      if k < |slots| { assert slots[k] != None; }
    }
  }

  lemma MeantSet<H>(slots: Slots<H>, handlers: map<int, H>, after: Slots<H>, imm: int, h: H)
    requires Meant(slots, handlers) && 1 <= imm < |after| && !Live(slots, imm) && after[imm] == Some(h)
    requires forall k :: k != imm ==> (Live(after, k) <==> Live(slots, k)) && (Live(slots, k) ==> after[k] == slots[k])
    ensures Address(imm) !in handlers && Meant(after, handlers[Address(imm) := h])
  {
    hide Address, ImmOf;
    AddressFacts();
  }

  lemma MeantClear<H>(slots: Slots<H>, handlers: map<int, H>, imm: int)
    requires Meant(slots, handlers) && Live(slots, imm)
    ensures Meant(slots[imm := None], handlers - {Address(imm)})
  {
    hide Address, ImmOf;
    AddressFacts();
  }

  lemma WrittenSet<H>(arch: Arch, slots: Slots<H>, code: map<int, Word>, after: Slots<H>, imm: int)
    requires AllWritten(arch, slots, code) && 1 <= imm < 0x1_0000
    requires forall k :: k != imm && Live(after, k) ==> Live(slots, k)
    ensures var a := Address(imm);
            AllWritten(arch, after, code[a := EncodeSvc(arch, imm)][a + 4 := RetInstruction(arch)])
  {
    hide Address, ImmOf, EncodeSvc;
    AddressFacts();
  }

  datatype Dispatched<H> = Syscall | Run(handler: H) | UnexpectedInterrupt | MissingSlot

  /** `handlers` is what the slots mean: the live trampoline addresses and what they run. */
  class SvcTrap<H(0)> {
    const arch: Arch
    var slots: Slots<H>
    var freeSlots: seq<int>
    var code: map<int, Word>
    ghost var handlers: map<int, H>

    ghost predicate Valid()
      reads this
    {
      && 1 <= |slots| <= MAX_SLOTS + 1 && slots[0] == None
      && FreeListed(slots, freeSlots) && Meant(slots, handlers) && AllWritten(arch, slots, code)
    }

    constructor (machine: Arch)
      ensures Valid() && handlers == map[] && arch == machine
    {
      arch := machine;
      slots, freeSlots, code, handlers := [None], [], map[], map[];
    }

    /** A new trampoline is distinct from every live one; allocation fails only when all slots are live. */
    method AllocSlot(handler: H) returns (r: Option<int>)
      requires Valid()
      modifies this
      ensures Valid()
      ensures r.Some? ==> r.value !in old(handlers) && r.value > 0 && handlers == old(handlers)[r.value := handler]
      ensures r.Some? ==>
                && TRAMPOLINE_BASE <= r.value <= TRAMPOLINE_BASE + PAGE - STRIDE
                && (r.value - TRAMPOLINE_BASE) % STRIDE == 0
                && r.value + 4 in code && code[r.value + 4] == RetInstruction(arch)
      ensures r == None ==>
                handlers == old(handlers) && forall imm :: 1 <= imm <= MAX_SLOTS ==> Address(imm) in handlers
    {
      hide Address, ImmOf, EncodeSvc, Written;
      ghost var was := slots;
      var imm;
      if freeSlots != [] {
        FreeListedPop(slots, freeSlots, handler);
        var last := |freeSlots| - 1;
        imm := freeSlots[last];
        freeSlots := freeSlots[..last];
        slots := slots[imm := Some(handler)];
      } else {
        imm := |slots|;
        if imm > MAX_SLOTS {
          assert forall k :: 1 <= k <= MAX_SLOTS ==> Live(slots, k);
          return None;
        }
        FreeListedGrow(slots, handler);
        slots := slots + [Some(handler)];
      }
      MeantSet(was, handlers, slots, imm, handler);
      WrittenSet(arch, was, code, slots, imm);
      AddressFacts();
      var addr := Address(imm);
      PageOfSlots(addr);
      code := code[addr := EncodeSvc(arch, imm)][addr + 4 := RetInstruction(arch)];
      handlers := handlers[addr := handler];
      return Some(addr);
    }

    /** Only the address of a live trampoline can be freed. */
    method FreeSlot(addr: int) returns (ok: bool)
      requires Valid()
      modifies this
      ensures Valid()
      ensures ok <==> addr in old(handlers)
      ensures handlers == old(handlers) - {addr}
    {
      hide Address, EncodeSvc, Written, FreeListed;
      assert addr in handlers ==> Live(slots, ImmOf(addr)) && Address(ImmOf(addr)) == addr;
      var offset := addr - TRAMPOLINE_BASE;
      if addr in handlers {
        AddressOffset(ImmOf(addr));
      }
      if offset < 0 || offset % STRIDE != 0 {
        return false;
      }
      OffsetImm(addr);
      var imm := ImmOf(addr);
      if !(1 <= imm < |slots|) || slots[imm] == None {
        return false;
      }
      MeantClear(slots, handlers, imm);
      FreeListedPush(slots, freeSlots, imm);
      slots := slots[imm := None];
      freeSlots := freeSlots + [imm];
      handlers := handlers - {addr};
      return true;
    }

    /**
     * The interrupt taken after the svc of a live trampoline runs exactly that trampoline's handler. `fetched` is the
     * instruction just before `pc`: a word of guest memory, or in Thumb state a halfword.
     */
    method OnInterrupt(pc: int, thumb: bool, fetched: Word) returns (r: Dispatched<H>)
      requires Valid() && (thumb ==> arch.Arm32? && fetched < 0x1_0000)
      requires !thumb && pc - 4 in code ==> fetched == code[pc - 4]
      ensures !thumb && pc - 4 in handlers ==> r == Run(handlers[pc - 4])
      ensures r.Run? ==> exists a :: a in handlers && handlers[a] == r.handler
      // The number in the instruction decides, and an instruction that is no trap is a fault.
      ensures r == UnexpectedInterrupt <==> forall imm :: !Carries(arch, thumb, fetched, imm)
      ensures r == Syscall <==> Carries(arch, thumb, fetched, 0)
      ensures forall imm :: imm > 0 && Carries(arch, thumb, fetched, imm) ==>
                r == if Address(imm) in handlers then Run(handlers[Address(imm)]) else MissingSlot
    {
      hide Address, ImmOf, EncodeSvc, DecodeSvc, FreeListed, Carries;
      if !thumb && pc - 4 in handlers {
        SvcRoundTrip(arch, ImmOf(pc - 4));
      }
      AddressFacts();
      var imm := if thumb then DecodeThumb(fetched) else DecodeSvc(arch, fetched);
      DecodedCarries(arch, thumb, fetched);
      if imm == None {
        return UnexpectedInterrupt;
      }
      if imm.value == 0 {
        return Syscall;
      }
      if imm.value >= |slots| || slots[imm.value] == None {
        assert !Live(slots, imm.value);
        return MissingSlot;
      }
      assert Live(slots, imm.value);
      return Run(slots[imm.value].value);
    }
  }
}
