/** AArch64 arguments: marshalled for a native call, and read back from registers, stack or a va_list. */
module CallConv64 {
  import opened Bytes
  import opened Common

  const WORD := 0x1_0000_0000
  const DOUBLE := 0x1_0000_0000_0000_0000

  /** X0-X7 and Q0-Q7, the mapped stack memory from address `bottom` on, and the stack pointer. */
  datatype Cpu = Cpu(x: seq<int>, q: seq<int>, memory: seq<Byte>, bottom: int, sp: int)

  predicate Shaped(c: Cpu) { |c.x| == 8 && |c.q| == 8 }

  /** The word at an address; -1 stands for a guest fault. */
  function At(c: Cpu, address: int, n: nat): int { Word(c.memory, address - c.bottom, n) }

  // ------------------------------------------------------------------ the register reader

  datatype Cursor = Cursor(gp: nat, fp: nat, stack: int)

  /** Reading one argument; `isReal` asks for a floating-point one, whose bits are returned. */
  function ReadOne(c: Cpu, k: Cursor, isReal: bool): (int, Cursor)
    requires Shaped(c)
  {
    if isReal then
      if k.fp < 8 then (c.q[k.fp] % DOUBLE, k.(fp := k.fp + 1))
      else (At(c, k.stack, 8), k.(stack := k.stack + 8))
    else if k.gp < 8 then (c.x[k.gp], k.(gp := k.gp + 1))
    else (At(c, k.stack, 8), k.(stack := k.stack + 8))
  }

  function ReadAll(c: Cpu, k: Cursor, kinds: seq<bool>): (r: seq<int>)
    requires Shaped(c)
    ensures |r| == |kinds|
    decreases |kinds|
  {
    if kinds == [] then []
    else var (v, next) := ReadOne(c, k, kinds[0]); [v] + ReadAll(c, next, kinds[1..])
  }

  class RegisterArgs {
    const cpu: Cpu
    var gp: nat
    var fp: nat
    var stack: int

    function Now(): Cursor
      reads this
    {
      Cursor(gp, fp, stack)
    }

    constructor (cpu: Cpu, start: nat)
      requires Shaped(cpu) && start <= 8
      ensures this.cpu == cpu && Now() == Cursor(start, 0, cpu.sp)
    {
      this.cpu, gp, fp, stack := cpu, start, 0, cpu.sp;
    }

    method Integer() returns (v: int)
      requires Shaped(cpu)
      modifies this
      ensures (v, Now()) == ReadOne(cpu, old(Now()), false)
    {
      if gp < 8 {
        v := cpu.x[gp];
        gp := gp + 1;
        return;
      }
      v := At(cpu, stack, 8);
      stack := stack + 8;
    }

    method Real() returns (bits: int)
      requires Shaped(cpu)
      modifies this
      ensures (bits, Now()) == ReadOne(cpu, old(Now()), true)
    {
      if fp < 8 {
        bits := cpu.q[fp] % DOUBLE;
        fp := fp + 1;
      } else {
        bits := At(cpu, stack, 8);
        stack := stack + 8;
      }
    }
  }

  // ------------------------------------------------------------------ the va_list reader

  /** The five fields of a va_list; the offsets are negative while saved registers remain. */
  datatype VaList = VaList(stack: int, grTop: int, vrTop: int, gr: int, vr: int)

  function Signed(w: int): int { if w >= WORD / 2 then w - WORD else w }

  /** The structure stored at `at`. */
  function VaListAt(c: Cpu, at: int): VaList {
    VaList(At(c, at, 8), At(c, at + 8, 8), At(c, at + 16, 8), Signed(At(c, at + 24, 4)), Signed(At(c, at + 28, 4)))
  }

  function VaOne(c: Cpu, s: VaList, isReal: bool): (int, VaList) {
    if isReal then
      if s.vr < 0 then (At(c, s.vrTop + s.vr, 8), s.(vr := s.vr + 16))
      else (At(c, s.stack, 8), s.(stack := s.stack + 8))
    else if s.gr < 0 then (At(c, s.grTop + s.gr, 8), s.(gr := s.gr + 8))
    else (At(c, s.stack, 8), s.(stack := s.stack + 8))
  }

  function VaAll(c: Cpu, s: VaList, kinds: seq<bool>): (r: seq<int>)
    ensures |r| == |kinds|
    decreases |kinds|
  {
    if kinds == [] then [] else var (v, next) := VaOne(c, s, kinds[0]); [v] + VaAll(c, next, kinds[1..])
  }

  class VaListArgs {
    const cpu: Cpu
    var stack: int
    var grTop: int
    var vrTop: int
    var gr: int
    var vr: int

    function Now(): VaList
      reads this
    {
      VaList(stack, grTop, vrTop, gr, vr)
    }

    constructor (cpu: Cpu, at: int)
      ensures this.cpu == cpu && Now() == VaListAt(cpu, at)
    {
      this.cpu := cpu;
      stack, grTop, vrTop := At(cpu, at, 8), At(cpu, at + 8, 8), At(cpu, at + 16, 8);
      gr, vr := Signed(At(cpu, at + 24, 4)), Signed(At(cpu, at + 28, 4));
    }

    method Integer() returns (v: int)
      modifies this
      ensures (v, Now()) == VaOne(cpu, old(Now()), false)
    {
      if gr < 0 {
        v := At(cpu, grTop + gr, 8);
        gr := gr + 8;
      } else {
        v := At(cpu, stack, 8);
        stack := stack + 8;
      }
    }

    method Real() returns (bits: int)
      modifies this
      ensures (bits, Now()) == VaOne(cpu, old(Now()), true)
    {
      if vr < 0 {
        bits := At(cpu, vrTop + vr, 8);
        vr := vr + 16;
      } else {
        bits := At(cpu, stack, 8);
        stack := stack + 8;
      }
    }
  }

  /** What va_start leaves after `k`: the registers not yet used saved downwards from the two tops. */
  ghost predicate Started(c: Cpu, k: Cursor, s: VaList) {
    && Shaped(c) && k.gp <= 8 && k.fp <= 8
    && s.stack == k.stack && s.gr == -8 * (8 - k.gp) && s.vr == -16 * (8 - k.fp)
    && (forall i {:trigger c.x[i]} :: k.gp <= i < 8 ==> At(c, s.grTop - 8 * (8 - i), 8) == c.x[i])
    && (forall i {:trigger c.q[i]} :: k.fp <= i < 8 ==> At(c, s.vrTop - 16 * (8 - i), 8) == c.q[i] % DOUBLE)
  }

  /** On every argument list the va_list reader returns what the register reader returns. */
  lemma {:induction false} ReadersAgree(c: Cpu, k: Cursor, s: VaList, kinds: seq<bool>)
    requires Started(c, k, s)
    ensures VaAll(c, s, kinds) == ReadAll(c, k, kinds)
    decreases |kinds|
  {
    hide Word;
    if kinds != [] {
      ReadersAgree(c, ReadOne(c, k, kinds[0]).1, VaOne(c, s, kinds[0]).1, kinds[1..]);
    }
  }

  /** The bytes of a va_list with these fields, offsets in two's complement. */
  function Stored(s: VaList): seq<Byte> {
    LittleEndian(s.stack, 8) + LittleEndian(s.grTop, 8) + LittleEndian(s.vrTop, 8)
    + LittleEndian(s.gr, 4) + LittleEndian(s.vr, 4)
  }

  lemma VaListRead(c: Cpu, at: int, s: VaList)
    requires Holds(c.memory, at - c.bottom, Stored(s))
    requires 0 <= s.stack < DOUBLE && 0 <= s.grTop < DOUBLE && 0 <= s.vrTop < DOUBLE
    requires -WORD / 2 <= s.gr < WORD / 2 && -WORD / 2 <= s.vr < WORD / 2
    ensures VaListAt(c, at) == s
  {
    hide Capacity, LittleEndian, Word, Holds;
    WordSizes();
    SmallMod(s.stack, DOUBLE);
    SmallMod(s.grTop, DOUBLE);
    SmallMod(s.vrTop, DOUBLE);
    SignedWord(s.gr);
    SignedWord(s.vr);
    hide Signed;
    var m, o := c.memory, at - c.bottom;
    FieldsHeld(m, o, LittleEndian(s.stack, 8), LittleEndian(s.grTop, 8), LittleEndian(s.vrTop, 8),
               LittleEndian(s.gr, 4), LittleEndian(s.vr, 4));
    HeldWord(m, o, s.stack, 8);
    HeldWord(m, o + 8, s.grTop, 8);
    HeldWord(m, o + 16, s.vrTop, 8);
    HeldWord(m, o + 24, s.gr, 4);
    HeldWord(m, o + 28, s.vr, 4);
  }

  lemma SignedWord(v: int)
    requires -WORD / 2 <= v < WORD / 2
    ensures Signed(v % WORD) == v
  {
  }

  lemma FieldsHeld(m: seq<Byte>, at: int, a: seq<Byte>, b: seq<Byte>, c: seq<Byte>, d: seq<Byte>, e: seq<Byte>)
    requires Holds(m, at, a + b + c + d + e) && |a| == |b| == |c| == 8 && |d| == |e| == 4
    ensures Holds(m, at, a) && Holds(m, at + 8, b) && Holds(m, at + 16, c) && Holds(m, at + 24, d)
            && Holds(m, at + 28, e)
  {
    hide Holds;
    var s := a + b + c + d + e;
    PartHeld(m, at, s, 0, a);
    PartHeld(m, at, s, 8, b);
    PartHeld(m, at, s, 16, c);
    PartHeld(m, at, s, 24, d);
    PartHeld(m, at, s, 28, e);
  }

  // ------------------------------------------------------------------ marshalling

  /** How many of the first `n` arguments are floating-point, or not. */
  function Count(kinds: seq<bool>, isReal: bool, n: nat): (r: nat)
    requires n <= |kinds|
    ensures r <= n
  {
    if n == 0 then 0 else Count(kinds, isReal, n - 1) + if kinds[n - 1] == isReal then 1 else 0
  }

  /** Six integer registers are left after the two implicit arguments, and eight floating-point ones. */
  function Registers(isReal: bool): nat { if isReal then 8 else 6 }

  /** The stack words of the first `n` arguments. Values are bit patterns, masked to 64 bits. */
  function Spilled(kinds: seq<bool>, values: seq<int>, n: nat): (r: seq<int>)
    requires n <= |kinds| && n <= |values|
    ensures |r| <= n && forall j :: 0 <= j < |r| ==> 0 <= r[j] < DOUBLE
  {
    if n == 0 then []
    else
      var before := Spilled(kinds, values, n - 1);
      if Count(kinds, kinds[n - 1], n - 1) < Registers(kinds[n - 1]) then before else before + [values[n - 1] % DOUBLE]
  }

  /** Argument `i` is in its register, or among the spilled words. */
  predicate Placed(x: seq<int>, q: seq<int>, stack: seq<int>, kinds: seq<bool>, values: seq<int>, i: nat)
    requires |x| == 8 && |q| == 8 && i < |kinds| && i < |values|
  {
    var k, j := Count(kinds, kinds[i], i), |Spilled(kinds, values, i)|;
    if k >= Registers(kinds[i]) then j < |stack| && stack[j] == values[i] % DOUBLE
    else if kinds[i] then q[k] == values[i] % DOUBLE
    else x[2 + k] == values[i] % DOUBLE
  }

  predicate AllPlaced(x: seq<int>, q: seq<int>, stack: seq<int>, kinds: seq<bool>, values: seq<int>, n: nat)
    requires |x| == 8 && |q| == 8 && n <= |kinds| && n <= |values|
  {
    forall i :: 0 <= i < n ==> Placed(x, q, stack, kinds, values, i)
  }

  lemma {:induction false} CountGrows(kinds: seq<bool>, isReal: bool, i: nat, n: nat)
    requires i < n <= |kinds|
    ensures Count(kinds, isReal, i) + (if kinds[i] == isReal then 1 else 0) <= Count(kinds, isReal, n)
  {
    if i < n - 1 {
      CountGrows(kinds, isReal, i, n - 1);
    }
  }

  lemma {:induction false} SpilledGrows(kinds: seq<bool>, values: seq<int>, i: nat, n: nat)
    requires i <= n <= |kinds| && n <= |values|
    ensures Spilled(kinds, values, i) <= Spilled(kinds, values, n)
  {
    if i < n {
      SpilledGrows(kinds, values, i, n - 1);
    }
  }

  /** Placing argument `n` leaves the earlier ones where they are. */
  lemma StillPlaced(x: seq<int>, q: seq<int>, kinds: seq<bool>, values: seq<int>, i: nat, n: nat, v: int)
    requires |x| == 8 && |q| == 8 && i < n < |kinds| && n < |values|
    requires Placed(x, q, Spilled(kinds, values, n), kinds, values, i)
    ensures var k := Count(kinds, kinds[n], n);
      && (kinds[n] && k < 8 ==> Placed(x, q[k := v], Spilled(kinds, values, n + 1), kinds, values, i))
      && (!kinds[n] && k < 6 ==> Placed(x[2 + k := v], q, Spilled(kinds, values, n + 1), kinds, values, i))
      && (k >= Registers(kinds[n]) ==> Placed(x, q, Spilled(kinds, values, n + 1), kinds, values, i))
  {
    CountGrows(kinds, kinds[i], i, n);
    SpilledGrows(kinds, values, n, n + 1);
    hide Count;
  }

  /** Argument `n` in its register or on the stack, and the earlier ones where they were. */
  lemma OneMorePlaced(x: seq<int>, q: seq<int>, kinds: seq<bool>, values: seq<int>, n: nat)
    requires |x| == 8 && |q| == 8 && n < |kinds| && n < |values|
    requires AllPlaced(x, q, Spilled(kinds, values, n), kinds, values, n)
    ensures var k, stack, v := Count(kinds, kinds[n], n), Spilled(kinds, values, n + 1), values[n] % DOUBLE;
      && (kinds[n] && k < 8 ==> AllPlaced(x, q[k := v], stack, kinds, values, n + 1))
      && (!kinds[n] && k < 6 ==> AllPlaced(x[2 + k := v], q, stack, kinds, values, n + 1))
      && (k >= Registers(kinds[n]) ==> AllPlaced(x, q, stack, kinds, values, n + 1))
  {
    var k, stack, v := Count(kinds, kinds[n], n), Spilled(kinds, values, n + 1), values[n] % DOUBLE;
    var x' := if !kinds[n] && k < 6 then x[2 + k := v] else x;
    var q' := if kinds[n] && k < 8 then q[k := v] else q;
    assert Placed(x', q', stack, kinds, values, n);
    hide Count, Spilled, Placed;
    forall i | 0 <= i < n
      ensures Placed(x', q', stack, kinds, values, i)
    {
      StillPlaced(x, q, kinds, values, i, n, v);
    }
    assert AllPlaced(x', q', stack, kinds, values, n + 1);
  }

  lemma FirstPlaced(x: seq<int>, q: seq<int>, stack: seq<int>, kinds: seq<bool>, values: seq<int>, n: nat)
    requires |x| == 8 && |q| == 8 && 0 < n <= |kinds| && n <= |values| && AllPlaced(x, q, stack, kinds, values, n)
    ensures (if kinds[0] then q[0] else x[2]) == values[0] % DOUBLE
  {
    assert Placed(x, q, stack, kinds, values, 0);
  }

  lemma NonePlaced(x: seq<int>, q: seq<int>, kinds: seq<bool>, values: seq<int>)
    requires |x| == 8 && |q| == 8
    ensures AllPlaced(x, q, [], kinds, values, 0)
  {
  }

  class Emulator64 {
    const bottom: int
    var x: seq<int>
    var q: seq<int>
    var memory: seq<Byte>
    var sp: int

    function Now(): Cpu
      reads this
    {
      Cpu(x, q, memory, bottom, sp)
    }

    predicate Valid()
      reads this
    {
      |x| == 8 && |q| == 8 && sp <= bottom + |memory|
    }

    constructor (c: Cpu)
      requires Shaped(c) && c.sp <= c.bottom + |c.memory|
      ensures Valid() && Now() == c
    {
      bottom, x, q, memory, sp := c.bottom, c.x, c.q, c.memory, c.sp;
    }

    /** The stack words go below the stack pointer, 16-aligned; writing to unmapped memory is a fault. */
    method WriteStack(stack: seq<int>) returns (ok: bool)
      requires Valid()
      modifies this`memory, this`sp
      ensures Valid()
      ensures ok <==> stack == [] || Down16(old(sp) - 8 * |stack|) >= bottom
      ensures stack == [] || !ok ==> Now() == old(Now())
      ensures ok && stack != [] ==>
                && sp == Down16(old(sp) - 8 * |stack|) && Holds(memory, sp - bottom, Rows(WordRows(stack, 8), |stack|))
                && SameFrom(old(memory), memory, old(sp) - bottom)
    {
      ok := true;
      if stack != [] {
        var at := Down16(sp - 8 * |stack|);
        if at < bottom {
          return false;
        }
        WriteWords(at - bottom, stack, sp - bottom);
        sp := at;
      }
    }

    method WriteWords(at: int, words: seq<int>, ghost above: int)
      requires 0 <= at && at + 8 * |words| <= above <= |memory|
      modifies this`memory
      ensures Holds(memory, at, Rows(WordRows(words, 8), |words|)) && SameFrom(old(memory), memory, above)
    {
      hide Holds, Write, Rows, WordRows, LittleEndian, SameFrom;
      EmptyTable(memory, at, WordRows(words, 8), above);
      for i := 0 to |words|
        invariant Holds(memory, at, Rows(WordRows(words, 8), i)) && SameFrom(old(memory), memory, above)
      {
        TableStep(old(memory), memory, at, words, 8, i, above);
        memory := Write(memory, at + 8 * i, LittleEndian(words[i], 8));
      }
    }

    /** Arguments beyond the shorter of the two lists are not marshalled. */
    method MarshalNative(jni: int, receiver: int, kinds: seq<bool>, values: seq<int>) returns (ok: bool)
      requires Valid()
      modifies this
      ensures Valid() && x[0] == jni && x[1] == receiver % DOUBLE
      ensures var n := Min(|kinds|, |values|);
              var stack := Spilled(kinds, values, n);
        && (ok <==> stack == [] || Down16(old(sp) - 8 * |stack|) >= bottom)
        && (ok ==> Carried(Now(), kinds, values, n))
        // The first argument is in x2, or in v0 if it is a floating-point one; a reader gets every value back.
        && (n > 0 ==> (if kinds[0] then q[0] else x[2]) == values[0] % 0x1_0000_0000_0000_0000)
        && (ok ==> forall i :: 0 <= i < n ==>
              ReadAll(Now(), Cursor(2, 0, sp), kinds[..n])[i] == values[i] % 0x1_0000_0000_0000_0000)
        && (stack == [] || !ok ==> sp == old(sp) && memory == old(memory))
        && (ok && stack != [] ==>
              sp == Down16(old(sp) - 8 * |stack|) && SameFrom(old(memory), memory, old(sp) - bottom))
    {
      hide Carried, Holds, Rows, WordRows, SameFrom, Down16, AllPlaced, ReadAll;
      x := x[0 := jni][1 := receiver % DOUBLE];
      NonePlaced(x, q, kinds, values);
      var gpIndex, fpIndex, stack: seq<int> := 0, 0, [];
      var n := Min(|kinds|, |values|);
      for i := 0 to n
        invariant Valid() && sp == old(sp) && memory == old(memory) && x[0] == jni && x[1] == receiver % DOUBLE
        invariant gpIndex == Min(Count(kinds, false, i), 6) && fpIndex == Min(Count(kinds, true, i), 8)
        invariant stack == Spilled(kinds, values, i)
        invariant AllPlaced(x, q, stack, kinds, values, i)
      {
        var bits := values[i] % DOUBLE;
        OneMorePlaced(x, q, kinds, values, i);
        if kinds[i] {
          if fpIndex < 8 {
            q := q[fpIndex := bits];
            fpIndex := fpIndex + 1;
          } else {
            stack := stack + [bits];
          }
        } else {
          if gpIndex < 6 {
            x := x[2 + gpIndex := bits];
            gpIndex := gpIndex + 1;
          } else {
            stack := stack + [bits];
          }
        }
      }
      if n > 0 {
        FirstPlaced(x, q, stack, kinds, values, n);
      }
      ok := WriteStack(stack);
      if ok {
        AllCarried(Now(), stack, kinds, values, n);
        MarshalledReadsBack(Now(), kinds, values);
      }
    }
  }

  function Down16(y: int): (r: int)
    ensures y - 16 < r <= y && r % 16 == 0
  {
    y - y % 16
  }

  /** Where the register reader is after the first `i` arguments. */
  function CursorAt(c: Cpu, kinds: seq<bool>, values: seq<int>, i: nat): Cursor
    requires i <= |kinds| && i <= |values|
  {
    Cursor(2 + Min(Count(kinds, false, i), 6), Min(Count(kinds, true, i), 8), c.sp + 8 * |Spilled(kinds, values, i)|)
  }

  /** The reader meets each of the first `n` arguments where it was put. */
  ghost predicate Carried(c: Cpu, kinds: seq<bool>, values: seq<int>, n: nat)
    requires n <= |kinds| && n <= |values|
  {
    Shaped(c) && forall i :: 0 <= i < n ==> Found(c, kinds, values, i)
  }

  predicate Found(c: Cpu, kinds: seq<bool>, values: seq<int>, i: nat)
    requires i < |kinds| && i < |values| && Shaped(c)
  {
    var k := Count(kinds, kinds[i], i);
    if k >= Registers(kinds[i]) then At(c, c.sp + 8 * |Spilled(kinds, values, i)|, 8) == values[i] % DOUBLE
    else if kinds[i] then c.q[k] == values[i] % DOUBLE
    else c.x[2 + k] == values[i] % DOUBLE
  }

  lemma AllCarried(c: Cpu, stack: seq<int>, kinds: seq<bool>, values: seq<int>, n: nat)
    requires n <= |kinds| && n <= |values| && Shaped(c) && stack == Spilled(kinds, values, n)
    requires AllPlaced(c.x, c.q, stack, kinds, values, n)
    requires stack != [] ==> Holds(c.memory, c.sp - c.bottom, Rows(WordRows(stack, 8), |stack|))
    ensures Carried(c, kinds, values, n)
  {
    hide Rows, WordRows, Word, Holds, Count;
    WordSizes();
    forall i | 0 <= i < n
      ensures Found(c, kinds, values, i)
    {
      assert Placed(c.x, c.q, stack, kinds, values, i);
      if Count(kinds, kinds[i], i) >= Registers(kinds[i]) {
        var j := |Spilled(kinds, values, i)|;
        WordAt(c.memory, c.sp - c.bottom, stack, 8, j);
        SmallMod(stack[j], DOUBLE);
      }
    }
  }

  function AllBits(values: seq<int>): (r: seq<int>)
    ensures |r| == |values| && forall i :: 0 <= i < |r| ==> r[i] == values[i] % DOUBLE
  {
    seq(|values|, i requires 0 <= i < |values| => values[i] % DOUBLE)
  }

  /** From argument `i` on, the register reader returns the bits that were marshalled. */
  lemma {:induction false} ReadsBack(c: Cpu, kinds: seq<bool>, values: seq<int>, n: nat, i: nat)
    requires i <= n <= |kinds| && n <= |values| && Shaped(c) && Carried(c, kinds, values, n)
    ensures ReadAll(c, CursorAt(c, kinds, values, i), kinds[i..n]) == AllBits(values)[i..n]
    decreases n - i
  {
    if i < n {
      ReadsOne(c, kinds, values, i);
      ReadsBack(c, kinds, values, n, i + 1);
      hide ReadOne, CursorAt, Carried;
      assert kinds[i..n][0] == kinds[i] && kinds[i..n][1..] == kinds[i + 1..n];
      var all := AllBits(values);
      assert all[i..n] == [all[i]] + all[i + 1..n];
    }
  }

  /** A register reader started after the two implicit arguments returns each value's 64 bits, in order. */
  lemma MarshalledReadsBack(c: Cpu, kinds: seq<bool>, values: seq<int>)
    requires Shaped(c) && Carried(c, kinds, values, Min(|kinds|, |values|))
    ensures var n := Min(|kinds|, |values|);
            forall i :: 0 <= i < n ==>
              ReadAll(c, Cursor(2, 0, c.sp), kinds[..n])[i] == values[i] % 0x1_0000_0000_0000_0000
  {
    hide ReadAll, Carried;
    var n := Min(|kinds|, |values|);
    ReadsBack(c, kinds, values, n, 0);
    assert kinds[0..n] == kinds[..n] && AllBits(values)[0..n] == AllBits(values)[..n];
  }

  lemma ReadsOne(c: Cpu, kinds: seq<bool>, values: seq<int>, i: nat)
    requires i < |kinds| && i < |values| && Shaped(c) && Found(c, kinds, values, i)
    ensures ReadOne(c, CursorAt(c, kinds, values, i), kinds[i])
            == (values[i] % DOUBLE, CursorAt(c, kinds, values, i + 1))
  {
    hide Word;
  }
}
