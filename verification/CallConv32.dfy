/** AArch32 arguments: marshalled for a native call, and read back from registers, stack or a va_list. */
module CallConv32 {
  import opened Bytes
  import opened Common

  const WORD := 0x1_0000_0000
  const DOUBLE := 0x1_0000_0000_0000_0000

  /** Core registers, the mapped stack memory from address `bottom` on, and the stack pointer. */
  datatype Cpu = Cpu(r: seq<int>, memory: seq<Byte>, bottom: int, sp: int)

  /** The word at an address; -1 stands for a guest fault. */
  function At(c: Cpu, address: int, n: nat): int { Word(c.memory, address - c.bottom, n) }

  /** What is marshalled: J and D are two words, every other letter one. Floats are given by their bit patterns. */
  function Bits(wide: bool, value: int): int { if wide then value % DOUBLE else value % WORD }

  function Down8(x: int): (r: int)
    ensures x - 8 < r <= x && r % 8 == 0
  {
    x - x % 8
  }

  // ------------------------------------------------------------------ the register reader

  datatype Cursor = Cursor(core: nat, stack: int)

  function ReadOne(c: Cpu, k: Cursor, wide: bool): (int, Cursor)
    requires |c.r| == 4
  {
    if !wide then
      if k.core < 4 then (c.r[k.core], k.(core := k.core + 1))
      else (At(c, k.stack, 4), k.(stack := k.stack + 4))
    else
      var core := k.core + k.core % 2;
      if core + 2 <= 4 then (c.r[core] + WORD * c.r[core + 1], k.(core := core + 2))
      else (At(c, Up8(k.stack), 8), Cursor(4, Up8(k.stack) + 8))
  }

  function ReadAll(c: Cpu, k: Cursor, kinds: seq<bool>): (r: seq<int>)
    requires |c.r| == 4
    ensures |r| == |kinds|
    decreases |kinds|
  {
    if kinds == [] then []
    else var (v, next) := ReadOne(c, k, kinds[0]); [v] + ReadAll(c, next, kinds[1..])
  }

  class RegisterArgs {
    const cpu: Cpu
    var core: nat
    var stack: int

    predicate Valid()
      reads this
    {
      |cpu.r| == 4 && core <= 4
    }

    constructor (cpu: Cpu, start: nat)
      requires |cpu.r| == 4 && start <= 4
      ensures Valid() && this.cpu == cpu && core == start && stack == cpu.sp
    {
      this.cpu, core, stack := cpu, start, cpu.sp;
    }

    method CoreWord() returns (v: int)
      requires Valid() && core < 4
      modifies this`core
      ensures Valid() && v == cpu.r[old(core)] && core == old(core) + 1
    {
      v := cpu.r[core];
      core := core + 1;
    }

    method Integer(wide: bool) returns (v: int)
      requires Valid()
      modifies this
      ensures Valid() && (v, Cursor(core, stack)) == ReadOne(cpu, old(Cursor(core, stack)), wide)
    {
      if !wide {
        if core < 4 {
          v := CoreWord();
        } else {
          v := At(cpu, stack, 4);
          stack := stack + 4;
        }
        return;
      }
      if core % 2 != 0 {
        core := core + 1;
      }
      if core + 2 <= 4 {
        var lo := CoreWord();
        var hi := CoreWord();
        return lo + WORD * hi;
      }
      core := 4;
      stack := Up8(stack);
      v := At(cpu, stack, 8);
      stack := stack + 8;
    }

    /** Reading one argument after another. */
    method Integers(kinds: seq<bool>) returns (vs: seq<int>)
      requires Valid()
      modifies this
      ensures Valid() && vs == ReadAll(cpu, old(Cursor(core, stack)), kinds)
    {
      hide ReadOne;
      vs := [];
      for i := 0 to |kinds|
        invariant Valid()
                  && vs + ReadAll(cpu, Cursor(core, stack), kinds[i..]) == ReadAll(cpu, old(Cursor(core, stack)), kinds)
      {
        ghost var k := Cursor(core, stack);
        assert kinds[i..][1..] == kinds[i + 1..];
        var v := Integer(kinds[i]);
        assert ReadAll(cpu, k, kinds[i..]) == [v] + ReadAll(cpu, Cursor(core, stack), kinds[i + 1..]);
        vs := vs + [v];
      }
    }
  }

  // ------------------------------------------------------------------ the va_list reader

  function VaOne(c: Cpu, cursor: int, wide: bool): (int, int) {
    if wide then (At(c, Up8(cursor), 8), Up8(cursor) + 8) else (At(c, cursor, 4), cursor + 4)
  }

  function VaAll(c: Cpu, cursor: int, kinds: seq<bool>): (r: seq<int>)
    ensures |r| == |kinds|
    decreases |kinds|
  {
    if kinds == [] then [] else var (v, next) := VaOne(c, cursor, kinds[0]); [v] + VaAll(c, next, kinds[1..])
  }

  class VaListArgs {
    const cpu: Cpu
    var cursor: int

    constructor (cpu: Cpu, start: int)
      ensures this.cpu == cpu && cursor == start
    {
      this.cpu, cursor := cpu, start;
    }

    method Integer(wide: bool) returns (v: int)
      modifies this
      ensures (v, cursor) == VaOne(cpu, old(cursor), wide)
    {
      if wide {
        cursor := Up8(cursor);
        v := At(cpu, cursor, 8);
        cursor := cursor + 8;
        return;
      }
      v := At(cpu, cursor, 4);
      cursor := cursor + 4;
    }
  }

  /** A variadic prologue saved r0-r3 just below the stack arguments: one run of words from sp - 16 up. */
  ghost predicate Saved(c: Cpu) {
    && |c.r| == 4 && (forall i :: 0 <= i < 4 ==> 0 <= c.r[i] < WORD)
    && c.sp % 8 == 0 && c.bottom <= c.sp - 16 && c.sp <= c.bottom + |c.memory|
    && forall i :: 0 <= i < 4 ==> At(c, c.sp - 16 + 4 * i, 4) == c.r[i]
  }

  /** Where the va_list is when the register reader is at `k`. */
  function VaCursor(c: Cpu, k: Cursor): int { if k.core < 4 then c.sp - 16 + 4 * k.core else k.stack }

  predicate InStep(c: Cpu, k: Cursor) { k.core <= 4 && (k.core < 4 ==> k.stack == c.sp) }

  lemma TwoWords(m: seq<Byte>, at: int)
    requires Fits(m, at, 8)
    ensures Word(m, at, 8) == Word(m, at, 4) + WORD * Word(m, at + 4, 4)
  {
    WordSizes();
    hide Capacity, Value;
    assert Slice(m, at, 8) == Slice(m, at, 4) + Slice(m, at + 4, 4);
    ValueConcat(Slice(m, at, 4), Slice(m, at + 4, 4));
  }

  /** One argument: both readers give the same bits and stay in step. */
  lemma SameOne(c: Cpu, k: Cursor, wide: bool)
    requires Saved(c) && InStep(c, k)
    ensures var (v, next) := ReadOne(c, k, wide);
      InStep(c, next) && VaOne(c, VaCursor(c, k), wide) == (v, VaCursor(c, next))
  {
    hide Word;
    if wide && k.core < 4 {
      Aligned(c.sp, k.core);
      var core := k.core + k.core % 2;
      if core < 4 {
        TwoWords(c.memory, c.sp - 16 + 4 * core - c.bottom);
        assert At(c, c.sp - 16 + 4 * core, 4) == c.r[core] && At(c, c.sp - 16 + 4 * (core + 1), 4) == c.r[core + 1];
      }
    }
  }

  lemma Aligned(sp: int, core: nat)
    requires sp % 8 == 0 && core < 4
    ensures Up8(sp - 16 + 4 * core) == sp - 16 + 4 * (core + core % 2) && Up8(sp) == sp
  {
  }

  /** On every argument list the va_list reader returns what the register reader returns. */
  lemma {:induction false} ReadersAgree(c: Cpu, k: Cursor, kinds: seq<bool>)
    requires Saved(c) && InStep(c, k)
    ensures VaAll(c, VaCursor(c, k), kinds) == ReadAll(c, k, kinds)
    decreases |kinds|
  {
    hide Saved, ReadOne, VaOne, VaCursor, InStep;
    if kinds != [] {
      SavedSize(c);
      SameOne(c, k, kinds[0]);
      ReadersAgree(c, ReadOne(c, k, kinds[0]).1, kinds[1..]);
    }
  }

  lemma SavedSize(c: Cpu)
    requires Saved(c)
    ensures |c.r| == 4
  {
  }

  // ------------------------------------------------------------------ marshalling

  /** One word of the argument area, from register 2 on; padding aligns a two-word argument. */
  datatype Slot = Pad | Used(word: int)

  /** The words the first `n` arguments occupy. */
  function Slots(kinds: seq<bool>, values: seq<int>, n: nat): seq<Slot>
    requires n <= |kinds| && n <= |values|
  {
    if n == 0 then []
    else
      var before := Slots(kinds, values, n - 1);
      var v := Bits(kinds[n - 1], values[n - 1]);
      if kinds[n - 1] then before + (if |before| % 2 == 0 then [] else [Pad]) + [Used(v % WORD), Used(v / WORD)]
      else before + [Used(v)]
  }

  /** `slots[i]` is in register 2 + i, or past the registers on the stack. */
  ghost predicate Carried(c: Cpu, slots: seq<Slot>) {
    && |c.r| == 4
    && (forall i :: 0 <= i < |slots| && i < 2 && slots[i].Used? ==> c.r[2 + i] == slots[i].word)
    && (forall i :: 2 <= i < |slots| && slots[i].Used? ==> At(c, c.sp + 4 * (i - 2), 4) == slots[i].word)
    && (|slots| > 2 ==> c.sp % 8 == 0 && c.bottom <= c.sp && c.sp + 4 * (|slots| - 2) <= c.bottom + |c.memory|)
  }

  /** The reader's cursor after the words before slot `n`. */
  function CursorAt(c: Cpu, n: nat): Cursor { if n < 2 then Cursor(2 + n, c.sp) else Cursor(4, c.sp + 4 * (n - 2)) }

  lemma SlotsGrow(kinds: seq<bool>, values: seq<int>, k: nat, n: nat)
    requires k <= n <= |kinds| && n <= |values|
    ensures Slots(kinds, values, k) <= Slots(kinds, values, n)
    decreases n - k
  {
    if k < n {
      SlotsGrow(kinds, values, k, n - 1);
    }
  }

  /** Reading one argument where it was placed gives its bits and moves to the next argument's words. */
  lemma ReadsOne(c: Cpu, kinds: seq<bool>, values: seq<int>, k: nat)
    requires k < |kinds| && k < |values| && Carried(c, Slots(kinds, values, k + 1))
    ensures ReadOne(c, CursorAt(c, |Slots(kinds, values, k)|), kinds[k])
            == (Bits(kinds[k], values[k]), CursorAt(c, |Slots(kinds, values, k + 1)|))
  {
    hide Word;
    var before, after := Slots(kinds, values, k), Slots(kinds, values, k + 1);
    var n, v := |before|, Bits(kinds[k], values[k]);
    if kinds[k] {
      var m := n + n % 2;
      assert after[m] == Used(v % WORD) && after[m + 1] == Used(v / WORD) && |after| == m + 2;
      if m >= 2 {
        StackWide(c, m - 2);
      }
    } else {
      assert after[n] == Used(v);
    }
  }

  lemma StackWide(c: Cpu, j: nat)
    requires c.sp % 8 == 0 && c.bottom <= c.sp && c.sp + 4 * (j + 2) <= c.bottom + |c.memory|
    ensures At(c, c.sp + 4 * j, 8) == At(c, c.sp + 4 * j, 4) + WORD * At(c, c.sp + 4 * (j + 1), 4)
    ensures j % 2 == 0 ==> Up8(c.sp + 4 * j) == c.sp + 4 * j
    ensures j % 2 == 1 ==> Up8(c.sp + 4 * j) == c.sp + 4 * (j + 1)
    ensures j % 2 == 0 && j > 0 ==> Up8(c.sp + 4 * (j - 1)) == c.sp + 4 * j
  {
    Aligning(c.sp, j);
    hide Word, Up8;
    TwoWords(c.memory, c.sp + 4 * j - c.bottom);
  }

  lemma Aligning(sp: int, j: nat)
    requires sp % 8 == 0
    ensures j % 2 == 0 ==> Up8(sp + 4 * j) == sp + 4 * j
    ensures j % 2 == 1 ==> Up8(sp + 4 * j) == sp + 4 * (j + 1)
    ensures j % 2 == 0 && j > 0 ==> Up8(sp + 4 * (j - 1)) == sp + 4 * j
  {
    var q, t := sp / 8, j / 2;
    assert sp == 8 * q && j == 2 * t + j % 2;
    assert j % 2 == 0 ==> sp + 4 * j == 8 * (q + t);
    assert j % 2 == 1 ==> sp + 4 * j == 8 * (q + t) + 4;
    assert j % 2 == 0 ==> sp + 4 * (j - 1) == 8 * (q + t - 1) + 4;
  }

  function AllBits(kinds: seq<bool>, values: seq<int>): (r: seq<int>)
    requires |kinds| == |values|
    ensures |r| == |kinds| && forall i :: 0 <= i < |r| ==> r[i] == Bits(kinds[i], values[i])
  {
    seq(|kinds|, i requires 0 <= i < |kinds| => Bits(kinds[i], values[i]))
  }

  lemma CarriedPrefix(c: Cpu, a: seq<Slot>, b: seq<Slot>)
    requires Carried(c, b) && a <= b
    ensures Carried(c, a)
  {
    hide Word;
  }

  /** From the `k`-th argument on, the reader returns the bits that were marshalled. */
  lemma {:induction false} ReadsBack(c: Cpu, kinds: seq<bool>, values: seq<int>, k: nat)
    requires k <= |kinds| == |values| && |c.r| == 4 && Carried(c, Slots(kinds, values, |kinds|))
    ensures ReadAll(c, CursorAt(c, |Slots(kinds, values, k)|), kinds[k..]) == AllBits(kinds, values)[k..]
    decreases |kinds| - k
  {
    if k < |kinds| {
      var all := AllBits(kinds, values);
      assert all[k] == Bits(kinds[k], values[k]);
      hide ReadOne, CursorAt, Slots, Carried, AllBits, Bits;
      SlotsGrow(kinds, values, k + 1, |kinds|);
      CarriedPrefix(c, Slots(kinds, values, k + 1), Slots(kinds, values, |kinds|));
      ReadsOne(c, kinds, values, k);
      ReadsBack(c, kinds, values, k + 1);
      assert kinds[k..][0] == kinds[k] && kinds[k..][1..] == kinds[k + 1..];
      FirstOfRest(all, k);
    }
  }

  lemma FirstOfRest(s: seq<int>, k: nat)
    requires k < |s|
    ensures s[k..] == [s[k]] + s[k + 1..]
  {
  }

  class Emulator32 {
    const bottom: int
    var r: seq<int>
    var memory: seq<Byte>
    var sp: int

    function Now(): Cpu
      reads this
    {
      Cpu(r, memory, bottom, sp)
    }

    predicate Valid()
      reads this
    {
      |r| == 4 && sp <= bottom + |memory|
    }

    constructor (bottom: int, r: seq<int>, memory: seq<Byte>, sp: int)
      requires |r| == 4 && sp <= bottom + |memory|
      ensures Valid() && Now() == Cpu(r, memory, bottom, sp)
    {
      this.bottom, this.r, this.memory, this.sp := bottom, r, memory, sp;
    }

    /** The stack words go below the stack pointer, 8-aligned; writing to unmapped memory is a fault. */
    method WriteStack(stack: seq<int>) returns (ok: bool)
      requires Valid()
      modifies this`memory, this`sp
      ensures Valid()
      ensures ok <==> stack == [] || Down8(old(sp) - 4 * |stack|) >= bottom
      ensures stack == [] || !ok ==> Now() == old(Now())
      ensures ok && stack != [] ==>
                && sp == Down8(old(sp) - 4 * |stack|) && Holds(memory, sp - bottom, Rows(WordRows(stack, 4), |stack|))
                && SameFrom(old(memory), memory, old(sp) - bottom)
    {
      ok := true;
      if stack != [] {
        var at := Down8(sp - 4 * |stack|);
        if at < bottom {
          return false;
        }
        WriteWords(at - bottom, stack, sp - bottom);
        sp := at;
      }
    }

    method WriteWords(at: int, words: seq<int>, ghost above: int)
      requires 0 <= at && at + 4 * |words| <= above <= |memory|
      modifies this`memory
      ensures Holds(memory, at, Rows(WordRows(words, 4), |words|)) && SameFrom(old(memory), memory, above)
    {
      hide Holds, Write, Rows, WordRows, LittleEndian, SameFrom;
      EmptyTable(memory, at, WordRows(words, 4), above);
      for i := 0 to |words|
        invariant Holds(memory, at, Rows(WordRows(words, 4), i)) && SameFrom(old(memory), memory, above)
      {
        TableStep(old(memory), memory, at, words, 4, i, above);
        memory := Write(memory, at + 4 * i, LittleEndian(words[i], 4));
      }
    }

    /** Arguments beyond the shorter of the two lists are not marshalled. */
    method MarshalNative(jni: int, receiver: int, kinds: seq<bool>, values: seq<int>) returns (ok: bool)
      requires Valid()
      modifies this
      ensures Valid()
      ensures r[0] == jni % WORD && r[1] == receiver % WORD
      ensures var slots := Slots(kinds, values, Min(|kinds|, |values|));
        && (ok ==> Carried(Now(), slots))
        && (ok <==> |slots| <= 2 || Down8(old(sp) - 4 * (|slots| - 2)) >= bottom)
      // The first argument is in r2, a wide one with its high half in r3; a reader gets every value back.
      ensures kinds != [] && values != [] ==>
                && r[2] == values[0] % 0x1_0000_0000
                && (kinds[0] ==> r[3] == values[0] % 0x1_0000_0000_0000_0000 / 0x1_0000_0000)
      ensures ok ==> forall i :: 0 <= i < Min(|kinds|, |values|) ==>
                ReadAll(Now(), Cursor(2, sp), kinds[..Min(|kinds|, |values|)])[i] ==
                if kinds[i] then values[i] % 0x1_0000_0000_0000_0000 else values[i] % 0x1_0000_0000
      ensures var slots := Slots(kinds, values, Min(|kinds|, |values|));
        && (|slots| <= 2 ==> sp == old(sp) && memory == old(memory))
        && (ok && |slots| > 2 ==>
              && sp == Down8(old(sp) - 4 * (|slots| - 2)) && |memory| == |old(memory)|
              && SameFrom(old(memory), memory, old(sp) - bottom))
    {
      hide Bits, Carried, Holds, Rows, WordRows, Placing, Slots, ReadAll;
      r := r[0 := jni % WORD][1 := receiver % WORD];
      var nextRegister, stack: seq<int> := 2, [];
      var n := Min(|kinds|, |values|);
      NothingPlaced(kinds, values, r);
      for i := 0 to n
        invariant Valid() && sp == old(sp) && memory == old(memory)
        invariant r[0] == jni % WORD && r[1] == receiver % WORD
        invariant 2 <= nextRegister <= 4 && Placing(r, nextRegister, stack, Slots(kinds, values, i))
      {
        var bits := Bits(kinds[i], values[i]);
        if kinds[i] {
          WideStep(kinds, values, i, r, nextRegister, stack);
          var low, high := bits % WORD, bits / WORD;
          if nextRegister % 2 != 0 {
            nextRegister := nextRegister + 1;
          }
          if nextRegister + 1 <= 3 {
            r := r[nextRegister := low][nextRegister + 1 := high];
            nextRegister := nextRegister + 2;
          } else {
            nextRegister := 4;
            if |stack| % 2 != 0 {
              stack := stack + [0];
            }
            stack := stack + [low, high];
          }
        } else {
          NarrowStep(kinds, values, i, r, nextRegister, stack);
          if nextRegister <= 3 {
            r := r[nextRegister := bits];
            nextRegister := nextRegister + 1;
          } else {
            stack := stack + [bits];
          }
        }
      }
      if n > 0 {
        FirstSlots(kinds, values, n);
        InRegisters(r, nextRegister, stack, Slots(kinds, values, n));
      }
      ok := WriteStack(stack);
      SlotsSpilled(r, nextRegister, stack, Slots(kinds, values, n));
      if ok {
        StackCarried(Now(), nextRegister, stack, Slots(kinds, values, n));
        MarshalledReadsBack(Now(), kinds, values);
      }
    }
  }

  lemma NothingPlaced(kinds: seq<bool>, values: seq<int>, r: seq<int>)
    requires |r| == 4
    ensures Placing(r, 2, [], Slots(kinds, values, 0))
  {
  }

  lemma InRegisters(r: seq<int>, next: nat, stack: seq<int>, slots: seq<Slot>)
    requires Placing(r, next, stack, slots)
    ensures |slots| > 0 && slots[0].Used? ==> r[2] == slots[0].word
    ensures |slots| > 1 && slots[1].Used? ==> r[3] == slots[1].word
  {
  }

  lemma SlotsSpilled(r: seq<int>, next: nat, stack: seq<int>, slots: seq<Slot>)
    requires Placing(r, next, stack, slots)
    ensures |stack| == if |slots| <= 2 then 0 else |slots| - 2
  {
  }

  lemma RegisterStep(r: seq<int>, next: nat, stack: seq<int>, slots: seq<Slot>, w: int)
    requires Placing(r, next, stack, slots) && next <= 3
    ensures Placing(r[next := w], next + 1, stack, slots + [Used(w)])
  {
  }

  lemma SkipStep(r: seq<int>, stack: seq<int>, slots: seq<Slot>)
    requires Placing(r, 3, stack, slots)
    ensures Placing(r, 4, stack, slots + [Pad]) && stack == []
  {
  }

  lemma StackStep(r: seq<int>, stack: seq<int>, slots: seq<Slot>, w: int, s: Slot)
    requires Placing(r, 4, stack, slots) && 0 <= w < WORD && (s.Used? ==> s.word == w)
    ensures Placing(r, 4, stack + [w], slots + [s])
  {
  }

  lemma NarrowStep(kinds: seq<bool>, values: seq<int>, i: nat, r: seq<int>, next: nat, stack: seq<int>)
    requires i < |kinds| && i < |values| && !kinds[i] && 2 <= next <= 4 && |r| == 4
    requires Placing(r, next, stack, Slots(kinds, values, i))
    ensures var bits := Bits(kinds[i], values[i]);
      && (next <= 3 ==> Placing(r[next := bits], next + 1, stack, Slots(kinds, values, i + 1)))
      && (next > 3 ==> Placing(r, next, stack + [bits], Slots(kinds, values, i + 1)))
  {
    hide Placing, Bits;
    BitsInRange(kinds[i], values[i]);
    var slots, bits := Slots(kinds, values, i), Bits(kinds[i], values[i]);
    if next <= 3 {
      RegisterStep(r, next, stack, slots, bits);
    } else {
      StackStep(r, stack, slots, bits, Used(bits));
    }
  }

  lemma WideStep(kinds: seq<bool>, values: seq<int>, i: nat, r: seq<int>, next: nat, stack: seq<int>)
    requires i < |kinds| && i < |values| && kinds[i] && 2 <= next <= 4 && |r| == 4
    requires Placing(r, next, stack, Slots(kinds, values, i))
    ensures var low, high := Bits(kinds[i], values[i]) % WORD, Bits(kinds[i], values[i]) / WORD;
      && (next == 2 ==> Placing(r[2 := low][3 := high], 4, stack, Slots(kinds, values, i + 1)))
      && (next > 2 && |stack| % 2 == 0 ==> Placing(r, 4, stack + [low, high], Slots(kinds, values, i + 1)))
      && (next > 2 && |stack| % 2 != 0 ==> Placing(r, 4, stack + [0] + [low, high], Slots(kinds, values, i + 1)))
  {
    hide Bits;
    BitsInRange(kinds[i], values[i]);
    var slots, low, high := Slots(kinds, values, i), Bits(kinds[i], values[i]) % WORD, Bits(kinds[i], values[i]) / WORD;
    var padded := slots + if |slots| % 2 == 0 then [] else [Pad];
    assert Slots(kinds, values, i + 1) == padded + [Used(low)] + [Used(high)];
    assert next == 2 ==> padded == slots;
    assert next == 3 ==> padded == slots + [Pad];
    assert next == 4 ==> padded == slots + if |stack| % 2 == 0 then [] else [Pad];
    hide Placing, Slots;
    if next == 2 {
      RegisterStep(r, 2, stack, slots, low);
      RegisterStep(r[2 := low], 3, stack, slots + [Used(low)], high);
    } else {
      var full := if next == 4 && |stack| % 2 != 0 then stack + [0] else stack;
      if next == 3 {
        SkipStep(r, stack, slots);
      } else if |stack| % 2 != 0 {
        StackStep(r, stack, slots, 0, Pad);
      } else {
        assert slots + [] == slots;
      }
      StackStep(r, full, padded, low, Used(low));
      StackStep(r, full + [low], padded + [Used(low)], high, Used(high));
      assert full + [low] + [high] == full + [low, high];
    }
  }

  lemma BitsInRange(wide: bool, value: int)
    ensures wide ==> 0 <= Bits(wide, value) / WORD < WORD
    ensures !wide ==> 0 <= Bits(wide, value) < WORD
  {
  }

  lemma StackCarried(c: Cpu, next: nat, stack: seq<int>, slots: seq<Slot>)
    requires Placing(c.r, next, stack, slots)
    requires stack != [] ==>
               Holds(c.memory, c.sp - c.bottom, Rows(WordRows(stack, 4), |stack|)) && c.sp % 8 == 0 && c.bottom <= c.sp
    ensures Carried(c, slots)
  {
    hide Rows, WordRows, Word;
    RowsLength(WordRows(stack, 4), 4, |stack|);
    WordSizes();
    forall i | 2 <= i < |slots| && slots[i].Used?
      ensures At(c, c.sp + 4 * (i - 2), 4) == slots[i].word
    {
      assert slots[2 + (i - 2)] == slots[i];
      WordAt(c.memory, c.sp - c.bottom, stack, 4, i - 2);
    }
  }

  /** How far marshalling has got: registers up to `next`, then the stack list, hold the slots. */
  ghost predicate Placing(r: seq<int>, next: nat, stack: seq<int>, slots: seq<Slot>) {
    && |r| == 4 && 2 <= next <= 4
    && (next < 4 ==> |slots| == next - 2 && stack == [])
    && (next == 4 ==> |slots| == 2 + |stack|)
    && (forall i :: 0 <= i < |slots| && i < 2 && slots[i].Used? ==> r[2 + i] == slots[i].word)
    && (forall j :: 0 <= j < |stack| ==> 0 <= stack[j] < WORD)
    && (forall j :: 0 <= j < |stack| && slots[2 + j].Used? ==> stack[j] == slots[2 + j].word)
  }

  lemma {:induction false} SlotsOfPrefix(kinds: seq<bool>, values: seq<int>, n: nat, k: nat)
    requires k <= n <= |kinds| && n <= |values|
    ensures Slots(kinds[..n], values[..n], k) == Slots(kinds, values, k)
  {
    if k > 0 {
      SlotsOfPrefix(kinds, values, n, k - 1);
    }
  }

  /** A register reader started after the two implicit arguments returns each value, in its width and in order. */
  lemma MarshalledReadsBack(c: Cpu, kinds: seq<bool>, values: seq<int>)
    requires |c.r| == 4 && Carried(c, Slots(kinds, values, Min(|kinds|, |values|)))
    ensures var n := Min(|kinds|, |values|);
            forall i :: 0 <= i < n ==>
              ReadAll(c, Cursor(2, c.sp), kinds[..n])[i] ==
              if kinds[i] then values[i] % 0x1_0000_0000_0000_0000 else values[i] % 0x1_0000_0000
  {
    hide *;
    forall i | 0 <= i < Min(|kinds|, |values|)
      ensures ReadAll(c, Cursor(2, c.sp), kinds[..Min(|kinds|, |values|)])[i] ==
              if kinds[i] then values[i] % 0x1_0000_0000_0000_0000 else values[i] % 0x1_0000_0000
    {
      ReadsBits(c, kinds, values, i);
      BitsAre(kinds[i], values[i]);
    }
  }

  lemma ReadsBits(c: Cpu, kinds: seq<bool>, values: seq<int>, i: nat)
    requires |c.r| == 4 && Carried(c, Slots(kinds, values, Min(|kinds|, |values|))) && i < Min(|kinds|, |values|)
    ensures ReadAll(c, Cursor(2, c.sp), kinds[..Min(|kinds|, |values|)])[i] == Bits(kinds[i], values[i])
  {
    hide ReadAll, Carried, Slots, AllBits, Bits;
    var n := Min(|kinds|, |values|);
    SlotsOfPrefix(kinds, values, n, n);
    ReadsBack(c, kinds[..n], values[..n], 0);
    NoSlots(kinds[..n], values[..n]);
    assert kinds[..n][0..] == kinds[..n] && AllBits(kinds[..n], values[..n])[0..] == AllBits(kinds[..n], values[..n]);
  }

  lemma BitsAre(wide: bool, value: int)
    ensures Bits(wide, value) == if wide then value % 0x1_0000_0000_0000_0000 else value % 0x1_0000_0000
  {
  }

  lemma NoSlots(kinds: seq<bool>, values: seq<int>)
    ensures Slots(kinds, values, 0) == []
  {
  }

  /** The words of the first argument: its low half, and the high half of a wide one. */
  lemma FirstSlots(kinds: seq<bool>, values: seq<int>, n: nat)
    requires 0 < n <= |kinds| && n <= |values|
    ensures var slots, low := Slots(kinds, values, n), values[0] % 0x1_0000_0000;
      && |slots| > 0 && slots[0] == Used(low)
      && (kinds[0] ==> |slots| > 1 && slots[1] == Used(values[0] % 0x1_0000_0000_0000_0000 / 0x1_0000_0000))
  {
    SlotsGrow(kinds, values, 1, n);
    NoSlots(kinds, values);
    assert Slots(kinds, values, 1) <= Slots(kinds, values, n);
    LowHalf(values[0]);
  }

  lemma LowHalf(v: int)
    ensures v % DOUBLE % WORD == v % WORD
  {
    var q := v / DOUBLE;
    assert v == DOUBLE * q + v % DOUBLE;
    ModUnique(v, WORD, WORD * q + v % DOUBLE / WORD, v % DOUBLE % WORD);
  }
}
