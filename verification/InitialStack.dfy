/** The initial process stack: what is pushed, and what the process finds when it reads it. */
module InitialStack {
  import opened Bytes
  import opened Common
  import MemoryManager

  const STACK_SIZE := 0x800000
  const GUARD_GAP := 0x100
  const STACK_TOP_64 := 0x7F_0000_0000
  const STACK_TOP_32 := 0xBF00_0000
  const AT_NULL := 0
  const AT_PLATFORM := 15
  const AT_RANDOM := 25

  datatype Pair = Pair(key: int, value: int)

  // ------------------------------------------------------------------ the auxiliary vector as a dictionary

  /** Assignment to an insertion-ordered dictionary: an existing key keeps its place. */
  function Put(d: seq<Pair>, key: int, value: int): seq<Pair>
    decreases |d|
  {
    if d == [] then [Pair(key, value)]
    else if d[0].key == key then [Pair(key, value)] + d[1..]
    else [d[0]] + Put(d[1..], key, value)
  }

  function PutAll(d: seq<Pair>, ps: seq<Pair>): seq<Pair>
    decreases |ps|
  {
    if ps == [] then d else PutAll(Put(d, ps[0].key, ps[0].value), ps[1..])
  }

  /** The vector the process gets: the caller's pairs, then the two entries the loader owns. */
  function Resolved(auxv: seq<Pair>, random: int, platform: int): seq<Pair> {
    Put(Put(PutAll([], auxv), AT_RANDOM, random), AT_PLATFORM, platform)
  }

  function Get(d: seq<Pair>, key: int): Option<int>
    decreases |d|
  {
    if d == [] then None else if d[0].key == key then Some(d[0].value) else Get(d[1..], key)
  }

  predicate IsLast(ps: seq<Pair>, key: int, i: int) {
    0 <= i < |ps| && ps[i].key == key && forall j :: i < j < |ps| ==> ps[j].key != key
  }

  /** The value of the last pair with this key. */
  function LastOf(ps: seq<Pair>, key: int): (r: Option<int>)
    ensures r == None <==> forall i :: 0 <= i < |ps| ==> ps[i].key != key
    ensures r.Some? ==> exists i :: IsLast(ps, key, i) && ps[i].value == r.value
    decreases |ps|
  {
    if ps == [] then None
    else if ps[|ps| - 1].key == key then assert IsLast(ps, key, |ps| - 1); Some(ps[|ps| - 1].value)
    else
      var r := LastOf(ps[..|ps| - 1], key);
      assert forall i :: IsLast(ps[..|ps| - 1], key, i) ==> IsLast(ps, key, i);
      r
  }

  predicate Distinct(d: seq<Pair>) { forall i, j :: 0 <= i < j < |d| ==> d[i].key != d[j].key }

  lemma {:induction false} PutGets(d: seq<Pair>, key: int, value: int, other: int)
    ensures Get(Put(d, key, value), other) == if other == key then Some(value) else Get(d, other)
    decreases |d|
  {
    if d != [] && d[0].key != key {
      PutGets(d[1..], key, value, other);
    }
  }

  /** A known key keeps its place; a new one goes last. */
  lemma {:induction false} PutKeepsOrder(d: seq<Pair>, key: int, value: int)
    ensures var r := Put(d, key, value);
      && |d| <= |r| <= |d| + 1 && (forall i :: 0 <= i < |d| ==> r[i].key == d[i].key)
      && (|r| == |d| <==> exists i :: 0 <= i < |d| && d[i].key == key) && (|r| > |d| ==> r[|d|].key == key)
    decreases |d|
  {
    if d != [] && d[0].key != key {
      PutKeepsOrder(d[1..], key, value);
      assert forall i :: 0 < i < |d| ==> d[i] == d[1..][i - 1];
    }
  }

  lemma {:induction false} PutKeys(d: seq<Pair>, key: int, value: int)
    requires Distinct(d)
    ensures Distinct(Put(d, key, value))
    ensures forall p :: p in Put(d, key, value) ==> p.key == key || exists q :: q in d && q.key == p.key
    decreases |d|
  {
    if d != [] && d[0].key != key {
      PutKeys(d[1..], key, value);
      var r := Put(d[1..], key, value);
      forall j | 0 <= j < |r|
        ensures r[j].key != d[0].key
      {
        assert r[j] in r;
      }
    } else if d != [] {
      assert d[0] in d;
    }
  }

  lemma {:induction false} PutAllGets(d: seq<Pair>, ps: seq<Pair>, key: int)
    requires Distinct(d)
    ensures Distinct(PutAll(d, ps))
    ensures Get(PutAll(d, ps), key) == if LastOf(ps, key).Some? then LastOf(ps, key) else Get(d, key)
    decreases |ps|
  {
    if ps != [] {
      var next := Put(d, ps[0].key, ps[0].value);
      PutKeys(d, ps[0].key, ps[0].value);
      PutGets(d, ps[0].key, ps[0].value, key);
      PutAllGets(next, ps[1..], key);
      LastOfTail(ps, key);
    }
  }

  lemma {:induction false} LastOfTail(ps: seq<Pair>, key: int)
    requires ps != []
    ensures LastOf(ps, key) ==
      if LastOf(ps[1..], key).Some? then LastOf(ps[1..], key)
      else if ps[0].key == key then Some(ps[0].value) else None
    decreases |ps|
  {
    var n := |ps| - 1;
    if n > 0 {
      assert ps[1..][..n - 1] == ps[..n][1..];
      if ps[n].key != key {
        LastOfTail(ps[..n], key);
      }
    }
  }

  /** No key twice; the loader's own entries win; any other key has the last value the caller gave it. */
  lemma ResolvedIsADictionary(auxv: seq<Pair>, random: int, platform: int, key: int)
    ensures var d := Resolved(auxv, random, platform);
      && Distinct(d)
      && Get(d, key) == if key == AT_PLATFORM then Some(platform)
                        else if key == AT_RANDOM then Some(random) else LastOf(auxv, key)
  {
    var d := PutAll([], auxv);
    PutAllGets([], auxv, key);
    PutKeys(d, AT_RANDOM, random);
    PutGets(d, AT_RANDOM, random, key);
    PutKeys(Put(d, AT_RANDOM, random), AT_PLATFORM, platform);
    PutGets(Put(d, AT_RANDOM, random), AT_PLATFORM, platform, key);
  }

  // ------------------------------------------------------------------ strings and table

  /** `& ~(align - 1)` for a power of two. */
  function Down(x: int, align: nat): (r: int)
    requires align > 0
    ensures x - align < r <= x && r % align == 0
  {
    DownAligned(x, align);
    x - x % align
  }

  lemma DownAligned(x: int, align: nat)
    requires align > 0
    ensures (x - x % align) % align == 0
  {
    assert x - x % align == align * (x / align) + 0;
    ModUnique(x - x % align, align, x / align, 0);
  }

  function Total(strs: seq<seq<Byte>>): nat
    decreases |strs|
  {
    if strs == [] then 0 else Total(strs[..|strs| - 1]) + |strs[|strs| - 1]| + 1
  }

  /** Terminated copies of `strs` at `ptrs`, each below the one before, within [lo, hi); `m` starts at `bottom`. */
  ghost predicate Placed(m: seq<Byte>, bottom: int, ptrs: seq<int>, strs: seq<seq<Byte>>, lo: int, hi: int) {
    && |ptrs| == |strs|
    && (forall i :: 0 <= i < |ptrs| ==>
          lo <= ptrs[i] && ptrs[i] + |strs[i]| + 1 <= hi && Holds(m, ptrs[i] - bottom, strs[i] + [0]))
    && forall i, j :: 0 <= i < j < |ptrs| ==> ptrs[j] + |strs[j]| + 1 <= ptrs[i]
  }

  /** Terminated strings one right below the other, from `hi` down to `lo`. */
  ghost predicate Packed(ptrs: seq<int>, strs: seq<seq<Byte>>, lo: int, hi: int) {
    && |ptrs| == |strs| && lo == (if ptrs == [] then hi else ptrs[|ptrs| - 1])
    && forall i :: 0 <= i < |ptrs| ==> EndsBelow(ptrs, strs, hi, i)
  }

  /** String `i` and its terminator end where the string before it starts, the first at `hi`. */
  predicate EndsBelow(ptrs: seq<int>, strs: seq<seq<Byte>>, hi: int, i: nat)
    requires i < |ptrs| == |strs|
  {
    ptrs[i] + |strs[i]| + 1 == if i == 0 then hi else ptrs[i - 1]
  }

  lemma PackedNone(at: int)
    ensures Packed([], [], at, at)
  {
  }

  lemma PackedOne(ptrs: seq<int>, strs: seq<seq<Byte>>, lo: int, hi: int, s: seq<Byte>)
    requires Packed(ptrs, strs, lo, hi)
    ensures var at := lo - (|s| + 1); Packed(ptrs + [at], strs + [s], at, hi)
  {
    var more, all := ptrs + [lo - (|s| + 1)], strs + [s];
    forall i | 0 <= i < |more|
      ensures EndsBelow(more, all, hi, i)
    {
      assert i < |ptrs| ==> EndsBelow(ptrs, strs, hi, i);
    }
  }

  /** Nothing at or above address `from` differs. */
  predicate SameAbove(m: seq<Byte>, m': seq<Byte>, bottom: int, from: int) {
    SameFrom(m, m', from - bottom)
  }

  lemma SameAboveSelf(m: seq<Byte>, bottom: int, from: int)
    requires 0 <= from - bottom <= |m|
    ensures SameAbove(m, m, bottom, from)
  {
  }

  lemma HeldAbove(m: seq<Byte>, m': seq<Byte>, bottom: int, from: int, at: int, data: seq<Byte>)
    requires SameAbove(m, m', bottom, from) && Holds(m, at - bottom, data) && from <= at
    ensures Holds(m', at - bottom, data)
  {
    var k := from - bottom;
    SliceOfSlice(m, k, |m| - k, at - from, |data|);
    SliceOfSlice(m', k, |m| - k, at - from, |data|);
  }

  lemma PlacedAbove(m: seq<Byte>, m': seq<Byte>, bottom: int, from: int, ptrs: seq<int>, strs: seq<seq<Byte>>, lo: int,
                    hi: int)
    requires SameAbove(m, m', bottom, from) && Placed(m, bottom, ptrs, strs, lo, hi) && from <= lo
    ensures Placed(m', bottom, ptrs, strs, lo, hi)
  {
    hide Holds, SameAbove;
    forall i | 0 <= i < |ptrs|
      ensures Holds(m', ptrs[i] - bottom, strs[i] + [0])
    {
      HeldAbove(m, m', bottom, from, ptrs[i], strs[i] + [0]);
    }
  }

  lemma WriteBelow(m: seq<Byte>, bottom: int, at: int, data: seq<Byte>, from: int)
    requires Fits(m, at - bottom, |data|) && at + |data| <= from && 0 <= from - bottom <= |m|
    ensures SameAbove(m, Write(m, at - bottom, data), bottom, from)
  {
    SameFromWrite(m, m, at - bottom, data, from - bottom);
  }

  lemma SameTwice(a: seq<Byte>, b: seq<Byte>, c: seq<Byte>, bottom: int, from: int, lower: int)
    requires SameAbove(a, b, bottom, from) && SameAbove(b, c, bottom, lower) && lower <= from
    ensures SameAbove(a, c, bottom, from)
  {
    assert b[lower - bottom..][from - lower..] == b[from - bottom..];
    assert c[lower - bottom..][from - lower..] == c[from - bottom..];
  }

  lemma PlacedNone(m: seq<Byte>, bottom: int, at: int)
    ensures Placed(m, bottom, [], [], at, at)
  {
  }

  /** The step of pushing one more string just below the others. */
  lemma OneMorePlaced(m: seq<Byte>, bottom: int, ptrs: seq<int>, strs: seq<seq<Byte>>, high: int, hi: int, s: seq<Byte>)
    requires Placed(m, bottom, ptrs, strs, high, hi) && high <= hi
    requires bottom <= high - (|s| + 1) && high - bottom <= |m|
    ensures var at := high - (|s| + 1);
            Placed(Write(m, at - bottom, s + [0]), bottom, ptrs + [at], strs + [s], at, hi)
  {
    hide Holds, Write, SameAbove;
    var at := high - (|s| + 1);
    WriteBelow(m, bottom, at, s + [0], high);
    PlacedAbove(m, Write(m, at - bottom, s + [0]), bottom, high, ptrs, strs, high, hi);
    Blit(m, at - bottom, s + [0]);
  }

  lemma {:induction false} TotalPrefix(strs: seq<seq<Byte>>, n: nat)
    requires n <= |strs|
    ensures Total(strs[..n]) <= Total(strs)
    ensures n < |strs| ==> Total(strs[..n + 1]) == Total(strs[..n]) + |strs[n]| + 1
    decreases |strs|
  {
    if n < |strs| {
      assert strs[..n + 1][..n] == strs[..n];
      var init := strs[..|strs| - 1];
      assert init[..n] == strs[..n];
      TotalPrefix(init, n);
    } else {
      assert strs[..n] == strs;
    }
  }

  function Words(argv: seq<int>, envp: seq<int>, auxv: seq<Pair>): seq<int> {
    [|argv|] + argv + [0] + envp + [0] + Flat(auxv) + [AT_NULL, 0]
  }

  lemma WordsLength(argv: seq<int>, envp: seq<int>, auxv: seq<Pair>)
    ensures |Words(argv, envp, auxv)| == 5 + |argv| + |envp| + 2 * |auxv|
  {
  }

  function Flat(d: seq<Pair>): (r: seq<int>)
    ensures |r| == 2 * |d|
    decreases |d|
  {
    if d == [] then [] else Flat(d[..|d| - 1]) + [d[|d| - 1].key, d[|d| - 1].value]
  }

  class StackBuilder {
    const ptr: nat
    const bottom: int
    const stackTop: int
    var memory: seq<Byte>
    var top: int
    var sp: int
    var argc: int
    var argvPtr: int
    var envpPtr: int

    predicate Valid()
      reads this
    {
      (ptr == 4 || ptr == 8) && stackTop == bottom + STACK_SIZE && bottom > 0 && |memory| == STACK_SIZE
    }

    /** A fresh stack mapping below `stackTop`. */
    constructor (ptr: nat, stackTop: int, fresh_: seq<Byte>)
      requires (ptr == 4 || ptr == 8) && stackTop > STACK_SIZE && |fresh_| == STACK_SIZE
      ensures Valid() && this.ptr == ptr && this.stackTop == stackTop && memory == fresh_
    {
      this.ptr, this.stackTop, bottom, memory := ptr, stackTop, stackTop - STACK_SIZE, fresh_;
      top, sp, argc, argvPtr, envpPtr := stackTop, 0, 0, 0, 0;
    }

    method Push(data: seq<Byte>, align: nat) returns (r: Option<int>)
      requires Valid() && align > 0 && top <= stackTop
      modifies this`memory, this`top
      ensures Valid() && top == Down(old(top) - |data|, align)
      ensures r == if top < bottom then None else Some(top)
      ensures memory == if top < bottom then old(memory) else Write(old(memory), top - bottom, data)
    {
      top := Down(top - |data|, align);
      if top < bottom {
        return None;
      }
      memory := Write(memory, top - bottom, data);
      return Some(top);
    }

    method PushStrings(strs: seq<seq<Byte>>) returns (r: Option<seq<int>>)
      requires Valid() && bottom <= top <= stackTop
      modifies this`memory, this`top
      ensures Valid()
      ensures r.Some? <==> old(top) - Total(strs) >= bottom
      ensures r.Some? ==>
                && top == old(top) - Total(strs) && |r.value| == |strs|
                   && Placed(memory, bottom, r.value, strs, top, old(top))
                && Packed(r.value, strs, top, old(top)) && SameAbove(old(memory), memory, bottom, old(top))
    {
      hide Holds, Write, SameAbove, Placed, Down, Packed;
      assert Packed([], strs[..0], top, top) by { PackedNone(top); }
      SameAboveSelf(memory, bottom, top);
      PlacedNone(memory, bottom, top);
      var ptrs: seq<int> := [];
      for i := 0 to |strs|
        invariant Valid() && bottom <= top == old(top) - Total(strs[..i])
        invariant |ptrs| == i && Placed(memory, bottom, ptrs, strs[..i], top, old(top))
        invariant Packed(ptrs, strs[..i], top, old(top))
        invariant SameAbove(old(memory), memory, bottom, old(top))
      {
        TotalPrefix(strs, i);
        TotalPrefix(strs, i + 1);
        ghost var before, high := memory, top;
        var p := Push(strs[i] + [0], 1);
        if p == None {
          return None;
        }
        OneMorePlaced(before, bottom, ptrs, strs[..i], high, old(top), strs[i]);
        PackedOne(ptrs, strs[..i], high, old(top), strs[i]);
        WriteBelow(before, bottom, top, strs[i] + [0], high);
        SameTwice(old(memory), before, memory, bottom, old(top), high);
        assert strs[..i + 1] == strs[..i] + [strs[i]];
        ptrs := ptrs + [p.value];
      }
      assert strs[..|strs|] == strs;
      return Some(ptrs);
    }

    /** The table goes below the strings, 16-aligned. */
    method WriteTable(words: seq<int>) returns (ok: bool)
      requires Valid() && bottom <= top <= stackTop
      modifies this`memory, this`sp
      ensures Valid() && sp == Down(top - Offset(|words|, ptr), 16) && (ok <==> sp >= bottom)
      ensures ok ==> Holds(memory, sp - bottom, Rows(WordRows(words, ptr), |words|))
      ensures ok ==> SameAbove(old(memory), memory, bottom, top)
    {
      hide Holds, Write, SameFrom, Placed, Offset, Rows, WordRows, Capacity, LittleEndian, Down;
      sp := Down(top - Offset(|words|, ptr), 16);
      if sp < bottom {
        return false;
      }
      EmptyTable(memory, sp - bottom, WordRows(words, ptr), top - bottom);
      for i := 0 to |words|
        invariant Valid() && sp == Down(top - Offset(|words|, ptr), 16)
        invariant Holds(memory, sp - bottom, Rows(WordRows(words, ptr), i))
        invariant SameFrom(old(memory), memory, top - bottom)
      {
        TableStep(old(memory), memory, sp - bottom, words, ptr, i, top - bottom);
        memory := Write(memory, sp - bottom + Offset(i, ptr), LittleEndian(words[i], ptr));
      }
      return true;
    }

    method SetupStack(argv: seq<seq<Byte>>, envp: seq<seq<Byte>>, auxv: seq<Pair>, guard: int, random: seq<Byte>,
                      platform: seq<Byte>)
      returns (r: Option<seq<Pair>>, ghost at: Pointers)
      requires Valid() && |random| == 8
      modifies this
      ensures Valid()
      ensures r.Some? <==> StackPointer(ptr, stackTop, argv, envp, auxv, platform) >= bottom
      ensures r.Some? ==>
                && sp == StackPointer(ptr, stackTop, argv, envp, auxv, platform)
                && r.value == Resolved(auxv, at.random, at.platform)
                && Ready(memory, ptr, bottom, stackTop, sp, argv, envp, r.value, at)
                && Holds(memory, at.random - bottom, LittleEndian(guard, 8) + random) && at.random % 16 == 0
                && Holds(memory, at.platform - bottom, platform + [0])
      // From the top down without a gap, but for the two alignments.
      ensures r.Some? ==> var n := 5 + |argv| + |envp| + 2 * |r.value|;
                && at.random + 16 <= stackTop - GUARD_GAP < at.random + 32
                && at.platform + |platform| + 1 == at.random
                && Packed(at.argv, argv, at.split, at.platform) && Packed(at.envp, envp, at.low, at.split)
                && sp % 16 == 0 && sp + Offset(n, ptr) <= at.low < sp + Offset(n, ptr) + 16
      ensures r.Some? ==>
                argc == |argv| && argvPtr == sp + ptr && envpPtr == sp + ptr * (2 + |argv|)
    {
      hide Holds, Write, SameAbove, Placed, Offset, Rows, Total, Resolved, Capacity, Words, WordRows, Down;
      hide LittleEndian, Packed;
      ghost var entropy := LittleEndian(guard, 8) + random;
      at := Pointers([], [], 0, 0, 0, 0);
      top := stackTop - GUARD_GAP;
      Blit(memory, Down(top - 16, 16) - bottom, entropy);
      var rp := Push(LittleEndian(guard, 8) + random, 16);
      ghost var m1 := memory;
      var pp := Push(platform + [0], 1);
      if pp == None {
        return None, at;
      }
      ghost var m2 := memory;
      WriteBelow(m1, bottom, pp.value, platform + [0], rp.value);
      Blit(m1, pp.value - bottom, platform + [0]);
      var avs := PushStrings(argv);
      if avs == None {
        return None, at;
      }
      ghost var m3, top3 := memory, top;
      var evs := PushStrings(envp);
      if evs == None {
        return None, at;
      }
      ghost var m4 := memory;
      var resolved := Resolved(auxv, rp.value, pp.value);
      ResolvedLength(auxv, rp.value, pp.value);
      at := Pointers(avs.value, evs.value, top3, top, rp.value, pp.value);
      var words := Words(avs.value, evs.value, resolved);
      WordsLength(avs.value, evs.value, resolved);
      var ok := WriteTable(words);
      assert sp == StackPointer(ptr, stackTop, argv, envp, auxv, platform);
      hide StackPointer, Lowest;
      if !ok {
        return None, at;
      }
      StillThere(m1, m2, m3, m4, memory, bottom, at, argv, envp, entropy, platform + [0], top,
                 sp + Offset(|words|, ptr));
      argc, argvPtr, envpPtr := |argv|, sp + ptr, sp + ptr * (2 + |argv|);
      r := Some(resolved);
    }
  }

  /** Where things are; `split` is between the argv strings and the envp strings, `low` below both. */
  datatype Pointers = Pointers(argv: seq<int>, envp: seq<int>, split: int, low: int, random: int, platform: int)

  /** Each thing pushed is still there after everything pushed or written below it. */
  lemma StillThere(m1: seq<Byte>, m2: seq<Byte>, m3: seq<Byte>, m4: seq<Byte>, m: seq<Byte>, bottom: int, at: Pointers,
                   argv: seq<seq<Byte>>, envp: seq<seq<Byte>>, entropy: seq<Byte>, platform: seq<Byte>,
                   top4: int, lo: int)
    requires SameAbove(m1, m2, bottom, at.random) && SameAbove(m2, m3, bottom, at.platform)
    requires SameAbove(m3, m4, bottom, at.split) && SameAbove(m4, m, bottom, top4)
    requires lo <= top4 <= at.split <= at.platform <= at.random
    requires Holds(m1, at.random - bottom, entropy) && Holds(m2, at.platform - bottom, platform)
    requires Placed(m3, bottom, at.argv, argv, at.split, at.platform)
    requires Placed(m4, bottom, at.envp, envp, top4, at.split)
    ensures Holds(m, at.random - bottom, entropy) && Holds(m, at.platform - bottom, platform)
    ensures Placed(m, bottom, at.argv, argv, at.split, at.platform) && Placed(m, bottom, at.envp, envp, lo, at.split)
  {
    hide Holds, SameAbove, Placed;
    SameTwice(m3, m4, m, bottom, at.split, top4);
    SameTwice(m2, m3, m, bottom, at.platform, at.split);
    SameTwice(m1, m2, m, bottom, at.random, at.platform);
    HeldAbove(m1, m, bottom, at.random, at.random, entropy);
    HeldAbove(m2, m, bottom, at.platform, at.platform, platform);
    PlacedAbove(m3, m, bottom, at.split, at.argv, argv, at.split, at.platform);
    PlacedAbove(m4, m, bottom, top4, at.envp, envp, top4, at.split);
    PlacedWithin(m, bottom, at.envp, envp, top4, at.split, lo, at.split);
  }

  lemma PlacedWithin(m: seq<Byte>, bottom: int, ptrs: seq<int>, strs: seq<seq<Byte>>, lo: int, hi: int, lo': int,
                     hi': int)
    requires Placed(m, bottom, ptrs, strs, lo, hi) && lo' <= lo && hi <= hi'
    ensures Placed(m, bottom, ptrs, strs, lo', hi')
  {
  }

  predicate SameKeys(d: seq<Pair>, e: seq<Pair>) {
    |d| == |e| && forall i :: 0 <= i < |d| ==> d[i].key == e[i].key
  }

  lemma {:induction false} PutSameKeys(d: seq<Pair>, e: seq<Pair>, key: int, v: int, w: int)
    requires SameKeys(d, e)
    ensures SameKeys(Put(d, key, v), Put(e, key, w))
    decreases |d|
  {
    if d != [] && d[0].key != key {
      PutSameKeys(d[1..], e[1..], key, v, w);
    }
  }

  lemma ResolvedLength(auxv: seq<Pair>, random: int, platform: int)
    ensures |Resolved(auxv, random, platform)| == |Resolved(auxv, 0, 0)|
  {
    var d := PutAll([], auxv);
    PutSameKeys(d, d, AT_RANDOM, random, 0);
    PutSameKeys(Put(d, AT_RANDOM, random), Put(d, AT_RANDOM, 0), AT_PLATFORM, platform, 0);
  }

  /** Where the table starts: below the random bytes, the platform name and all strings. */
  function StackPointer(ptr: nat, stackTop: int, argv: seq<seq<Byte>>, envp: seq<seq<Byte>>, auxv: seq<Pair>,
                        platform: seq<Byte>): int
  {
    Down(Lowest(stackTop, argv, envp, platform)
         - Offset(5 + |argv| + |envp| + 2 * |Resolved(auxv, 0, 0)|, ptr), 16)
  }

  function Lowest(stackTop: int, argv: seq<seq<Byte>>, envp: seq<seq<Byte>>, platform: seq<Byte>): int {
    Down(stackTop - GUARD_GAP - 16, 16) - (|platform| + 1) - Total(argv) - Total(envp)
  }

  /** The finished stack: the strings in place and, below them, the table that points to them. */
  ghost predicate Ready(m: seq<Byte>, ptr: nat, bottom: int, stackTop: int, sp: int, argv: seq<seq<Byte>>,
                        envp: seq<seq<Byte>>, resolved: seq<Pair>, at: Pointers)
  {
    var words := Words(at.argv, at.envp, resolved);
    && sp % 16 == 0 && bottom <= sp
    && Holds(m, sp - bottom, Rows(WordRows(words, ptr), |words|))
    && Placed(m, bottom, at.argv, argv, at.split, at.platform)
    && Placed(m, bottom, at.envp, envp, sp + Offset(|words|, ptr), at.split)
    && sp + Offset(|words|, ptr) <= at.split <= at.platform < stackTop
  }

  // ------------------------------------------------------------------ what the process reads

  /** The words from `at` up to the first zero. */
  function ReadVector(m: seq<Byte>, at: int, ptr: nat): seq<int>
    requires ptr > 0
    decreases |m| - at
  {
    var w := Word(m, at, ptr);
    if w <= 0 then [] else [w] + ReadVector(m, at + ptr, ptr)
  }

  /** The key and value words from `at` up to the first zero key. */
  function ReadAux(m: seq<Byte>, at: int, ptr: nat): seq<Pair>
    requires ptr > 0
    decreases |m| - at
  {
    var k := Word(m, at, ptr);
    if k <= 0 then [] else [Pair(k, Word(m, at + ptr, ptr))] + ReadAux(m, at + 2 * ptr, ptr)
  }

  /** The pairs as words, up to the first key that masks to AT_NULL. */
  function Visible(d: seq<Pair>, ptr: nat): (r: seq<Pair>)
    ensures |r| <= |d|
    decreases |d|
  {
    if d == [] || d[0].key % Capacity(ptr) == AT_NULL then []
    else [Pair(d[0].key % Capacity(ptr), d[0].value % Capacity(ptr))] + Visible(d[1..], ptr)
  }

  /** Nothing of the vector is lost exactly when no key reads as its terminator. */
  lemma {:induction false} AllVisible(d: seq<Pair>, ptr: nat)
    ensures |Visible(d, ptr)| == |d| <==> forall p :: p in d ==> p.key % Capacity(ptr) != AT_NULL
    ensures forall i :: 0 <= i < |Visible(d, ptr)| ==>
              Visible(d, ptr)[i] == Pair(d[i].key % Capacity(ptr), d[i].value % Capacity(ptr))
    decreases |d|
  {
    if d != [] {
      assert d == [d[0]] + d[1..];
      AllVisible(d[1..], ptr);
    }
  }

  predicate Table(m: seq<Byte>, at: int, words: seq<int>, ptr: nat) {
    ptr > 0 && Holds(m, at, Rows(WordRows(words, ptr), |words|))
  }

  lemma {:induction false} VectorRead(m: seq<Byte>, at: int, words: seq<int>, ptr: nat, j: nat, n: nat)
    requires Table(m, at, words, ptr) && j + n < |words| && words[j + n] == 0
    requires forall i :: j <= i < j + n ==> 0 < words[i] < Capacity(ptr)
    ensures ReadVector(m, at + Offset(j, ptr), ptr) == words[j..j + n]
    decreases n
  {
    hide Word, Holds, Rows, WordRows, Offset, Capacity;
    WordAt(m, at, words, ptr, j);
    OffsetStep(j, ptr);
    if n > 0 {
      SmallMod(words[j], Capacity(ptr));
      VectorRead(m, at, words, ptr, j + 1, n - 1);
    } else {
      SmallMod(0, Capacity(ptr));
    }
  }

  lemma PointersRead(m: seq<Byte>, at: int, words: seq<int>, ptr: nat, j: nat, ptrs: seq<int>)
    requires Table(m, at, words, ptr) && j + |ptrs| < |words| && words[j + |ptrs|] == 0
    requires words[j..j + |ptrs|] == ptrs && forall i :: 0 <= i < |ptrs| ==> 0 < ptrs[i] < Capacity(ptr)
    ensures ReadVector(m, at + Offset(j, ptr), ptr) == ptrs
  {
    hide Table, Capacity, Offset, ReadVector;
    assert forall i :: j <= i < j + |ptrs| ==> words[i] == words[j..j + |ptrs|][i - j];
    VectorRead(m, at, words, ptr, j, |ptrs|);
  }

  lemma OffsetZero(size: nat)
    ensures Offset(0, size) == 0
  {
  }

  lemma {:induction false} FlatAt(d: seq<Pair>, i: nat)
    requires i < |d|
    ensures Flat(d)[2 * i] == d[i].key && Flat(d)[2 * i + 1] == d[i].value
    decreases |d|
  {
    if i < |d| - 1 {
      FlatAt(d[..|d| - 1], i);
    }
  }

  lemma Middle(a: seq<int>, b: seq<int>, c: seq<int>)
    ensures (a + b + c)[|a|..|a| + |b|] == b && (a + b + c)[..|a|] == a
  {
  }

  lemma WordsAt(argv: seq<int>, envp: seq<int>, d: seq<Pair>)
    ensures |Words(argv, envp, d)| == 5 + |argv| + |envp| + 2 * |d|
    ensures var w, a, e := Words(argv, envp, d), |argv|, |envp|;
      && w[0] == a && w[1..1 + a] == argv && w[1 + a] == 0 && w[2 + a..2 + a + e] == envp && w[2 + a + e] == 0
      && w[3 + a + e..3 + a + e + 2 * |d|] == Flat(d) && w[3 + a + e + 2 * |d|] == AT_NULL
  {
    hide Flat;
    var upToArgv := [|argv|] + argv;
    var upToEnvp := upToArgv + [0] + envp;
    var w := upToEnvp + [0] + Flat(d) + [AT_NULL, 0];
    Middle(upToEnvp + [0], Flat(d), [AT_NULL, 0]);
    assert w[..|upToEnvp|] == upToEnvp;
    Middle(upToArgv + [0], envp, []);
    assert upToEnvp[..|upToArgv|] == upToArgv && upToArgv[1..] == argv;
  }

  lemma {:induction false} AuxRead(m: seq<Byte>, at: int, words: seq<int>, ptr: nat, j: nat, d: seq<Pair>, i: nat)
    requires Table(m, at, words, ptr) && i <= |d| && j + 2 * |d| < |words|
    requires words[j..j + 2 * |d|] == Flat(d) && words[j + 2 * |d|] == AT_NULL
    ensures ReadAux(m, at + Offset(j + 2 * i, ptr), ptr) == Visible(d[i..], ptr)
    decreases |d| - i
  {
    hide Word, Holds, Rows, WordRows, Offset, Capacity, Flat;
    WordAt(m, at, words, ptr, j + 2 * i);
    OffsetStep(j + 2 * i, ptr);
    OffsetStep(j + 2 * i + 1, ptr);
    if i < |d| {
      FlatAt(d, i);
      var flat := words[j..j + 2 * |d|];
      assert words[j + 2 * i] == flat[2 * i] && words[j + 2 * i + 1] == flat[2 * i + 1];
      WordAt(m, at, words, ptr, j + 2 * i + 1);
      AuxRead(m, at, words, ptr, j, d, i + 1);
      assert d[i..][1..] == d[i + 1..];
    } else {
      SmallMod(0, Capacity(ptr));
    }
  }

  lemma PlacedRead(m: seq<Byte>, bottom: int, ptrs: seq<int>, strs: seq<seq<Byte>>, lo: int, hi: int, i: nat)
    requires Placed(m, bottom, ptrs, strs, lo, hi) && i < |strs|
    ensures CString(m, ptrs[i] - bottom) == Text(strs[i]) && lo <= ptrs[i] < hi
  {
    CStringAt(m, ptrs[i] - bottom, strs[i]);
  }

  /**
   * Reading a finished stack from its stack pointer gives argc, the argv and envp strings up to their first NUL,
   * both terminators, and the auxiliary vector up to the first key that reads as AT_NULL.
   */
  lemma ProcessReads(m: seq<Byte>, ptr: nat, bottom: int, stackTop: int, sp: int, argv: seq<seq<Byte>>,
                     envp: seq<seq<Byte>>, resolved: seq<Pair>, at: Pointers)
    requires ptr > 0 && 0 < bottom && stackTop <= Capacity(ptr) && |m| == stackTop - bottom
    requires Ready(m, ptr, bottom, stackTop, sp, argv, envp, resolved, at)
    ensures Word(m, sp - bottom, ptr) == |argv|
    ensures ReadVector(m, sp - bottom + ptr, ptr) == at.argv && |at.argv| == |argv|
    ensures ReadVector(m, sp - bottom + Offset(2 + |argv|, ptr), ptr) == at.envp && |at.envp| == |envp|
    ensures forall i :: 0 <= i < |argv| ==> CString(m, at.argv[i] - bottom) == Text(argv[i])
    ensures forall i :: 0 <= i < |envp| ==> CString(m, at.envp[i] - bottom) == Text(envp[i])
    ensures ReadAux(m, sp - bottom + Offset(3 + |argv| + |envp|, ptr), ptr) == Visible(resolved, ptr)
  {
    hide Word, Holds, Rows, WordRows, Capacity, Flat, Placed, Words, Text, CString, Visible, Offset;
    hide ReadVector, ReadAux;
    OffsetStep(0, ptr);
    OffsetZero(ptr);
    var words, base := Words(at.argv, at.envp, resolved), sp - bottom;
    WordsAt(at.argv, at.envp, resolved);
    AllPlaced(m, bottom, at.argv, argv, at.split, at.platform);
    AllPlaced(m, bottom, at.envp, envp, sp + Offset(|words|, ptr), at.split);
    WordAt(m, base, words, ptr, 0);
    FitsTable(m, base, words, ptr);
    SmallMod(|argv|, Capacity(ptr));
    PointersRead(m, base, words, ptr, 1, at.argv);
    PointersRead(m, base, words, ptr, 2 + |argv|, at.envp);
    AuxRead(m, base, words, ptr, 3 + |argv| + |envp|, resolved, 0);
  }

  lemma AllPlaced(m: seq<Byte>, bottom: int, ptrs: seq<int>, strs: seq<seq<Byte>>, lo: int, hi: int)
    requires Placed(m, bottom, ptrs, strs, lo, hi)
    ensures |ptrs| == |strs|
    ensures forall i :: 0 <= i < |strs| ==> lo <= ptrs[i] < hi && CString(m, ptrs[i] - bottom) == Text(strs[i])
  {
    forall i | 0 <= i < |strs|
      ensures lo <= ptrs[i] < hi && CString(m, ptrs[i] - bottom) == Text(strs[i])
    {
      PlacedRead(m, bottom, ptrs, strs, lo, hi, i);
    }
  }

  lemma FitsTable(m: seq<Byte>, at: int, words: seq<int>, ptr: nat)
    requires Table(m, at, words, ptr)
    ensures at >= 0 && at + Offset(|words|, ptr) <= |m| && |words| <= |m|
  {
    RowsLength(WordRows(words, ptr), ptr, |words|);
    assert |words| * ptr >= |words|;
  }

  /** The memory manager takes the stack mapping of either layout. */
  lemma StacksAreMappable(manager: MemoryManager.MemoryManager)
    requires manager.pointerBytes in {4, 8}
    ensures var top := if manager.pointerBytes == 8 then STACK_TOP_64 else STACK_TOP_32;
            !manager.BadMap(top - STACK_SIZE, STACK_SIZE)
  {
    MemoryManager.AlignedPageUp(STACK_SIZE);
  }

  /** Both stack tops leave room for a stack of addresses that fit the pointer size. */
  lemma StackTopsFit()
    ensures STACK_SIZE < STACK_TOP_64 <= Capacity(8) && STACK_SIZE < STACK_TOP_32 <= Capacity(4)
  {
    WordSizes();
  }
}
