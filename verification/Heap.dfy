/** Block maps: finite maps from the start of a block to its size. */
module Blocks {
  type BlockMap = map<int, int>

  predicate Ends(m: BlockMap, a: int, e: int) { a in m && a + m[a] == e }

  /** The blocks cover [lo, hi) end to end, with no gap and no overlap. */
  ghost predicate Tiles(m: BlockMap, lo: int, hi: int) {
    && lo <= hi
    && (lo < hi ==> lo in m)
    && (forall a :: a in m ==> lo <= a && m[a] > 0 && a + m[a] <= hi)
    && (forall a :: a in m && a + m[a] != hi ==> a + m[a] in m)
    && (forall a, b :: a in m && b in m && a < b ==> a + m[a] <= b)
  }

  predicate Covers(m: BlockMap, a: int, x: int) { a in m && a <= x < a + m[a] }

  /** Every address of a tiled range lies in exactly one block. */
  lemma {:induction false} CoveredOnce(m: BlockMap, lo: int, hi: int, x: int) returns (a: int)
    requires Tiles(m, lo, hi) && lo <= x < hi
    ensures Covers(m, a, x)
    ensures forall b :: Covers(m, b, x) ==> b == a
    decreases hi - lo
  {
    if x < lo + m[lo] {
      a := lo;
    } else {
      var rest := m - {lo};
      assert Tiles(rest, lo + m[lo], hi);
      hide Tiles;
      a := CoveredOnce(rest, lo + m[lo], hi, x);
    }
  }

  /** A block that does not start the range has a block ending where it starts. */
  lemma Predecessor(m: BlockMap, lo: int, hi: int, b: int) returns (a: int)
    requires Tiles(m, lo, hi) && b in m && lo < b
    ensures Ends(m, a, b)
  {
    a := CoveredOnce(m, lo, hi, b - 1);
  }

  /** The sizes of the blocks that start in [lo, hi), address by address. */
  function Sum(m: BlockMap, lo: int, hi: int): int
    decreases hi - lo
  {
    if lo < hi then (if lo in m then m[lo] else 0) + Sum(m, lo + 1, hi) else 0
  }

  /** No blocks have no size, and one block more adds its own. */
  lemma {:induction false} SumAdds(m: BlockMap, lo: int, hi: int, a: int, n: int)
    ensures Sum(map[], lo, hi) == 0
    ensures a !in m ==> Sum(m[a := n], lo, hi) == Sum(m, lo, hi) + if lo <= a < hi then n else 0
    decreases hi - lo
  {
    if lo < hi {
      SumAdds(m, lo + 1, hi, a, n);
    }
  }

  lemma {:induction false} SumOfBoth(m: BlockMap, k: BlockMap, lo: int, hi: int)
    requires m.Keys !! k.Keys
    ensures Sum(m + k, lo, hi) == Sum(m, lo, hi) + Sum(k, lo, hi)
    decreases hi - lo
  {
    if lo < hi {
      SumOfBoth(m, k, lo + 1, hi);
    }
  }

  lemma {:induction false} SumSkips(m: BlockMap, lo: int, next: int, hi: int)
    requires lo <= next <= hi && forall a :: lo <= a < next ==> a !in m
    ensures Sum(m, lo, hi) == Sum(m, next, hi)
    decreases next - lo
  {
    if lo < next {
      SumSkips(m, lo + 1, next, hi);
    }
  }

  /** Conservation: the sizes of the tiles add up to the length of the range. */
  lemma {:induction false} SizesAddUp(m: BlockMap, lo: int, hi: int)
    requires Tiles(m, lo, hi)
    ensures Sum(m, lo, hi) == hi - lo
    decreases hi - lo
  {
    if lo < hi {
      var next, rest := lo + m[lo], m - {lo};
      assert Tiles(rest, next, hi);
      assert rest[lo := m[lo]] == m;
      SizesAddUp(rest, next, hi);
      SumAdds(rest, lo, hi, lo, m[lo]);
      SumSkips(rest, lo, next, hi);
    }
  }

  lemma MergeTiles(m: BlockMap, lo: int, hi: int, a: int, b: int)
    requires Tiles(m, lo, hi) && Ends(m, a, b) && b in m
    ensures Tiles((m - {b})[a := m[a] + m[b]], lo, hi)
  {
  }

  lemma SplitTiles(m: BlockMap, lo: int, hi: int, a: int, n: int)
    requires Tiles(m, lo, hi) && a in m && 0 < n < m[a]
    ensures a + n !in m
    ensures Tiles(m[a := n][a + n := m[a] - n], lo, hi)
  {
  }

  lemma DropLastTile(m: BlockMap, lo: int, hi: int, a: int)
    requires Tiles(m, lo, hi) && Ends(m, a, hi)
    ensures Tiles(m - {a}, lo, a)
  {
    var rest := m - {a};
    if lo < a {
      assert lo in rest;
    }
    forall b | b in rest ensures b + rest[b] <= a && (b + rest[b] != a ==> b + rest[b] in rest) {
    }
  }

  lemma AppendTile(m: BlockMap, lo: int, hi: int, n: int)
    requires Tiles(m, lo, hi) && n > 0
    ensures hi !in m && Tiles(m[hi := n], lo, hi + n)
  {
  }
}

/** The guest malloc arena: first fit, splitting, coalescing and retraction of the top. */
module Heap {
  import opened Align
  import opened Blocks
  import opened Common

  const ARENA_SIZE := 0x0400_0000
  const ALIGN := 16

  /** A size rounded up to the allocation unit. */
  function Rounded(size: int): (r: int)
    ensures size <= r < size + 16 && r % 16 == 0
  {
    (size + 15) / 16 * 16
  }

  lemma UnitMultiple(x: int)
    ensures IsMultiple(x, 16) ==> x % 16 == 0
  {
  }

  lemma AlignedArithmetic(x: int, y: int)
    requires x % 16 == 0 && y % 16 == 0
    ensures (x - y) % 16 == 0 && (x + y) % 16 == 0
  {
  }

  lemma PageIsAligned(x: int)
    requires x % 0x1000 == 0
    ensures x % 16 == 0
  {
  }

  // ------------------------------------------------------------------ state and invariant

  datatype State = State(base: int, cursor: int, live: map<int, int>, free: BlockMap)

  function AllBlocks(live: map<int, int>, free: BlockMap): BlockMap {
    map a | a in live.Keys + free.Keys :: if a in live then Rounded(live[a]) else free[a]
  }

  ghost predicate Apart(free: BlockMap) {
    forall a :: a in free ==> a + free[a] !in free
  }

  ghost predicate NoneEndsAt(free: BlockMap, e: int) {
    forall a :: a in free ==> a + free[a] != e
  }

  ghost predicate Inv(s: State) {
    && s.base > 0 && s.base % 16 == 0
    && s.cursor <= s.base + ARENA_SIZE
    && s.live.Keys !! s.free.Keys
    && (forall a :: a in s.live ==> s.live[a] > 0)
    && (forall a :: a in s.free ==> s.free[a] % 16 == 0)
    && Tiles(AllBlocks(s.live, s.free), s.base, s.cursor)
    && Apart(s.free)
    && NoneEndsAt(s.free, s.cursor)
  }

  // ------------------------------------------------------------------ what callers can observe

  /** [p, p + need) lies in the arena and touches no live block. */
  ghost predicate Fits(live: map<int, int>, base: int, p: int, need: int) {
    && base <= p && p + need <= base + ARENA_SIZE
    && forall a :: a in live ==> a + Rounded(live[a]) <= p || p + need <= a
  }

  ghost predicate LowestFit(live: map<int, int>, base: int, p: int, need: int) {
    Fits(live, base, p, need) && forall q :: Fits(live, base, q, need) ==> p <= q
  }

  ghost predicate NoFit(live: map<int, int>, base: int, need: int) {
    forall p :: !Fits(live, base, p, need)
  }

  function RoundedSizes(live: map<int, int>): BlockMap { map a | a in live :: Rounded(live[a]) }

  /** Conservation: what is live, in allocation units, and what is free make up the used part of the arena. */
  lemma LiveAndFreeAddUp(s: State)
    requires Inv(s)
    ensures Sum(RoundedSizes(s.live), s.base, s.cursor) + Sum(s.free, s.base, s.cursor) == s.cursor - s.base
  {
    assert AllBlocks(s.live, s.free) == RoundedSizes(s.live) + s.free;
    SizesAddUp(AllBlocks(s.live, s.free), s.base, s.cursor);
    SumOfBoth(RoundedSizes(s.live), s.free, s.base, s.cursor);
  }

  /** No address below `limit` fits when every free block below it is too small. */
  lemma NoEarlierFit(s: State, need: int, limit: int, p: int)
    requires Inv(s) && need > 0 && limit <= s.cursor
    requires forall a :: a in s.free && a < limit ==> s.free[a] < need
    requires p < limit
    ensures !Fits(s.live, s.base, p, need)
  {
    if s.base <= p {
      var m := AllBlocks(s.live, s.free);
      var a := CoveredOnce(m, s.base, s.cursor, p);
      if a in s.free {
        assert a + m[a] in m;
      }
    }
  }

  /** The last block is live, so the cursor is the end of the highest live block. */
  lemma CursorIsTop(s: State)
    requires Inv(s)
    ensures forall a :: a in s.live ==> a + Rounded(s.live[a]) <= s.cursor
    ensures s.cursor == s.base || exists a :: a in s.live && a + Rounded(s.live[a]) == s.cursor
  {
    var m := AllBlocks(s.live, s.free);
    assert forall a :: a in s.live ==> a in m;
    if s.base < s.cursor {
      var a := CoveredOnce(m, s.base, s.cursor, s.cursor - 1);
      assert a in s.live;
    }
  }

  lemma LiveBefore(s: State, a: int) returns (p: int)
    requires Inv(s) && a in s.free && s.base < a
    ensures p in s.live && p + Rounded(s.live[p]) == a
  {
    var m := AllBlocks(s.live, s.free);
    assert a in m;
    p := Predecessor(m, s.base, s.cursor, a);
  }

  lemma SameFreeBlock(s: State, t: State, a: int)
    requires Inv(s) && Inv(t) && s.base == t.base && s.live == t.live && s.cursor == t.cursor
    requires a in s.free
    ensures a in t.free && t.free[a] == s.free[a]
  {
    var ms, mt := AllBlocks(s.live, s.free), AllBlocks(t.live, t.free);
    assert a in ms;
    var b := CoveredOnce(mt, t.base, t.cursor, a);
    var inS := CoveredOnce(ms, s.base, s.cursor, a);
    assert Covers(ms, a, a);
    assert forall k :: k in s.live ==> (Covers(mt, k, a) <==> Covers(ms, k, a));
    if s.base < a {
      var p := LiveBefore(s, a);
      assert Ends(mt, p, a);
    }
    SameFreeEnd(s, t, a);
    SameFreeEnd(t, s, a);
  }

  lemma LiveIsInArena(s: State, a: int)
    requires Inv(s)
    ensures a in s.live ==> s.base <= a && a + Rounded(s.live[a]) <= s.cursor
  {
    assert a in s.live ==> a in AllBlocks(s.live, s.free);
  }

  lemma OthersAreApart(s: State, a: int)
    requires Inv(s) && a in s.live
    ensures Fits(s.live - {a}, s.base, a, Rounded(s.live[a]))
  {
    var m := AllBlocks(s.live, s.free);
    assert forall b :: b in s.live ==> b in m;
  }

  lemma SameFreeEnd(s: State, t: State, a: int)
    requires Inv(s) && Inv(t) && s.base == t.base && s.live == t.live && s.cursor == t.cursor
    requires a in s.free && a in t.free
    ensures s.free[a] <= t.free[a]
  {
    var ms, mt := AllBlocks(s.live, s.free), AllBlocks(t.live, t.free);
    var e := a + t.free[a];
    assert a in mt && a in ms && e in mt && e in t.live;
    assert e in ms;
  }

  /** The free list and the cursor are functions of the live blocks: the order of frees is forgotten. */
  lemma FreeListIsDetermined(s: State, t: State)
    requires Inv(s) && Inv(t) && s.base == t.base && s.live == t.live
    ensures s == t
  {
    CursorIsTop(s);
    CursorIsTop(t);
    forall a | a in s.free ensures a in t.free && t.free[a] == s.free[a] { SameFreeBlock(s, t, a); }
    forall a | a in t.free ensures a in s.free { SameFreeBlock(t, s, a); }
    assert s.free == t.free;
  }

  /** With nothing allocated the arena is as it was created. */
  lemma EmptyHeapIsReset(s: State)
    requires Inv(s) && s.live == map[]
    ensures s.cursor == s.base && s.free == map[]
  {
    var t := State(s.base, s.base, map[], map[]);
    assert AllBlocks(t.live, t.free) == map[];
    FreeListIsDetermined(s, t);
  }

  // ------------------------------------------------------------------ the allocator

  /** `ValueError` is the source's exception; address 0 is its out-of-memory answer. */
  datatype Outcome = Addr(addr: int) | ValueError

  lemma {:induction false} LeastExists(s: set<int>) returns (least: int)
    requires |s| > 0
    ensures least in s && forall x :: x in s ==> least <= x
    decreases |s|
  {
    var one := Pick(s);
    least := one;
    if |s - {one}| > 0 {
      var other := LeastExists(s - {one});
      least := if other < one then other else one;
    }
    assert forall x :: x in s ==> x == one || x in s - {one};
  }

  ghost predicate FirstFit(free: BlockMap, a: int, need: int) {
    a in free && free[a] >= need && forall b :: b in free && b < a ==> free[b] < need
  }

  /** Every block not in `rest` is too small and lies below `rest`. */
  ghost predicate Scanned(free: BlockMap, rest: set<int>, need: int) {
    forall a :: a in free && a !in rest ==> free[a] < need && forall b :: b in rest ==> a < b
  }

  function Taken(free: BlockMap, a: int, need: int): BlockMap
    requires a in free
  {
    if free[a] - need >= ALIGN then (free - {a})[a + need := free[a] - need] else free - {a}
  }

  /** The first fitting free block starts the lowest fitting range. */
  lemma FirstFitIsLowest(s: State, a: int, need: int)
    requires Inv(s) && need > 0 && FirstFit(s.free, a, need)
    ensures LowestFit(s.live, s.base, a, need)
  {
    var m := AllBlocks(s.live, s.free);
    assert a in m;
    assert forall b :: b in s.live ==> b in m;
    forall q | Fits(s.live, s.base, q, need) ensures a <= q {
      if q < a { NoEarlierFit(s, need, a, q); }
    }
  }

  lemma TakingWhole(s: State, a: int, size: int)
    requires Inv(s) && size > 0 && a in s.free && s.free[a] == Rounded(size)
    ensures Inv(s.(live := s.live[a := size], free := s.free - {a}))
  {
    assert AllBlocks(s.live[a := size], s.free - {a}) == AllBlocks(s.live, s.free);
  }

  lemma SplitStaysApart(s: State, a: int, n: int)
    requires Inv(s) && a in s.free && 0 < n < s.free[a]
    ensures a + n !in s.live && a + n !in s.free
    ensures var free := (s.free - {a})[a + n := s.free[a] - n]; Apart(free) && NoneEndsAt(free, s.cursor)
  {
    var m := AllBlocks(s.live, s.free);
    assert a in m && forall b :: b in s.free ==> b in m;
    assert a + n !in m by { SplitTiles(m, s.base, s.cursor, a, n); }
    forall b | b in s.free && b != a ensures b + s.free[b] != a + n {
      assert b + m[b] <= a || a + m[a] <= b;
    }
  }

  lemma TakingPart(s: State, a: int, size: int)
    requires Inv(s) && size > 0 && a in s.free && s.free[a] > Rounded(size)
    ensures Inv(s.(live := s.live[a := size], free := (s.free - {a})[a + Rounded(size) := s.free[a] - Rounded(size)]))
  {
    SplitStaysApart(s, a, Rounded(size));
    PartTiles(s, a, size);
    AlignedArithmetic(s.free[a], Rounded(size));
    hide Tiles, AllBlocks, Apart, NoneEndsAt, Rounded;
  }

  lemma PartTiles(s: State, a: int, size: int)
    requires Inv(s) && size > 0 && a in s.free && s.free[a] > Rounded(size)
    ensures var need := Rounded(size);
      Tiles(AllBlocks(s.live[a := size], (s.free - {a})[a + need := s.free[a] - need]), s.base, s.cursor)
  {
    hide Apart, NoneEndsAt, Rounded;
    var need, m := Rounded(size), AllBlocks(s.live, s.free);
    SplitTiles(m, s.base, s.cursor, a, need);
    hide Tiles;
    assert AllBlocks(s.live[a := size], (s.free - {a})[a + need := s.free[a] - need])
        == m[a := need][a + need := m[a] - need];
  }

  /** Reusing a free block keeps the tiling; the remainder, if any, is at least one unit. */
  lemma TakingKeepsInv(s: State, a: int, size: int)
    requires Inv(s) && size > 0 && FirstFit(s.free, a, Rounded(size))
    ensures Inv(s.(live := s.live[a := size], free := Taken(s.free, a, Rounded(size))))
    ensures LowestFit(s.live, s.base, a, Rounded(size))
  {
    assert s.free[a] % 16 == 0;
    hide Inv, LowestFit, FirstFit;
    FirstFitIsLowest(s, a, Rounded(size));
    assert (s.free[a] - Rounded(size)) % 16 == 0;
    if s.free[a] == Rounded(size) {
      TakingWhole(s, a, size);
    } else {
      TakingPart(s, a, size);
    }
  }

  /** Bumping the cursor appends a tile. */
  lemma BumpingKeepsInv(s: State, size: int)
    requires Inv(s) && size > 0 && s.cursor + Rounded(size) <= s.base + ARENA_SIZE
    requires forall a :: a in s.free ==> s.free[a] < Rounded(size)
    ensures s.cursor !in s.live
    ensures Inv(s.(live := s.live[s.cursor := size], cursor := s.cursor + Rounded(size)))
    ensures LowestFit(s.live, s.base, s.cursor, Rounded(size))
  {
    var need := Rounded(size);
    LiveOnTop(s, size);
    forall q | Fits(s.live, s.base, q, need) ensures s.cursor <= q {
      if q < s.cursor { NoEarlierFit(s, need, s.cursor, q); }
    }
  }

  lemma FullMeansNoFit(s: State, need: int)
    requires Inv(s) && need > 0 && s.cursor + need > s.base + ARENA_SIZE
    requires forall a :: a in s.free ==> s.free[a] < need
    ensures NoFit(s.live, s.base, need)
  {
    forall p ensures !Fits(s.live, s.base, p, need) {
      if p < s.cursor { NoEarlierFit(s, need, s.cursor, p); }
    }
  }

  /** Everything but "no free block ends at the cursor". */
  ghost predicate Unretracted(s: State) {
    && s.base > 0 && s.base % 16 == 0
    && s.cursor <= s.base + ARENA_SIZE
    && s.live.Keys !! s.free.Keys
    && (forall b :: b in s.live ==> s.live[b] > 0)
    && (forall b :: b in s.free ==> s.free[b] % 16 == 0)
    && Tiles(AllBlocks(s.live, s.free), s.base, s.cursor)
    && Apart(s.free)
  }

  lemma BlocksBelow(s: State)
    requires Inv(s)
    ensures forall b :: b in s.live ==> b < s.cursor
    ensures forall b :: b in s.free ==> b < s.cursor && b + s.free[b] <= s.cursor
  {
    var m := AllBlocks(s.live, s.free);
    assert (forall b :: b in s.live ==> b in m) && forall b :: b in s.free ==> b in m;
  }

  lemma PaddedTiles(s: State, start: int)
    requires Inv(s) && s.cursor < start
    ensures Tiles(AllBlocks(s.live, s.free[s.cursor := start - s.cursor]), s.base, start)
  {
    var m, n := AllBlocks(s.live, s.free), start - s.cursor;
    BlocksBelow(s);
    AppendTile(m, s.base, s.cursor, n);
    assert AllBlocks(s.live, s.free[s.cursor := n]) == m[s.cursor := n];
  }

  /** Padding the top with a free block; the state waits for the block above it. */
  lemma PaddingTop(s: State, start: int)
    requires Inv(s) && s.cursor < start && start % 16 == 0 && start <= s.base + ARENA_SIZE
    ensures Unretracted(State(s.base, start, s.live, s.free[s.cursor := start - s.cursor]))
  {
    CursorIsAligned(s);
    AlignedArithmetic(start, s.cursor);
    BlocksBelow(s);
    PaddedTiles(s, start);
    PaddedIsApart(s.free, s.cursor, start);
  }

  lemma PaddedIsApart(free: BlockMap, cursor: int, start: int)
    requires Apart(free) && NoneEndsAt(free, cursor) && cursor < start
    requires forall b :: b in free ==> b < cursor && b + free[b] <= cursor
    ensures Apart(free[cursor := start - cursor])
  {
  }

  lemma LiveOnTop(s: State, size: int)
    requires Unretracted(s) && size > 0 && s.cursor + Rounded(size) <= s.base + ARENA_SIZE
    ensures s.cursor !in s.live
    ensures Fits(s.live, s.base, s.cursor, Rounded(size))
    ensures Inv(s.(live := s.live[s.cursor := size], cursor := s.cursor + Rounded(size)))
  {
    var m := AllBlocks(s.live, s.free);
    assert (forall b :: b in s.live ==> b in m) && forall b :: b in s.free ==> b in m;
    AppendTile(m, s.base, s.cursor, Rounded(size));
    assert AllBlocks(s.live[s.cursor := size], s.free) == m[s.cursor := Rounded(size)];
  }

  /** An aligned block above the cursor; the gap below it, if any, becomes a free block. */
  lemma AligningKeepsInv(s: State, start: int, size: int)
    requires Inv(s) && size > 0 && s.cursor <= start && start % 16 == 0
    requires start + Rounded(size) <= s.base + ARENA_SIZE
    ensures Fits(s.live, s.base, start, Rounded(size))
    ensures Inv(State(s.base, start + Rounded(size), s.live[start := size],
                      if start > s.cursor then s.free[s.cursor := start - s.cursor] else s.free))
  {
    hide Tiles, AllBlocks, Apart, NoneEndsAt, Fits, Rounded;
    if start > s.cursor {
      PaddingTop(s, start);
      hide Inv, Unretracted;
      LiveOnTop(State(s.base, start, s.live, s.free[s.cursor := start - s.cursor]), size);
    } else {
      LiveOnTop(s, size);
    }
  }

  lemma {:induction false} TilesAligned(m: BlockMap, lo: int, hi: int)
    requires Tiles(m, lo, hi) && lo % 16 == 0 && forall a :: a in m ==> m[a] % 16 == 0
    ensures hi % 16 == 0
    decreases hi - lo
  {
    if lo < hi {
      var next, rest := lo + m[lo], m - {lo};
      assert m[lo] % 16 == 0 && next % 16 == 0;
      assert Tiles(rest, next, hi);
      hide Tiles;
      TilesAligned(rest, next, hi);
    }
  }

  lemma CursorIsAligned(s: State)
    requires Inv(s)
    ensures s.cursor % 16 == 0
  {
    TilesAligned(AllBlocks(s.live, s.free), s.base, s.cursor);
  }

  // A hole is a block in neither map: the one `_insert_free` is about to file.

  ghost predicate Hole(s: State, a: int, n: int) {
    && s.base > 0 && s.base % 16 == 0
    && s.cursor <= s.base + ARENA_SIZE
    && s.live.Keys !! s.free.Keys
    && (forall b :: b in s.live ==> s.live[b] > 0)
    && (forall b :: b in s.free ==> s.free[b] % 16 == 0)
    && a !in s.live && a !in s.free && n > 0 && n % 16 == 0
    && Tiles(AllBlocks(s.live, s.free[a := n]), s.base, s.cursor)
    && Apart(s.free) && NoneEndsAt(s.free, s.cursor)
  }

  lemma FreeingLeavesHole(s: State, a: int)
    requires Inv(s) && a in s.live
    ensures Hole(s.(live := s.live - {a}), a, Rounded(s.live[a]))
  {
    var n := Rounded(s.live[a]);
    assert AllBlocks(s.live - {a}, s.free[a := n]) == AllBlocks(s.live, s.free);
  }

  lemma MergingRight(s: State, a: int, n: int)
    requires Hole(s, a, n) && a + n in s.free
    ensures var b := a + n;
      Hole(s.(free := s.free - {b}), a, n + s.free[b]) && a + (n + s.free[b]) !in s.free - {b}
  {
    var b := a + n;
    var m := AllBlocks(s.live, s.free[a := n]);
    AlignedArithmetic(n, s.free[b]);
    MergeTiles(m, s.base, s.cursor, a, b);
    assert AllBlocks(s.live, (s.free - {b})[a := n + s.free[b]]) == (m - {b})[a := m[a] + m[b]];
  }

  lemma MergingLeft(s: State, a: int, n: int, p: int)
    requires Hole(s, a, n) && a + n !in s.free && Ends(s.free, p, a)
    ensures var t := s.(free := s.free - {p});
      Hole(t, p, n + s.free[p]) && a + n !in t.free && NoneEndsAt(t.free, p)
  {
    var m := AllBlocks(s.live, s.free[a := n]);
    AlignedArithmetic(n, s.free[p]);
    MergeTiles(m, s.base, s.cursor, p, a);
    assert AllBlocks(s.live, (s.free - {p})[p := n + s.free[p]]) == (m - {a})[p := m[p] + m[a]];
  }

  lemma FilingHole(s: State, a: int, n: int)
    requires Hole(s, a, n) && a + n !in s.free && NoneEndsAt(s.free, a) && a + n != s.cursor
    ensures Inv(s.(free := s.free[a := n]))
  {
  }

  lemma RetractingHole(s: State, a: int, n: int)
    requires Hole(s, a, n) && a + n == s.cursor
    ensures Unretracted(s.(cursor := a))
  {
    var m := AllBlocks(s.live, s.free[a := n]);
    DropLastTile(m, s.base, s.cursor, a);
    assert AllBlocks(s.live, s.free) == m - {a};
  }

  lemma RetractingBlock(s: State, a: int)
    requires Unretracted(s) && Ends(s.free, a, s.cursor)
    ensures Unretracted(s.(cursor := a, free := s.free - {a}))
    ensures s.base <= a < s.cursor
  {
    var m := AllBlocks(s.live, s.free);
    DropLastTile(m, s.base, s.cursor, a);
    assert AllBlocks(s.live, s.free - {a}) == m - {a};
  }

  class HeapAllocator {
    const base: int
    const pointerSize: int
    const arena: array<Byte>
    var cursor: int
    var sizes: map<int, int>
    var free: map<int, int>

    ghost function Now(): State
      reads this
    {
      State(base, cursor, sizes, free)
    }

    ghost predicate Valid()
      reads this
    {
      Inv(Now()) && arena.Length == ARENA_SIZE
    }

    /** `start` is the page-aligned address of the freshly mapped, zero-filled arena. */
    constructor (start: int, pointerBytes: int)
      requires start > 0 && start % 0x1000 == 0
      ensures Valid() && fresh(arena)
      ensures base == start && pointerSize == pointerBytes && sizes == map[]
    {
      base, pointerSize := start, pointerBytes;
      arena := new Byte[ARENA_SIZE](_ => 0);
      cursor, sizes, free := start, map[], map[];
      new;
      PageIsAligned(start);
      assert AllBlocks(sizes, free) == map[];
    }

    method TakeFree(need: int) returns (r: Option<int>)
      requires Valid() && need > 0
      modifies this`free
      ensures r == None ==> free == old(free) && forall a :: a in free ==> free[a] < need
      ensures r.Some? ==> FirstFit(old(free), r.value, need) && free == Taken(old(free), r.value, need)
    {
      hide Inv;
      var rest := free.Keys;
      while rest != {}
        invariant rest <= free.Keys && free == old(free)
        invariant Scanned(free, rest, need)
        decreases rest
      {
        ghost var least := LeastExists(rest);
        var addr :| addr in rest && forall x :: x in rest ==> addr <= x;
        var block := free[addr];
        if block >= need {
          free := free - {addr};
          if block - need >= ALIGN {
            free := free[addr + need := block - need];
          }
          return Some(addr);
        }
        rest := rest - {addr};
      }
      return None;
    }

    /** Some free block ending at `x`, as the source's scans of the free dictionary find it. */
    method EndingAt(x: int) returns (r: Option<int>)
      ensures r.Some? ==> Ends(free, r.value, x)
      ensures r == None ==> NoneEndsAt(free, x)
    {
      var rest := free.Keys;
      while rest != {}
        invariant rest <= free.Keys
        invariant forall a :: a in free && a !in rest ==> a + free[a] != x
        decreases rest
      {
        ghost var one := Pick(rest);
        var a :| a in rest;
        if a + free[a] == x {
          return Some(a);
        }
        rest := rest - {a};
      }
      return None;
    }

    /** The retraction loop. The last postcondition is why, after coalescing, it never turns. */
    method Retract()
      requires Unretracted(Now())
      modifies this`cursor, this`free
      ensures Unretracted(Now()) && NoneEndsAt(free, cursor)
      ensures NoneEndsAt(old(free), old(cursor)) ==> cursor == old(cursor) && free == old(free)
    {
      var previous := EndingAt(cursor);
      while previous.Some?
        invariant Unretracted(Now())
        invariant previous.Some? ==> Ends(free, previous.value, cursor)
        invariant previous == None ==> NoneEndsAt(free, cursor)
        invariant NoneEndsAt(old(free), old(cursor)) ==> previous == None && cursor == old(cursor) && free == old(free)
        invariant base <= cursor
        decreases cursor - base
      {
        RetractingBlock(Now(), previous.value);
        cursor := previous.value;
        free := free - {previous.value};
        previous := EndingAt(cursor);
      }
    }

    /** The last step of filing a coalesced block: give it back to the top, or list it. */
    method File(a: int, n: int)
      requires Hole(Now(), a, n) && a + n !in free && NoneEndsAt(free, a)
      modifies this`cursor, this`free
      ensures Inv(Now())
      ensures cursor == if a + n == old(cursor) then a else old(cursor)
    {
      if a + n == cursor {
        RetractingHole(Now(), a, n);
        cursor := a;
        Retract();
      } else {
        FilingHole(Now(), a, n);
        free := free[a := n];
      }
    }

    method MergeNext(a: int, n: int) returns (m: int)
      requires Hole(Now(), a, n)
      modifies this`free
      ensures Hole(Now(), a, m) && a + m !in free
    {
      m := n;
      if a + n in free {
        MergingRight(Now(), a, n);
        m := n + free[a + n];
        free := free - {a + n};
      }
    }

    method MergePrevious(a: int, n: int) returns (b: int, m: int)
      requires Hole(Now(), a, n) && a + n !in free
      modifies this`free
      ensures Hole(Now(), b, m) && b + m !in free && NoneEndsAt(free, b)
    {
      hide Hole, NoneEndsAt;
      b, m := a, n;
      var prev := EndingAt(a);
      if prev.Some? {
        MergingLeft(Now(), a, n, prev.value);
        b, m := prev.value, n + free[prev.value];
        free := free - {b};
      }
    }

    method InsertFree(addr: int, size: int)
      requires Hole(Now(), addr, size)
      modifies this`cursor, this`free
      ensures Inv(Now())
    {
      var n := MergeNext(addr, size);
      var a;
      a, n := MergePrevious(addr, n);
      File(a, n);
    }

    /** Allocation is lowest fit over the live blocks, whatever the free list looks like. */
    method Malloc(size: int) returns (r: Outcome)
      requires Valid()
      modifies this`cursor, this`sizes, this`free
      ensures Valid()
      ensures r == ValueError <==> size < 0
      ensures r.Addr? && r.addr != 0 ==>
                size > 0 && LowestFit(old(sizes), base, r.addr, Rounded(size)) && sizes == old(sizes)[r.addr := size]
      ensures r.Addr? && r.addr == 0 ==> (size == 0 || NoFit(old(sizes), base, Rounded(size))) && sizes == old(sizes)
      ensures r == ValueError ==> Now() == old(Now())
    {
      if size < 0 {
        return ValueError;
      }
      if size == 0 {
        return Addr(0);
      }
      ghost var before := Now();
      var need := Rounded(size);
      var taken := TakeFree(need);
      var addr;
      if taken == None {
        if need > ARENA_SIZE || cursor + need > base + ARENA_SIZE {
          FullMeansNoFit(before, need);
          return Addr(0);
        }
        BumpingKeepsInv(before, size);
        addr := cursor;
        cursor := cursor + need;
      } else {
        TakingKeepsInv(before, taken.value, size);
        addr := taken.value;
      }
      sizes := sizes[addr := size];
      return Addr(addr);
    }

    method Free(addr: int) returns (r: Outcome)
      requires Valid()
      modifies this`cursor, this`sizes, this`free
      ensures Valid()
      ensures r == if addr != 0 && addr !in old(sizes) then ValueError else Addr(0)
      ensures sizes == old(sizes) - {addr}
      ensures addr !in old(sizes) ==> Now() == old(Now())
    {
      if addr == 0 {
        LiveIsInArena(Now(), 0);
        return Addr(0);
      }
      if addr !in sizes {
        return ValueError;
      }
      FreeingLeavesHole(Now(), addr);
      var size := sizes[addr];
      sizes := sizes - {addr};
      InsertFree(addr, Rounded(size));
      return Addr(0);
    }

    /** Offset in the arena's bytes; every live byte has one. */
    function At(addr: int): int { addr - base }

    ghost predicate OnlyChanged(was: seq<Byte>, from: int, n: int)
      reads arena
      requires |was| == arena.Length
    {
      forall k :: 0 <= k < arena.Length && !(from <= k < from + n) ==> arena[k] == was[k]
    }

    /** The block is zeroed; no byte outside it changes. */
    method Calloc(count: int, size: int) returns (r: Outcome)
      requires Valid() && pointerSize in {4, 8}
      modifies this`cursor, this`sizes, this`free, arena
      ensures Valid()
      ensures r == ValueError <==> count < 0 || size < 0
      ensures r.Addr? && r.addr != 0 ==>
                && 0 < count * size < (if pointerSize == 8 then 0x1_0000_0000_0000_0000 else 0x1_0000_0000)
                && LowestFit(old(sizes), base, r.addr, Rounded(count * size))
                && sizes == old(sizes)[r.addr := count * size]
                && (forall k :: At(r.addr) <= k < At(r.addr) + count * size ==> arena[k] == 0)
                && OnlyChanged(old(arena[..]), At(r.addr), count * size)
      ensures r.Addr? && r.addr == 0 ==>
                && (count * size == 0 || NoFit(old(sizes), base, Rounded(count * size))
                    || count * size >= (if pointerSize == 8 then 0x1_0000_0000_0000_0000 else 0x1_0000_0000))
                && sizes == old(sizes) && arena[..] == old(arena[..])
      ensures r == ValueError ==> Now() == old(Now()) && arena[..] == old(arena[..])
    {
      if count < 0 || size < 0 {
        return ValueError;
      }
      var total := count * size;
      if total > (if pointerSize == 8 then 0x1_0000_0000_0000_0000 else 0x1_0000_0000) - 1 {
        return Addr(0);
      }
      r := Malloc(total);
      if r.addr != 0 {
        var from := At(r.addr);
        forall k | from <= k < from + total {
          arena[k] := 0;
        }
      }
    }

    /** The n bytes at addr; empty when they leave the arena. */
    ghost function Bytes(addr: int, n: int): seq<Byte>
      reads arena
    {
      if 0 <= At(addr) && 0 <= n && At(addr) + n <= arena.Length then arena[At(addr)..At(addr) + n] else []
    }

    method CopyBytes(from: int, to: int, n: int)
      requires 0 <= At(from) && 0 <= At(to) && 0 <= n && At(from) + n <= arena.Length && At(to) + n <= arena.Length
      modifies arena
      ensures Bytes(to, n) == old(Bytes(from, n)) && OnlyChanged(old(arena[..]), At(to), n)
    {
      var data := arena[At(from)..At(from) + n];
      forall k | 0 <= k < n {
        arena[At(to) + k] := data[k];
      }
      assert arena[At(to)..At(to) + n] == data;
    }

    /** Reallocation of a live block to a positive size: the new block is found while the old one is live. */
    method Move(addr: int, size: int) returns (r: Outcome)
      requires Valid() && addr in sizes && size > 0
      modifies this`cursor, this`sizes, this`free, arena
      ensures Valid() && r.Addr?
      ensures r.addr != 0 ==>
                var kept := Min(old(sizes)[addr], size);
                && LowestFit(old(sizes), base, r.addr, Rounded(size))
                && addr != r.addr && sizes == old(sizes)[r.addr := size] - {addr}
                && Bytes(r.addr, kept) == old(Bytes(addr, kept)) && kept == |Bytes(r.addr, kept)|
                && OnlyChanged(old(arena[..]), At(r.addr), kept)
      ensures r.addr == 0 ==>
                NoFit(old(sizes), base, Rounded(size)) && sizes == old(sizes) && arena[..] == old(arena[..])
    {
      LiveIsInArena(Now(), addr);
      var oldSize := sizes[addr];
      r := Malloc(size);
      if r.addr != 0 {
        assert addr != r.addr;
        CopyBytes(addr, r.addr, Min(oldSize, size));
        var _ := Free(addr);
      }
    }

    /** The contents move with the block; the old block stays when there is no room. */
    method Realloc(addr: int, size: int) returns (r: Outcome)
      requires Valid()
      modifies this`cursor, this`sizes, this`free, arena
      ensures Valid()
      ensures r == ValueError <==> size < 0 || (addr != 0 && addr !in old(sizes))
      ensures r == ValueError ==> Now() == old(Now())
      ensures r.Addr? && r.addr != 0 ==>
                && size > 0 && LowestFit(old(sizes), base, r.addr, Rounded(size))
                && addr != r.addr && sizes == old(sizes)[r.addr := size] - {addr}
      ensures r.Addr? && r.addr != 0 && addr != 0 ==>
                var kept := Min(old(sizes)[addr], size);
                && Bytes(r.addr, kept) == old(Bytes(addr, kept)) && kept == |Bytes(r.addr, kept)|
                && OnlyChanged(old(arena[..]), At(r.addr), kept)
      ensures r == ValueError || r.addr == 0 || addr == 0 ==> arena[..] == old(arena[..])
      ensures r == Addr(0) ==>
                if size == 0 then sizes == old(sizes) - {addr}
                else sizes == old(sizes) && NoFit(old(sizes), base, Rounded(size))
    {
      if size < 0 {
        return ValueError;
      }
      if addr == 0 {
        LiveIsInArena(Now(), 0);
        r := Malloc(size);
      } else if addr !in sizes {
        r := ValueError;
      } else if size == 0 {
        r := Free(addr);
      } else {
        r := Move(addr, size);
      }
    }

    method PlaceAbove(start: int, size: int)
      requires Valid() && size > 0 && cursor <= start && start % 16 == 0
      requires start + Rounded(size) <= base + ARENA_SIZE
      modifies this`cursor, this`sizes, this`free
      ensures Valid() && sizes == old(sizes)[start := size] && Fits(old(sizes), base, start, Rounded(size))
    {
      AligningKeepsInv(Now(), start, size);
      if start > cursor {
        free := free[cursor := start - cursor];
      }
      cursor := start + Rounded(size);
      sizes := sizes[start := size];
    }

    /** Aligned allocation always extends the top: free blocks below the cursor are not reused. */
    method Memalign(alignment: int, size: int) returns (r: Outcome)
      requires Valid()
      modifies this`cursor, this`sizes, this`free
      ensures Valid()
      ensures r == ValueError <==> alignment < 1 || !IsPowerOfTwo(alignment) || size < 0
      ensures r == ValueError ==> Now() == old(Now())
      ensures r.Addr? ==>
                if r.addr != 0 then
                  && LeastMultiple(old(cursor), Max(alignment, 16), r.addr)
                  && Fits(old(sizes), base, r.addr, Rounded(size)) && sizes == old(sizes)[r.addr := size]
                else
                  && Now() == old(Now())
                  && (size == 0 || exists start ::
                        LeastMultiple(cursor, Max(alignment, 16), start) && start + Rounded(size) > base + ARENA_SIZE)
    {
      if alignment < 1 || !IsPowerOfTwo(alignment) {
        return ValueError;
      }
      if size < 0 {
        return ValueError;
      }
      if size == 0 {
        return Addr(0);
      }
      var unit := Max(alignment, 16);
      var need := Rounded(size);
      var start := RoundUp(cursor, unit);
      if need > ARENA_SIZE || start + need > base + ARENA_SIZE {
        CursorIsTop(Now());
        return Addr(0);
      }
      assert IsPowerOfTwo(16) by { assert IsPowerOfTwo(1) && IsPowerOfTwo(2) && IsPowerOfTwo(4) && IsPowerOfTwo(8); }
      PowersDivide(unit, 16);
      MultipleOfMultiple(start, unit, 16);
      UnitMultiple(start);
      PlaceAbove(start, size);
      return Addr(start);
    }

    /** Foreign pointers are refused; an address that starts no live block has no usable bytes. */
    method UsableSize(addr: int) returns (r: Outcome)
      requires Valid()
      ensures r == ValueError <==> addr != 0 && !(base <= addr < base + ARENA_SIZE)
      ensures r.Addr? && addr in sizes ==>
                r.addr == Rounded(sizes[addr]) >= sizes[addr] && Fits(sizes - {addr}, base, addr, r.addr)
      ensures r.Addr? && addr !in sizes ==> r.addr == 0
    {
      if addr != 0 && !(base <= addr < base + ARENA_SIZE) {
        return ValueError;
      }
      if addr in sizes {
        LiveIsInArena(Now(), addr);
        OthersAreApart(Now(), addr);
        return Addr(Rounded(sizes[addr]));
      }
      return Addr(0);
    }
  }
}
