/** Guest mappings: the tracked region list kept equal to the engine's page map. */
module MemoryManager {
  import opened Align
  import opened Bytes
  import opened Common
  import opened Regions

  const HEAP_BASE := 0x0800_0000
  const MMAP_BASE := 0x2000_0000
  const LIB_BASE := 0x4000_0000
  const RETURN_SENTINEL := 0x5000_0000
  const RW: Perms := 3

  /** `ValueError` and `Crashed` are the source's ValueError and EmulatorCrashed. */
  datatype Outcome = Ok(value: int) | ValueError | Crashed

  function PageUp(x: int): (r: int)
    ensures x <= r < x + PAGE && r % PAGE == 0
  {
    (x + PAGE - 1) / PAGE * PAGE
  }

  function PageDown(x: int): (r: int)
    ensures r <= x < r + PAGE && r % PAGE == 0
  {
    x / PAGE * PAGE
  }

  function PermsOf(v: View): map<int, Perms> {
    map a | a in v :: v[a].perms
  }

  ghost predicate AllMapped(v: View, lo: int, hi: int) { forall a :: lo <= a < hi ==> a in v }

  ghost predicate NoneMapped(v: View, lo: int, hi: int) { forall a :: lo <= a < hi ==> a !in v }

  ghost predicate FreeAt(v: View, b: int, need: int) { NoneMapped(v, b, b + need) }

  function Reprotected(v: View, lo: int, hi: int, perms: Perms): View {
    map a | a in v :: if lo <= a < hi then v[a].(perms := perms) else v[a]
  }

  predicate SamePage(a: int, b: int) { a / PAGE == b / PAGE }

  /** Address `a` lies on a page of which the request [address, address + size) has a part. */
  ghost predicate Meets(a: int, address: int, size: int) {
    exists b :: address <= b < address + size && SamePage(a, b)
  }

  /** The pages a request meets are the range between the page of its first address and that of its last. */
  lemma MeetsTouched(address: int, size: int, lo: int, hi: int)
    requires size > 0 && lo % PAGE == 0 && hi % PAGE == 0
    requires lo <= address < lo + PAGE && address + size <= hi < address + size + PAGE
    ensures forall a :: Meets(a, address, size) <==> lo <= a < hi
  {
    forall a
      ensures Meets(a, address, size) <==> lo <= a < hi
    {
      var first := PAGE * (a / PAGE);
      assert forall b :: SamePage(a, b) <==> first <= b < first + PAGE;
      if lo <= a < hi {
        assert lo <= first && first + PAGE <= hi;
        assert SamePage(a, Max(first, address)) && address <= Max(first, address) < address + size;
      }
    }
  }

  /** The CPU engine's page map. Every operation either succeeds whole or changes nothing. */
  class Engine {
    var cells: map<int, Perms>

    constructor ()
      ensures cells == map[]
    {
      cells := map[];
    }

    method MemMap(lo: int, hi: int, perms: Perms) returns (ok: bool)
      modifies this
      ensures ok <==> forall a :: lo <= a < hi ==> a !in old(cells)
      ensures cells == if ok then old(cells) + (map a | a in Range(lo, hi) :: perms) else old(cells)
    {
      ok := Range(lo, hi) !! cells.Keys;
      assert !ok ==> exists a :: a in Range(lo, hi) && a in cells;
      if ok {
        cells := cells + (map a | a in Range(lo, hi) :: perms);
      }
    }

    method MemUnmap(lo: int, hi: int) returns (ok: bool)
      modifies this
      ensures ok <==> forall a :: lo <= a < hi ==> a in old(cells)
      ensures cells == if ok then old(cells) - Range(lo, hi) else old(cells)
    {
      ok := Range(lo, hi) <= cells.Keys;
      if ok {
        cells := cells - Range(lo, hi);
      }
    }

    method MemProtect(lo: int, hi: int, perms: Perms) returns (ok: bool)
      modifies this
      ensures ok <==> forall a :: lo <= a < hi ==> a in old(cells)
      ensures cells == if ok then old(cells) + (map a | a in Range(lo, hi) :: perms) else old(cells)
    {
      ok := Range(lo, hi) <= cells.Keys;
      if ok {
        cells := cells + (map a | a in Range(lo, hi) :: perms);
      }
    }
  }

  function Overlapping(rs: seq<Region>, lo: int, hi: int): seq<Region> {
    if rs == [] then []
    else (if rs[0].base < hi && rs[0].End() > lo then [rs[0]] else []) + Overlapping(rs[1..], lo, hi)
  }

  lemma {:induction false} OverlappingMembers(rs: seq<Region>, lo: int, hi: int)
    ensures forall r :: r in Overlapping(rs, lo, hi) <==> r in rs && r.base < hi && r.End() > lo
  {
    if rs != [] {
      OverlappingMembers(rs[1..], lo, hi);
      assert forall r :: r in rs <==> r == rs[0] || r in rs[1..];
    }
  }

  /** The part of each overlapping region that a protection change splits off. */
  function Clipped(rs: seq<Region>, lo: int, hi: int, perms: Perms): seq<Region> {
    if rs == [] then []
    else (if rs[0].base < hi && rs[0].End() > lo then [Clip(rs[0], lo, hi, perms)] else [])
         + Clipped(rs[1..], lo, hi, perms)
  }

  function Clip(r: Region, lo: int, hi: int, perms: Perms): Region {
    var b, e := Max(r.base, lo), Min(r.End(), hi);
    Region(b, e - b, perms, r.tag)
  }

  lemma {:induction false} ClippedRefines(rs: seq<Region>, lo: int, hi: int, perms: Perms)
    requires Ordered(rs) && 0 <= lo < hi
    ensures Refines(Clipped(rs, lo, hi, perms), rs)
    ensures forall q :: q in Clipped(rs, lo, hi, perms) ==> WellFormed(q) && lo <= q.base && q.End() <= hi
  {
    if rs != [] {
      OrderedTail(rs);
      ClippedRefines(rs[1..], lo, hi, perms);
      forall q | q in Clipped(rs, lo, hi, perms)
        ensures (exists r :: r in rs && Inside(q, r)) && WellFormed(q) && lo <= q.base && q.End() <= hi
      {
        if q in Clipped(rs[1..], lo, hi, perms) {
          var r :| r in rs[1..] && Inside(q, r);
          assert r in rs;
        } else {
          ClipFits(rs[0], lo, hi, perms);
          assert rs[0] in rs;
        }
      }
    }
  }

  lemma {:induction false} ClippedOrdered(rs: seq<Region>, lo: int, hi: int, perms: Perms)
    requires Ordered(rs) && 0 <= lo < hi
    ensures Ordered(Clipped(rs, lo, hi, perms))
  {
    if rs != [] {
      hide Ordered, Clip;
      var rest := Clipped(rs[1..], lo, hi, perms);
      OrderedTail(rs);
      ClippedOrdered(rs[1..], lo, hi, perms);
      ClippedRefines(rs[1..], lo, hi, perms);
      if rs[0].base < hi && rs[0].End() > lo {
        ClipFits(rs[0], lo, hi, perms);
        OrderedCons(Clip(rs[0], lo, hi, perms), rest);
      }
    }
  }

  lemma ClipFits(r: Region, lo: int, hi: int, perms: Perms)
    requires WellFormed(r) && r.base < hi && r.End() > lo && 0 <= lo < hi
    ensures var q := Clip(r, lo, hi, perms);
      WellFormed(q) && Inside(q, r) && lo <= q.base && q.End() <= hi
  {
  }

  lemma {:induction false} ClippedPaged(rs: seq<Region>, lo: int, hi: int, perms: Perms)
    requires Paged(rs) && lo % PAGE == 0 && hi % PAGE == 0
    ensures Paged(Clipped(rs, lo, hi, perms))
  {
    if rs != [] {
      ClippedPaged(rs[1..], lo, hi, perms);
      assert rs[0] in rs;
      PageEnd(rs[0]);
      PageGap(Max(rs[0].base, lo), Min(rs[0].End(), hi));
    }
  }

  /** The cells of a range, under new permissions. */
  function Restyled(v: View, lo: int, hi: int, perms: Perms): View {
    map a | a in v && lo <= a < hi :: v[a].(perms := perms)
  }

  lemma RestyledSum(a: View, b: View, lo: int, hi: int, perms: Perms)
    ensures Restyled(a + b, lo, hi, perms) == Restyled(a, lo, hi, perms) + Restyled(b, lo, hi, perms)
  {
  }

  lemma ClipView(r: Region, lo: int, hi: int, perms: Perms)
    requires lo < hi
    ensures var span, q := Span(r.base, r.End(), CellOf(r)), Clip(r, lo, hi, perms);
      Restyled(span, lo, hi, perms) ==
      if r.base < hi && r.End() > lo then Span(q.base, q.End(), CellOf(q)) else map[]
  {
  }

  lemma {:induction false} ClippedView(rs: seq<Region>, lo: int, hi: int, perms: Perms)
    requires lo < hi
    ensures ViewOf(Clipped(rs, lo, hi, perms)) == Restyled(ViewOf(rs), lo, hi, perms)
  {
    if rs != [] {
      var r, rest := rs[0], Clipped(rs[1..], lo, hi, perms);
      ClippedView(rs[1..], lo, hi, perms);
      RestyledSum(Span(r.base, r.End(), CellOf(r)), ViewOf(rs[1..]), lo, hi, perms);
      ClipView(r, lo, hi, perms);
      var front := if r.base < hi && r.End() > lo then [Clip(r, lo, hi, perms)] else [];
      ViewConcat(front, rest);
      if front != [] {
        ViewOne(front[0]);
      }
    }
  }

  /** Where part of the range is mapped, the source's fallback piece is never used. */
  lemma ProtectHasPieces(rs: seq<Region>, lo: int, hi: int, perms: Perms)
    requires lo < hi && AllMapped(ViewOf(rs), lo, hi)
    ensures Clipped(rs, lo, hi, perms) != []
  {
    ClippedView(rs, lo, hi, perms);
    assert lo in ViewOf(Clipped(rs, lo, hi, perms));
  }

  ghost predicate NoStraddle(rs: seq<Region>) {
    forall r :: r in rs ==> r.base < MMAP_BASE ==> r.End() <= MMAP_BASE
  }

  /** No fixed mapping in or across the anonymous arena above its cursor. */
  ghost predicate Disciplined(rs: seq<Region>, cursor: int) {
    NoStraddle(rs) && NoneMapped(ViewOf(rs), cursor, LIB_BASE)
  }

  lemma RefinesKeepsNoStraddle(qs: seq<Region>, rs: seq<Region>)
    requires Refines(qs, rs) && NoStraddle(rs)
    requires forall q :: q in qs ==> q.size > 0
    ensures NoStraddle(qs)
  {
  }

  lemma Recorded(rs: seq<Region>, r: Region)
    requires Ordered(rs) && Paged(rs) && WellFormed(r) && OnPages(r)
    ensures var out := Sorted(Carved(rs, r.base, r.End()) + [r]);
      && Ordered(out) && Paged(out)
      && ViewOf(out) == Outside(ViewOf(rs), r.base, r.End()) + Span(r.base, r.End(), CellOf(r))
      && (NoStraddle(rs) && (r.End() <= MMAP_BASE || MMAP_BASE <= r.base) ==> NoStraddle(out))
  {
    var kept := Carved(rs, r.base, r.End());
    PageEnd(r);
    CarvedPaged(rs, r.base, r.End());
    CarvedOrdered(rs, r.base, r.End());
    CarvedRefines(rs, r.base, r.End());
    CarvedView(rs, r.base, r.End());
    SortedMerge(kept, [r]);
    ViewOne(r);
    if NoStraddle(rs) {
      RefinesKeepsNoStraddle(kept, rs);
    }
  }

  lemma PermsOfKeys(v: View)
    ensures forall a :: a in PermsOf(v) <==> a in v
  {
  }

  lemma CarvedNoStraddle(rs: seq<Region>, lo: int, hi: int)
    requires Ordered(rs) && 0 <= lo < hi
    ensures NoStraddle(rs) ==> NoStraddle(Carved(rs, lo, hi))
  {
    CarvedRefines(rs, lo, hi);
    CarvedOrdered(rs, lo, hi);
    if NoStraddle(rs) {
      RefinesKeepsNoStraddle(Carved(rs, lo, hi), rs);
    }
  }

  lemma PermsOfOutside(v: View, lo: int, hi: int)
    ensures PermsOf(Outside(v, lo, hi)) == PermsOf(v) - Range(lo, hi)
  {
  }

  lemma PermsOfPlus(v: View, lo: int, hi: int, c: Cell)
    ensures PermsOf(v + Span(lo, hi, c)) == PermsOf(v) + (map a | a in Range(lo, hi) :: c.perms)
    ensures Outside(v, lo, hi) + Span(lo, hi, c) == v + Span(lo, hi, c)
  {
  }

  lemma PermsOfReprotected(v: View, lo: int, hi: int, perms: Perms)
    requires AllMapped(v, lo, hi)
    ensures PermsOf(Reprotected(v, lo, hi, perms)) == PermsOf(v) + (map a | a in Range(lo, hi) :: perms)
  {
  }

  /** Splitting off the clipped pieces changes permissions inside the range and nothing else. */
  lemma Protected(rs: seq<Region>, lo: int, hi: int, perms: Perms)
    requires Ordered(rs) && Paged(rs) && 0 <= lo < hi && lo % PAGE == 0 && hi % PAGE == 0
    ensures var out := Sorted(Carved(rs, lo, hi) + Clipped(rs, lo, hi, perms));
      && Ordered(out) && Paged(out)
      && ViewOf(out) == Reprotected(ViewOf(rs), lo, hi, perms)
      && (NoStraddle(rs) ==> NoStraddle(out))
  {
    var kept, pieces := Carved(rs, lo, hi), Clipped(rs, lo, hi, perms);
    CarvedOrdered(rs, lo, hi);
    CarvedRefines(rs, lo, hi);
    ClippedOrdered(rs, lo, hi, perms);
    ClippedRefines(rs, lo, hi, perms);
    CarvedPaged(rs, lo, hi);
    ClippedPaged(rs, lo, hi, perms);
    forall r | r in pieces ensures ApartFrom(kept, r) {
    }
    SortedMerge(kept, pieces);
    if NoStraddle(rs) {
      RefinesKeepsNoStraddle(kept, rs);
      RefinesKeepsNoStraddle(pieces, rs);
    }
    CarvedView(rs, lo, hi);
    ClippedView(rs, lo, hi, perms);
    OutsidePlusRestyled(ViewOf(rs), lo, hi, perms);
  }

  lemma OutsidePlusRestyled(v: View, lo: int, hi: int, perms: Perms)
    ensures Outside(v, lo, hi) + Restyled(v, lo, hi, perms) == Reprotected(v, lo, hi, perms)
  {
  }

  // ------------------------------------------------------------------ clearing a fixed range

  ghost predicate InSome(rs: seq<Region>, n: nat, a: int)
    requires n <= |rs|
  {
    exists j :: 0 <= j < n && rs[j].Contains(a)
  }

  /** What is left of `v` once the first `n` regions of `rs` are cleared inside [lo, hi). */
  ghost function Cleared(v: View, rs: seq<Region>, n: nat, lo: int, hi: int): View
    requires n <= |rs|
  {
    map a | a in v && !(lo <= a < hi && InSome(rs, n, a)) :: v[a]
  }

  lemma {:induction false} OverlappingOrdered(rs: seq<Region>, lo: int, hi: int)
    requires Ordered(rs)
    ensures Ordered(Overlapping(rs, lo, hi))
  {
    if rs != [] {
      OrderedTail(rs);
      OverlappingOrdered(rs[1..], lo, hi);
      OverlappingMembers(rs[1..], lo, hi);
      if rs[0].base < hi && rs[0].End() > lo {
        OrderedCons(rs[0], Overlapping(rs[1..], lo, hi));
      }
    }
  }

  lemma ClearedStep(v: View, rs: seq<Region>, n: nat, lo: int, hi: int)
    requires n < |rs|
    ensures Outside(Cleared(v, rs, n, lo, hi), Max(rs[n].base, lo), Min(rs[n].End(), hi))
            == Cleared(v, rs, n + 1, lo, hi)
  {
    forall a ensures InSome(rs, n + 1, a) <==> InSome(rs, n, a) || rs[n].Contains(a) {
    }
  }

  lemma StillMapped(rs: seq<Region>, lo: int, hi: int, n: nat)
    requires Ordered(rs) && n < |Overlapping(rs, lo, hi)|
    ensures var hit := Overlapping(rs, lo, hi);
      AllMapped(Cleared(ViewOf(rs), hit, n, lo, hi), Max(hit[n].base, lo), Min(hit[n].End(), hi))
  {
    var hit := Overlapping(rs, lo, hi);
    OverlappingOrdered(rs, lo, hi);
    OverlappingMembers(rs, lo, hi);
    var r := hit[n];
    forall a | Max(r.base, lo) <= a < Min(r.End(), hi) ensures a in Cleared(ViewOf(rs), hit, n, lo, hi) {
      ViewAt(rs, r, a);
      assert forall j :: 0 <= j < n ==> hit[j].End() <= r.base;
    }
  }

  lemma AllCleared(rs: seq<Region>, lo: int, hi: int)
    ensures var hit := Overlapping(rs, lo, hi);
      Cleared(ViewOf(rs), hit, |hit|, lo, hi) == Outside(ViewOf(rs), lo, hi)
  {
    var hit := Overlapping(rs, lo, hi);
    OverlappingMembers(rs, lo, hi);
    forall a | a in ViewOf(rs) && lo <= a < hi ensures InSome(hit, |hit|, a) {
      var r := Container(rs, a);
      assert r in hit;
    }
  }

  // ------------------------------------------------------------------ the anonymous arena

  function InArena(rs: seq<Region>, cursor: int): seq<Region> {
    if rs == [] then []
    else (if MMAP_BASE <= rs[0].base < cursor then [rs[0]] else []) + InArena(rs[1..], cursor)
  }

  lemma {:induction false} InArenaOrdered(rs: seq<Region>, cursor: int)
    requires Ordered(rs)
    ensures Ordered(InArena(rs, cursor))
    ensures forall r :: r in InArena(rs, cursor) <==> r in rs && MMAP_BASE <= r.base < cursor
  {
    if rs != [] {
      OrderedTail(rs);
      InArenaOrdered(rs[1..], cursor);
      assert forall r :: r in rs <==> r == rs[0] || r in rs[1..];
      if MMAP_BASE <= rs[0].base < cursor {
        OrderedCons(rs[0], InArena(rs[1..], cursor));
      }
    }
  }

  predicate Blocks(r: Region, cursor: int, b: int, need: int) {
    MMAP_BASE <= r.base < cursor && r.base < b + need && b < r.End()
  }

  /** Some region starting in the used part of the arena meets [b, b + need). */
  ghost predicate Blocked(rs: seq<Region>, cursor: int, b: int, need: int) {
    exists r :: r in rs && Blocks(r, cursor, b, need)
  }

  lemma MappedIsBlocked(rs: seq<Region>, cursor: int, b: int, need: int, a: int)
    requires NoStraddle(rs) && MMAP_BASE <= b <= a < b + need <= cursor && a in ViewOf(rs)
    ensures Blocked(rs, cursor, b, need)
  {
    var r := Container(rs, a);
    assert Blocks(r, cursor, b, need);
  }

  /** In the used part of an arena nothing straddles into, blocked and mapped are the same. */
  lemma BlockedIsMapped(rs: seq<Region>, cursor: int, b: int, need: int)
    requires Ordered(rs) && MMAP_BASE <= b && b + need <= cursor && need > 0
    ensures Blocked(rs, cursor, b, need) ==> !FreeAt(ViewOf(rs), b, need)
    ensures NoStraddle(rs) && !FreeAt(ViewOf(rs), b, need) ==> Blocked(rs, cursor, b, need)
  {
    if Blocked(rs, cursor, b, need) {
      var r :| r in rs && Blocks(r, cursor, b, need);
      ViewAt(rs, r, Max(r.base, b));
    }
    if NoStraddle(rs) && !FreeAt(ViewOf(rs), b, need) {
      var a :| b <= a < b + need && a in ViewOf(rs);
      MappedIsBlocked(rs, cursor, b, need, a);
    }
  }

  /** Every start in the arena below `upto` is blocked. */
  ghost predicate Swept(rs: seq<Region>, cursor: int, upto: int, need: int) {
    forall b :: MMAP_BASE <= b < upto ==> Blocked(rs, cursor, b, need)
  }

  /** Where the hole scan stops: an unblocked start with only blocked ones before it. */
  ghost predicate FirstHole(rs: seq<Region>, cursor: int, need: int, h: int) {
    MMAP_BASE <= h && h + need <= cursor && !Blocked(rs, cursor, h, need) && Swept(rs, cursor, h, need)
  }

  ghost predicate NoHole(rs: seq<Region>, cursor: int, need: int) { Swept(rs, cursor, cursor - need + 1, need) }

  /** No range of `need` addresses starting in the arena below `upto` is free. */
  ghost predicate NoneFreeBelow(v: View, upto: int, need: int) {
    forall b :: MMAP_BASE <= b < upto ==> !FreeAt(v, b, need)
  }

  /** What the scan's answer says of the regions and of the pages. */
  lemma HoleFacts(rs: seq<Region>, cursor: int, need: int, hole: Option<int>)
    requires Ordered(rs) && need > 0
    requires if hole.Some? then FirstHole(rs, cursor, need, hole.value) else NoHole(rs, cursor, need)
    ensures forall h :: FirstHole(rs, cursor, need, h) <==> hole == Some(h)
    ensures NoHole(rs, cursor, need) <==> hole == None
    ensures NoneFreeBelow(ViewOf(rs), if hole.Some? then hole.value else cursor - need + 1, need)
    ensures hole.Some? ==> MMAP_BASE <= hole.value && hole.value + need <= cursor
    ensures hole.Some? && NoStraddle(rs) ==> FreeAt(ViewOf(rs), hole.value, need)
  {
    hide ViewOf, Blocked;
    SweptIsMapped(rs, cursor, if hole.Some? then hole.value else cursor - need + 1, need);
    if hole.Some? {
      BlockedIsMapped(rs, cursor, hole.value, need);
    }
  }

  lemma SweepPast(rs: seq<Region>, cursor: int, upto: int, need: int, r: Region)
    requires Swept(rs, cursor, upto, need)
    requires r in rs && MMAP_BASE <= r.base < cursor && r.base - upto < need
    ensures Swept(rs, cursor, Max(upto, r.End()), need)
  {
    forall b | upto <= b < r.End() ensures Blocked(rs, cursor, b, need) {
      assert Blocks(r, cursor, b, need);
    }
  }

  lemma CarveStep(kept: seq<Region>, rs: seq<Region>, i: nat, lo: int, hi: int)
    requires i < |rs|
    ensures kept + Carved(rs[i..], lo, hi) == (kept + Pieces(rs[i], lo, hi)) + Carved(rs[i + 1..], lo, hi)
  {
    assert rs[i..][1..] == rs[i + 1..];
    hide Pieces;
  }

  class MemoryManager {
    const engine: Engine
    const pointerBytes: int
    var regions: seq<Region>
    var heap: int
    var heapMappedEnd: int
    var mmapCursor: int
    var lib: int

    ghost function Pages(): View
      reads this
    {
      ViewOf(regions)
    }

    ghost predicate Valid()
      reads this, engine
    {
      && pointerBytes in {4, 8}
      && Ordered(regions) && Paged(regions)
      && engine.cells == PermsOf(Pages())
      && HEAP_BASE <= heap <= heapMappedEnd <= MMAP_BASE && heapMappedEnd % PAGE == 0
      && MMAP_BASE <= mmapCursor <= LIB_BASE && mmapCursor % PAGE == 0
      && LIB_BASE <= lib <= RETURN_SENTINEL && lib % PAGE == 0
    }

    /** One past the highest address a pointer can hold. */
    function AddressLimit(): (r: int)
      ensures pointerBytes in {4, 8} ==> r == Capacity(pointerBytes)
    {
      WordSizes();
      if pointerBytes == 8 then 0x1_0000_0000_0000_0000 else 0x1_0000_0000
    }

    constructor (backend: Engine, pointerSize: int)
      requires pointerSize in {4, 8} && backend.cells == map[]
      ensures Valid() && engine == backend && pointerBytes == pointerSize && regions == []
      ensures heap == HEAP_BASE && mmapCursor == MMAP_BASE && lib == LIB_BASE
    {
      engine, pointerBytes := backend, pointerSize;
      regions := [];
      heap, heapMappedEnd, mmapCursor, lib := HEAP_BASE, HEAP_BASE, MMAP_BASE, LIB_BASE;
    }

    method Carve(lo: int, hi: int)
      requires Ordered(regions) && Paged(regions) && 0 <= lo < hi && lo % PAGE == 0 && hi % PAGE == 0
      modifies this`regions
      ensures regions == Carved(old(regions), lo, hi)
      ensures Ordered(regions) && Paged(regions) && Pages() == Outside(old(Pages()), lo, hi)
    {
      assert Carved([], lo, hi) == [];
      hide Carved, ViewOf, Outside, Ordered, Paged;
      var kept: seq<Region> := [];
      for i := 0 to |regions|
        invariant regions == old(regions)
        invariant kept + Carved(regions[i..], lo, hi) == Carved(regions, lo, hi)
      {
        var r := regions[i];
        ghost var before := kept;
        CarveStep(kept, regions, i, lo, hi);
        if r.End() <= lo || r.base >= hi {
          kept := kept + [r];
        } else {
          if r.base < lo {
            kept := kept + [Region(r.base, lo - r.base, r.perms, r.tag)];
          }
          ghost var lower, upper := Piece(r.base < lo, r, r.base, lo), Piece(r.End() > hi, r, hi, r.End());
          assert kept == before + lower;
          if r.End() > hi {
            kept := kept + [Region(hi, r.End() - hi, r.perms, r.tag)];
          }
          assert kept == (before + lower) + upper;
        }
        assert kept == before + Pieces(r, lo, hi);
      }
      assert kept == Carved(regions, lo, hi) by { assert regions[|regions|..] == []; }
      CarvedOrdered(regions, lo, hi);
      CarvedPaged(regions, lo, hi);
      CarvedView(regions, lo, hi);
      regions := kept;
    }

    method Record(lo: int, hi: int, perms: Perms, tag: string)
      requires Ordered(regions) && Paged(regions) && 0 <= lo < hi && lo % PAGE == 0 && hi % PAGE == 0
      modifies this`regions
      ensures Ordered(regions) && Paged(regions)
      ensures Pages() == Outside(old(Pages()), lo, hi) + Span(lo, hi, Cell(perms, tag))
      ensures NoStraddle(old(regions)) && (hi <= MMAP_BASE || MMAP_BASE <= lo) ==> NoStraddle(regions)
    {
      hide ViewOf, Carved, Sorted;
      PageGap(lo, hi);
      var r := Region(lo, hi - lo, perms, tag);
      Recorded(regions, r);
      Carve(lo, hi);
      regions := Sorted(regions + [r]);
    }

    method UnmapRange(lo: int, hi: int) returns (ok: bool)
      requires Valid() && 0 <= lo < hi && lo % PAGE == 0 && hi % PAGE == 0
      modifies this`regions, engine
      ensures Valid()
      ensures ok <==> AllMapped(old(Pages()), lo, hi)
      ensures Pages() == if ok then Outside(old(Pages()), lo, hi) else old(Pages())
      ensures !ok ==> regions == old(regions)
      ensures NoStraddle(old(regions)) ==> NoStraddle(regions)
    {
      PermsOfKeys(Pages());
      PermsOfOutside(Pages(), lo, hi);
      CarvedNoStraddle(regions, lo, hi);
      ok := engine.MemUnmap(lo, hi);
      if ok {
        Carve(lo, hi);
      }
    }

    method UnmapOverlap(lo: int, hi: int)
      requires Valid() && 0 <= lo < hi && lo % PAGE == 0 && hi % PAGE == 0
      modifies this`regions, engine
      ensures Valid() && Pages() == Outside(old(Pages()), lo, hi)
      ensures NoStraddle(old(regions)) ==> NoStraddle(regions)
    {
      var hit := Overlapping(regions, lo, hi);
      OverlappingMembers(regions, lo, hi);
      OverlappingOrdered(regions, lo, hi);
      ghost var was := regions;
      assert Cleared(ViewOf(was), hit, 0, lo, hi) == ViewOf(was);
      for i := 0 to |hit|
        invariant Valid()
        invariant Pages() == Cleared(ViewOf(was), hit, i, lo, hi)
        invariant NoStraddle(was) ==> NoStraddle(regions)
      {
        var r := hit[i];
        var l, h := Max(r.base, lo), Min(r.End(), hi);
        assert r in regions || r in was;
        PageEnd(r);
        StillMapped(was, lo, hi, i);
        ClearedStep(ViewOf(was), hit, i, lo, hi);
        var ok := UnmapRange(l, h);
        assert ok;
      }
      AllCleared(was, lo, hi);
    }

    method MapRange(lo: int, hi: int, perms: Perms, tag: string) returns (ok: bool)
      requires Valid() && 0 <= lo < hi && lo % PAGE == 0 && hi % PAGE == 0
      modifies this`regions, engine
      ensures Valid()
      ensures ok <==> NoneMapped(old(Pages()), lo, hi)
      ensures Pages() == if ok then old(Pages()) + Span(lo, hi, Cell(perms, tag)) else old(Pages())
      ensures !ok ==> regions == old(regions)
      ensures NoStraddle(old(regions)) && (ok ==> hi <= MMAP_BASE || MMAP_BASE <= lo) ==> NoStraddle(regions)
    {
      PermsOfKeys(Pages());
      PermsOfPlus(Pages(), lo, hi, Cell(perms, tag));
      ok := engine.MemMap(lo, hi, perms);
      if ok {
        Record(lo, hi, perms, tag);
      }
    }

    method ProtectRange(lo: int, hi: int, perms: Perms) returns (ok: bool)
      requires Valid() && 0 <= lo < hi && lo % PAGE == 0 && hi % PAGE == 0
      modifies this`regions, engine
      ensures Valid()
      ensures ok <==> AllMapped(old(Pages()), lo, hi)
      ensures Pages() == if ok then Reprotected(old(Pages()), lo, hi, perms) else old(Pages())
      ensures !ok ==> regions == old(regions)
      ensures NoStraddle(old(regions)) ==> NoStraddle(regions)
    {
      PermsOfKeys(Pages());
      ok := engine.MemProtect(lo, hi, perms);
      if ok {
        PermsOfReprotected(Pages(), lo, hi, perms);
        SplitOff(lo, hi, perms);
      }
    }

    /** The list part of a protection change: carve, append the pieces, sort. */
    method SplitOff(lo: int, hi: int, perms: Perms)
      requires Ordered(regions) && Paged(regions)
      requires 0 <= lo < hi && lo % PAGE == 0 && hi % PAGE == 0 && AllMapped(Pages(), lo, hi)
      modifies this`regions
      ensures Ordered(regions) && Paged(regions) && Pages() == Reprotected(old(Pages()), lo, hi, perms)
      ensures NoStraddle(old(regions)) ==> NoStraddle(regions)
    {
      hide ViewOf, Carved, Sorted, Clipped;
      ProtectHasPieces(regions, lo, hi, perms);
      Protected(regions, lo, hi, perms);
      var pieces := Clipped(regions, lo, hi, perms);
      var todo := if pieces == [] then [Region(lo, hi - lo, perms, "")] else pieces;
      Carve(lo, hi);
      ghost var kept := regions;
      for i := 0 to |todo|
        invariant regions == kept + todo[..i]
      {
        ghost var done := todo[..i];
        assert todo[..i + 1] == done + [todo[i]];
        regions := regions + [todo[i]];
      }
      assert todo[..|todo|] == todo;
      regions := Sorted(regions);
    }

    predicate BadAddress(address: int) { address < 0 || address >= AddressLimit() }

    predicate BadMap(address: int, size: int) {
      BadAddress(address) || address % PAGE != 0 || size <= 0 || address + PageUp(size) > AddressLimit()
    }

    /** A fixed mapping. With `replace` it never fails once its arguments are valid. */
    method Map(address: int, size: int, perms: Perms, tag: string, replace: bool) returns (r: Outcome)
      requires Valid()
      modifies this`regions, engine
      ensures Valid()
      ensures r == ValueError <==> BadMap(address, size)
      ensures r == ValueError <==>
              || address < 0 || address >= Capacity(pointerBytes) || address % PAGE != 0 || size <= 0
              || address + PageUp(size) > Capacity(pointerBytes)
      ensures r.Ok? ==> r == Ok(0)
      ensures r == Crashed <==>
              !BadMap(address, size) && !replace && !NoneMapped(old(Pages()), address, address + PageUp(size))
      ensures Pages() ==
              if r.Ok? then old(Pages()) + Span(address, address + PageUp(size), Cell(perms, tag)) else old(Pages())
      ensures !r.Ok? ==> regions == old(regions)
      ensures NoStraddle(old(regions)) && (r.Ok? ==> address + PageUp(size) <= MMAP_BASE || MMAP_BASE <= address)
              ==> NoStraddle(regions)
    {
      hide Capacity, ViewOf, PageUp, NoStraddle;
      if BadAddress(address) || address % PAGE != 0 || size <= 0 {
        return ValueError;
      }
      var lo, hi := address, address + PageUp(size);
      if hi > AddressLimit() {
        return ValueError;
      }
      PageGap(lo, PageUp(size));
      PermsOfPlus(Pages(), lo, hi, Cell(perms, tag));
      if replace {
        UnmapOverlap(lo, hi);
      }
      var ok := MapRange(lo, hi, perms, tag);
      r := if ok then Ok(0) else Crashed;
    }

    /** The page-aligned range a protect or unmap request touches: the least one that holds all its addresses. */
    function Touched(address: int, size: int): (r: (int, int))
      ensures r.0 <= address < r.0 + PAGE && r.0 % PAGE == 0
      ensures address + size <= r.1 < address + size + PAGE && r.1 % PAGE == 0
    {
      PageGap(0 - PageUp(size + (address - PageDown(address))), PageDown(address));
      (PageDown(address), PageDown(address) + PageUp(size + (address - PageDown(address))))
    }

    predicate BadTouch(address: int, size: int) {
      BadAddress(address) || size <= 0 || Touched(address, size).1 > AddressLimit()
    }

    method Unmap(address: int, size: int) returns (r: Outcome)
      requires Valid()
      modifies this`regions, engine
      ensures Valid()
      ensures r == ValueError <==> BadTouch(address, size)
      ensures r == ValueError <==>
              || address < 0 || address >= Capacity(pointerBytes) || size <= 0
              || Touched(address, size).1 > Capacity(pointerBytes)
      ensures var (lo, hi) := Touched(address, size);
        && (!r.ValueError? ==> (r == Ok(0) <==> AllMapped(old(Pages()), lo, hi)) && (r == Crashed <==> r != Ok(0)))
        && Pages() == if r.Ok? then Outside(old(Pages()), lo, hi) else old(Pages())
      // Address by address: what shares a page with the request goes, and all of that must be mapped.
      ensures !r.ValueError? ==> (r.Ok? <==> forall a :: Meets(a, address, size) ==> a in old(Pages()))
      ensures forall a :: a in Pages() <==> a in old(Pages()) && !(r.Ok? && Meets(a, address, size))
      ensures forall a :: a in Pages() ==> Pages()[a] == old(Pages())[a]
      ensures !r.Ok? ==> regions == old(regions)
      ensures NoStraddle(old(regions)) ==> NoStraddle(regions)
    {
      if BadAddress(address) || size <= 0 {
        return ValueError;
      }
      var (lo, hi) := Touched(address, size);
      if hi > AddressLimit() {
        return ValueError;
      }
      MeetsTouched(address, size, lo, hi);
      hide Meets, ViewOf;
      var ok := UnmapRange(lo, hi);
      r := if ok then Ok(0) else Crashed;
    }

    /** Every page touched gets the permissions; labels and all other pages stay. */
    method Protect(address: int, size: int, perms: Perms) returns (r: Outcome)
      requires Valid()
      modifies this`regions, engine
      ensures Valid()
      ensures r == ValueError <==> BadTouch(address, size)
      ensures r == ValueError <==>
              || address < 0 || address >= Capacity(pointerBytes) || size <= 0
              || Touched(address, size).1 > Capacity(pointerBytes)
      ensures var (lo, hi) := Touched(address, size);
        && (!r.ValueError? ==> (r == Ok(0) <==> AllMapped(old(Pages()), lo, hi)) && (r == Crashed <==> r != Ok(0)))
        && Pages() == if r.Ok? then Reprotected(old(Pages()), lo, hi, perms) else old(Pages())
      // Address by address: what shares a page with the request changes, and all of that must be mapped.
      ensures !r.ValueError? ==> (r.Ok? <==> forall a :: Meets(a, address, size) ==> a in old(Pages()))
      ensures forall a :: a in Pages() <==> a in old(Pages())
      ensures forall a :: a in Pages() ==>
                Pages()[a] == if r.Ok? && Meets(a, address, size) then Cell(perms, old(Pages())[a].tag)
                              else old(Pages())[a]
      ensures !r.Ok? ==> regions == old(regions)
      ensures NoStraddle(old(regions)) ==> NoStraddle(regions)
    {
      if BadAddress(address) || size <= 0 {
        return ValueError;
      }
      var (lo, hi) := Touched(address, size);
      if hi > AddressLimit() {
        return ValueError;
      }
      MeetsTouched(address, size, lo, hi);
      hide Meets, ViewOf;
      var ok := ProtectRange(lo, hi, perms);
      r := if ok then Ok(0) else Crashed;
    }

    /** A call of `map` with an address and size known to be acceptable. */
    method MapAligned(base: int, need: int, perms: Perms, tag: string) returns (r: Outcome)
      requires Valid() && need > 0 && need % PAGE == 0 && base % PAGE == 0 && 0 <= base && base + need <= 0x1_0000_0000
      modifies this`regions, engine
      ensures Valid()
      ensures r == if NoneMapped(old(Pages()), base, base + need) then Ok(base) else Crashed
      ensures Pages() == if r.Ok? then old(Pages()) + Span(base, base + need, Cell(perms, tag)) else old(Pages())
      ensures !r.Ok? ==> regions == old(regions)
      ensures NoStraddle(old(regions)) && (base + need <= MMAP_BASE || MMAP_BASE <= base) ==> NoStraddle(regions)
    {
      hide Capacity, ViewOf, Span;
      AlignedPageUp(need);
      r := Map(base, need, perms, tag, false);
      if r.Ok? {
        r := Ok(base);
      }
    }

    method UnmapAligned(lo: int, hi: int) returns (r: Outcome)
      requires Valid() && 0 <= lo < hi <= 0x1_0000_0000 && lo % PAGE == 0 && hi % PAGE == 0
      modifies this`regions, engine
      ensures Valid()
      ensures r == if AllMapped(old(Pages()), lo, hi) then Ok(0) else Crashed
      ensures Pages() == if r.Ok? then Outside(old(Pages()), lo, hi) else old(Pages())
      ensures !r.Ok? ==> regions == old(regions)
      ensures NoStraddle(old(regions)) ==> NoStraddle(regions)
    {
      hide Capacity, ViewOf;
      PageGap(lo, hi);
      AlignedPageUp(lo);
      AlignedPageUp(hi - lo);
      r := Unmap(lo, hi - lo);
    }

    /** Query or move the program break; whole pages follow it, and a failure moves nothing. */
    method Brk(addr: int) returns (r: Outcome)
      requires Valid()
      modifies this`regions, this`heap, this`heapMappedEnd, engine
      ensures Valid()
      ensures addr == 0 ==> r == Ok(old(heap))
      ensures r == ValueError <==> addr != 0 && addr < HEAP_BASE
      ensures r.Ok? && addr != 0 ==>
                && r.value == addr && heap == addr && heapMappedEnd == PageUp(addr)
                && Pages() == (if PageUp(addr) >= old(heapMappedEnd)
                               then old(Pages()) + Span(old(heapMappedEnd), PageUp(addr), Cell(RW, "heap"))
                               else Outside(old(Pages()), PageUp(addr), old(heapMappedEnd)))
      ensures addr >= HEAP_BASE ==>
                (r.Crashed? <==> addr > MMAP_BASE || !CanMoveHeapEnd(old(Pages()), old(heapMappedEnd), PageUp(addr)))
      ensures !r.Ok? || addr == 0 ==>
                regions == old(regions) && heap == old(heap) && heapMappedEnd == old(heapMappedEnd)
      ensures NoStraddle(old(regions)) ==> NoStraddle(regions)
    {
      if addr == 0 {
        return Ok(heap);
      }
      if addr < HEAP_BASE {
        return ValueError;
      }
      if addr > MMAP_BASE {
        return Crashed;
      }
      r := MoveHeapEnd(PageUp(addr));
      if r.Ok? {
        heap := addr;
        r := Ok(addr);
      }
    }

    ghost predicate CanMoveHeapEnd(v: View, was: int, end: int) {
      if end > was then NoneMapped(v, was, end) else AllMapped(v, end, was)
    }

    method MoveHeapEnd(mappedEnd: int) returns (r: Outcome)
      requires Valid() && mappedEnd % PAGE == 0 && HEAP_BASE <= mappedEnd <= MMAP_BASE
      modifies this`regions, this`heapMappedEnd, engine
      ensures Ordered(regions) && Paged(regions) && engine.cells == PermsOf(Pages())
      ensures r.Ok? <==> CanMoveHeapEnd(old(Pages()), old(heapMappedEnd), mappedEnd)
      ensures !r.Ok? ==> r == Crashed
      ensures heapMappedEnd == if r.Ok? then mappedEnd else old(heapMappedEnd)
      ensures r.Ok? ==>
                Pages() == (if mappedEnd >= old(heapMappedEnd)
                            then old(Pages()) + Span(old(heapMappedEnd), mappedEnd, Cell(RW, "heap"))
                            else Outside(old(Pages()), mappedEnd, old(heapMappedEnd)))
      ensures !r.Ok? ==> regions == old(regions)
      ensures NoStraddle(old(regions)) ==> NoStraddle(regions)
    {
      hide ViewOf, PermsOf;
      PageGap(heapMappedEnd, mappedEnd);
      PageGap(mappedEnd, heapMappedEnd);
      r := Ok(0);
      if mappedEnd > heapMappedEnd {
        r := MapAligned(heapMappedEnd, mappedEnd - heapMappedEnd, RW, "heap");
      } else if mappedEnd < heapMappedEnd {
        r := UnmapAligned(mappedEnd, heapMappedEnd);
      } else {
        assert Span(heapMappedEnd, mappedEnd, Cell(RW, "heap")) == map[];
      }
      if r.Ok? {
        heapMappedEnd := mappedEnd;
      }
    }

    /** The hole scan of the source, over the regions that start in the used part of the arena. */
    method FindHole(need: int) returns (r: Option<int>)
      requires Valid() && need > 0
      ensures r.Some? ==> FirstHole(regions, mmapCursor, need, r.value) && r.value % PAGE == 0
      ensures r == None ==> NoHole(regions, mmapCursor, need)
    {
      hide ViewOf, InArena, Sorted;
      var arena := Sorted(InArena(regions, mmapCursor));
      InArenaOrdered(regions, mmapCursor);
      SortedIsIdentity(InArena(regions, mmapCursor));
      var cursor := MMAP_BASE;
      for i := 0 to |arena|
        invariant MMAP_BASE <= cursor && cursor % PAGE == 0
        invariant forall j :: 0 <= j < i ==> arena[j].End() <= cursor
        invariant forall j :: i <= j < |arena| ==> cursor <= arena[j].base
        invariant Swept(regions, mmapCursor, cursor, need)
      {
        var region := arena[i];
        assert region in arena;
        if region.base - cursor >= need {
          assert forall q :: q in arena ==> q.End() <= cursor || cursor + need <= q.base;
          return Some(cursor);
        }
        SweepPast(regions, mmapCursor, cursor, need, region);
        PageEnd(region);
        cursor := Max(cursor, region.End());
      }
      assert forall q :: q in arena ==> q.End() <= cursor;
      return if mmapCursor - cursor >= need then Some(cursor) else None;
    }

    /** Anonymous mapping: any success is a free page range of the arena, filled in or on top. */
    method Mmap(size: int, perms: Perms, tag: string) returns (r: Outcome)
      requires Valid()
      modifies this`regions, this`mmapCursor, engine
      ensures Valid()
      ensures r == ValueError <==> size <= 0
      ensures r.Ok? ==> var need := PageUp(size);
                && MMAP_BASE <= r.value && r.value + need <= mmapCursor && r.value % PAGE == 0
                && FreeAt(old(Pages()), r.value, need)
                && Pages() == old(Pages()) + Span(r.value, r.value + need, Cell(perms, tag))
      ensures !r.Ok? ==> regions == old(regions)
      // The first hole decides; without one the top of the arena does, and the cursor moves before it is mapped.
      ensures forall h :: size > 0 && FirstHole(old(regions), old(mmapCursor), PageUp(size), h) ==>
                && mmapCursor == old(mmapCursor)
                && r == if FreeAt(old(Pages()), h, PageUp(size)) then Ok(h) else Crashed
      ensures size > 0 && NoHole(old(regions), old(mmapCursor), PageUp(size)) ==>
                if old(mmapCursor) + PageUp(size) > LIB_BASE then r == Crashed && mmapCursor == old(mmapCursor)
                else
                  && mmapCursor == old(mmapCursor) + PageUp(size)
                  && r == if FreeAt(old(Pages()), old(mmapCursor), PageUp(size)) then Ok(old(mmapCursor)) else Crashed
      // A failure moves the cursor exactly when no hole fits and the range it claims on top is in use.
      ensures r == Crashed && mmapCursor != old(mmapCursor) <==>
              && size > 0 && NoHole(old(regions), old(mmapCursor), PageUp(size))
              && old(mmapCursor) + PageUp(size) <= LIB_BASE
              && !FreeAt(old(Pages()), old(mmapCursor), PageUp(size))
      // In terms of pages: nothing lower was free, whether the mapping fills a hole or goes on top.
      ensures mmapCursor != old(mmapCursor) ==>
                NoneFreeBelow(old(Pages()), old(mmapCursor) - PageUp(size) + 1, PageUp(size))
      ensures r.Ok? && mmapCursor == old(mmapCursor) ==> NoneFreeBelow(old(Pages()), r.value, PageUp(size))
      ensures NoStraddle(old(regions)) && r == Crashed && mmapCursor == old(mmapCursor) ==>
                && mmapCursor + PageUp(size) > LIB_BASE
                && NoneFreeBelow(old(Pages()), mmapCursor - PageUp(size) + 1, PageUp(size))
      // In a disciplined run the only failure is exhaustion, and the discipline is kept.
      ensures NoStraddle(old(regions)) ==> NoStraddle(regions)
      ensures Disciplined(old(regions), old(mmapCursor)) ==>
                Disciplined(regions, mmapCursor) && (r == Crashed ==> mmapCursor == old(mmapCursor))
    {
      hide ViewOf, FirstHole, NoHole, Span, PermsOf, PageUp, NoneFreeBelow;
      if size <= 0 {
        return ValueError;
      }
      var need := PageUp(size);
      var hole := FindHole(need);
      HoleFacts(regions, mmapCursor, need, hole);
      if hole.Some? {
        r := MapAligned(hole.value, need, perms, tag);
        MappedBelow(old(Pages()), hole.value, need, Cell(perms, tag), mmapCursor);
      } else {
        var end := mmapCursor + need;
        if end > LIB_BASE {
          return Crashed;
        }
        PageGap(mmapCursor, need);
        var base := mmapCursor;
        mmapCursor := end;
        r := MapAligned(base, need, perms, tag);
        MappedBelow(old(Pages()), base, need, Cell(perms, tag), end);
      }
    }

    /** Library space: page-aligned, above every earlier reservation and its guard page, below the sentinel. */
    method ReserveLib(size: int, align: int) returns (r: Outcome)
      requires Valid()
      modifies this`lib
      ensures Valid()
      ensures r == ValueError <==> size <= 0 || align < 0 || (align != 0 && !IsPowerOfTwo(align))
      ensures r.Ok? ==>
                && LeastMultiple(old(lib), Max(align, PAGE), r.value) && r.value % PAGE == 0
                && lib == r.value + PageUp(size) + PAGE
      ensures !r.Ok? ==> lib == old(lib)
      ensures r == Crashed ==>
                exists base ::
                  LeastMultiple(lib, Max(align, PAGE), base) && base + PageUp(size) + PAGE > RETURN_SENTINEL
    {
      if size <= 0 {
        return ValueError;
      }
      if align < 0 || (align != 0 && !IsPowerOfTwo(align)) {
        return ValueError;
      }
      var unit := Max(align, PAGE);
      var base := RoundUp(lib, unit);
      assert base % PAGE == 0 by {
        PagePower();
        PowersDivide(unit, PAGE);
        MultipleOfMultiple(base, unit, PAGE);
        PageMultiple(base);
      }
      PageGap(base, PageUp(size));
      PageGap(base + PageUp(size), PAGE);
      var end := base + PageUp(size) + PAGE;
      if end > RETURN_SENTINEL {
        return Crashed;
      }
      lib := end;
      return Ok(base);
    }
  }

  lemma NothingMapped()
    ensures ViewOf([]) == map[]
  {
  }

  lemma OneSpan(lo: int, hi: int, c: Cell)
    ensures map[] + Span(lo, hi, c) == Span(lo, hi, c)
    ensures lo < hi ==> lo in Span(lo, hi, c)
  {
  }

  lemma PagePower()
    ensures IsPowerOfTwo(PAGE)
  {
    assert IsPowerOfTwo(16) by { assert IsPowerOfTwo(2) && IsPowerOfTwo(4) && IsPowerOfTwo(8); }
    assert IsPowerOfTwo(256) by { assert IsPowerOfTwo(32) && IsPowerOfTwo(64) && IsPowerOfTwo(128); }
    assert IsPowerOfTwo(512) && IsPowerOfTwo(1024) && IsPowerOfTwo(2048);
  }

  lemma PageMultiple(x: int)
    ensures IsMultiple(x, PAGE) ==> x % PAGE == 0
  {
  }

  lemma AlignedPageUp(x: int)
    requires x % PAGE == 0
    ensures PageUp(x) == x && PageDown(x) == x
  {
  }

  lemma MappedBelow(v: View, base: int, need: int, c: Cell, cursor: int)
    requires 0 <= need && base + need <= cursor
    ensures NoneMapped(v, cursor, LIB_BASE) ==> NoneMapped(v + Span(base, base + need, c), cursor, LIB_BASE)
    ensures NoneMapped(v, base, LIB_BASE) ==> NoneMapped(v, cursor, LIB_BASE)
  {
  }

  lemma SweptIsMapped(rs: seq<Region>, cursor: int, upto: int, need: int)
    requires Ordered(rs) && need > 0 && upto + need <= cursor + 1 && Swept(rs, cursor, upto, need)
    ensures forall b :: MMAP_BASE <= b < upto ==> !FreeAt(ViewOf(rs), b, need)
  {
    forall b | MMAP_BASE <= b < upto ensures !FreeAt(ViewOf(rs), b, need) {
      BlockedIsMapped(rs, cursor, b, need);
    }
  }

  /** A fixed mapping at the arena's base: the next anonymous mapping fails there, and leaves the cursor advanced. */
  method FixedMappingOnTop() returns (manager: MemoryManager, r: Outcome)
    ensures r == Crashed && manager.mmapCursor == MMAP_BASE + 0x1000
    ensures manager.regions != [] && manager.Pages() == Span(MMAP_BASE, MMAP_BASE + 0x1000, Cell(RW, "fixed"))
  {
    hide ViewOf, Span, PermsOf;
    var engine := new Engine();
    manager := new MemoryManager(engine, 8);
    assert manager.Pages() == map[] by { NothingMapped(); }
    AlignedPageUp(0x1000);
    var mapped := manager.Map(MMAP_BASE, 0x1000, RW, "fixed", false);
    assert mapped == Ok(0);
    OneSpan(MMAP_BASE, MMAP_BASE + 0x1000, Cell(RW, "fixed"));
    assert NoHole(manager.regions, manager.mmapCursor, 0x1000);
    assert MMAP_BASE in manager.Pages();
    r := manager.Mmap(0x1000, RW, "anonymous");
  }
}
