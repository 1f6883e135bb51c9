/** The tracked regions of guest memory, and what carving and sorting do to the page map they stand for. */
module Regions {
  import opened Common

  /** Protection flags, as the engine's bit set. */
  type Perms = int

  datatype Region = Region(base: int, size: int, perms: Perms, tag: string) {
    function End(): int { base + size }

    predicate Contains(a: int) { base <= a < End() }
  }

  datatype Cell = Cell(perms: Perms, tag: string)

  /** What is known about every mapped guest address. */
  type View = map<int, Cell>

  function Range(lo: int, hi: int): (r: set<int>)
    ensures forall a :: a in r <==> lo <= a < hi
    decreases hi - lo
  {
    if lo < hi then {lo} + Range(lo + 1, hi) else {}
  }

  function Span(lo: int, hi: int, c: Cell): View {
    map a | a in Range(lo, hi) :: c
  }

  function CellOf(r: Region): Cell { Cell(r.perms, r.tag) }

  function ViewOf(rs: seq<Region>): View {
    if rs == [] then map[] else Span(rs[0].base, rs[0].End(), CellOf(rs[0])) + ViewOf(rs[1..])
  }

  function Outside(v: View, lo: int, hi: int): View {
    map a | a in v && !(lo <= a < hi) :: v[a]
  }

  predicate WellFormed(r: Region) { r.base >= 0 && r.size > 0 }

  predicate OnPages(r: Region) { r.base % PAGE == 0 && r.size % PAGE == 0 }

  ghost predicate Paged(rs: seq<Region>) { forall r :: r in rs ==> OnPages(r) }

  /** Non-empty, disjoint and in address order. */
  ghost predicate Ordered(rs: seq<Region>) {
    && (forall i :: 0 <= i < |rs| ==> WellFormed(rs[i]))
    && (forall i, j :: 0 <= i < j < |rs| ==> rs[i].End() <= rs[j].base)
  }

  lemma OrderedTail(rs: seq<Region>)
    requires Ordered(rs) && rs != []
    ensures Ordered(rs[1..]) && WellFormed(rs[0])
    ensures forall r :: r in rs[1..] ==> rs[0].End() <= r.base
  {
  }

  lemma OrderedInit(rs: seq<Region>)
    requires Ordered(rs) && rs != []
    ensures Ordered(rs[..|rs| - 1])
    ensures forall r :: r in rs[..|rs| - 1] ==> r.base <= rs[|rs| - 1].base
  {
  }

  lemma OrderedCons(r: Region, rs: seq<Region>)
    requires Ordered(rs) && WellFormed(r) && forall q :: q in rs ==> r.End() <= q.base
    ensures Ordered([r] + rs)
  {
    var all := [r] + rs;
    assert forall i :: 1 <= i < |all| ==> all[i] == rs[i - 1] && all[i] in rs;
  }

  /** In an ordered list an address belongs to the region that contains it, and to no other. */
  lemma {:induction false} ViewAt(rs: seq<Region>, r: Region, a: int)
    requires Ordered(rs) && r in rs && r.Contains(a)
    ensures a in ViewOf(rs) && ViewOf(rs)[a] == CellOf(r)
  {
    if r == rs[0] {
      if a in ViewOf(rs[1..]) {
        var q := Container(rs[1..], a);
        OrderedTail(rs);
        assert false;
      }
    } else {
      assert r in rs[1..];
      OrderedTail(rs);
      ViewAt(rs[1..], r, a);
    }
  }

  lemma {:induction false} Container(rs: seq<Region>, a: int) returns (r: Region)
    requires a in ViewOf(rs)
    ensures r in rs && r.Contains(a)
  {
    if a in ViewOf(rs[1..]) {
      r := Container(rs[1..], a);
    } else {
      r := rs[0];
    }
  }

  // ------------------------------------------------------------------ carving

  function Pieces(r: Region, lo: int, hi: int): seq<Region> {
    if r.End() <= lo || r.base >= hi then [r]
    else Piece(r.base < lo, r, r.base, lo) + Piece(r.End() > hi, r, hi, r.End())
  }

  function Piece(present: bool, r: Region, lo: int, hi: int): seq<Region> {
    if present then [Region(lo, hi - lo, r.perms, r.tag)] else []
  }

  function Carved(rs: seq<Region>, lo: int, hi: int): seq<Region> {
    if rs == [] then [] else Pieces(rs[0], lo, hi) + Carved(rs[1..], lo, hi)
  }

  predicate Inside(q: Region, r: Region) { r.base <= q.base && q.End() <= r.End() }

  ghost predicate Refines(qs: seq<Region>, rs: seq<Region>) {
    forall q :: q in qs ==> exists r :: r in rs && Inside(q, r)
  }

  lemma {:induction false} CarvedRefines(rs: seq<Region>, lo: int, hi: int)
    requires lo < hi
    ensures Refines(Carved(rs, lo, hi), rs)
    ensures forall q :: q in Carved(rs, lo, hi) ==> q.End() <= lo || q.base >= hi
  {
    if rs != [] {
      CarvedRefines(rs[1..], lo, hi);
      forall q | q in Carved(rs, lo, hi) ensures exists r :: r in rs && Inside(q, r) {
        if q in Pieces(rs[0], lo, hi) {
          assert Inside(q, rs[0]);
        } else {
          var r :| r in rs[1..] && Inside(q, r);
          assert r in rs;
        }
      }
    }
  }

  lemma OrderedConcat(a: seq<Region>, b: seq<Region>)
    requires Ordered(a) && Ordered(b) && forall q, r :: q in a && r in b ==> q.End() <= r.base
    ensures Ordered(a + b)
  {
    var all := a + b;
    forall i, j | 0 <= i < j < |all| ensures all[i].End() <= all[j].base {
      if i < |a| <= j {
        assert all[i] in a && all[j] in b;
      }
    }
  }

  lemma PiecesOrdered(r: Region, lo: int, hi: int)
    requires WellFormed(r) && 0 <= lo < hi
    ensures Ordered(Pieces(r, lo, hi))
    ensures forall q :: q in Pieces(r, lo, hi) ==> Inside(q, r)
  {
  }

  lemma {:induction false} CarvedOrdered(rs: seq<Region>, lo: int, hi: int)
    requires Ordered(rs) && 0 <= lo < hi
    ensures Ordered(Carved(rs, lo, hi))
  {
    if rs != [] {
      var r, rest := rs[0], Carved(rs[1..], lo, hi);
      OrderedTail(rs);
      CarvedOrdered(rs[1..], lo, hi);
      CarvedRefines(rs[1..], lo, hi);
      PiecesOrdered(r, lo, hi);
      assert forall q :: q in rest ==> r.End() <= q.base;
      OrderedConcat(Pieces(r, lo, hi), rest);
    }
  }

  lemma PlusAssociates(a: View, b: View, c: View)
    ensures (a + b) + c == a + (b + c)
  {
  }

  lemma {:induction false} ViewConcat(a: seq<Region>, b: seq<Region>)
    ensures ViewOf(a + b) == ViewOf(a) + ViewOf(b)
  {
    if a == [] {
      assert a + b == b;
    } else {
      assert (a + b)[1..] == a[1..] + b && (a + b)[0] == a[0];
      ViewConcat(a[1..], b);
      PlusAssociates(Span(a[0].base, a[0].End(), CellOf(a[0])), ViewOf(a[1..]), ViewOf(b));
    }
  }

  lemma ViewOne(r: Region)
    ensures ViewOf([r]) == Span(r.base, r.End(), CellOf(r))
  {
    assert [r][1..] == [];
  }

  function Part(present: bool, lo: int, hi: int, c: Cell): View { if present then Span(lo, hi, c) else map[] }

  /** What a piece of `r`, if there is one, contributes. */
  lemma PieceView(present: bool, r: Region, lo: int, hi: int)
    ensures ViewOf(Piece(present, r, lo, hi)) == Part(present, lo, hi, CellOf(r))
  {
    ViewOne(Region(lo, hi - lo, r.perms, r.tag));
    hide Span;
  }

  lemma PiecesView(r: Region, lo: int, hi: int)
    requires lo < hi
    ensures ViewOf(Pieces(r, lo, hi)) == Outside(Span(r.base, r.End(), CellOf(r)), lo, hi)
  {
    SpanOutside(r.base, r.End(), lo, hi, CellOf(r));
    hide Span, Outside, ViewOf, CellOf, Part, Piece;
    if r.End() <= lo || r.base >= hi {
      ViewOne(r);
    } else {
      ViewConcat(Piece(r.base < lo, r, r.base, lo), Piece(r.End() > hi, r, hi, r.End()));
      PieceView(r.base < lo, r, r.base, lo);
      PieceView(r.End() > hi, r, hi, r.End());
    }
  }

  lemma SpanOutside(base: int, end: int, lo: int, hi: int, c: Cell)
    requires lo < hi
    ensures Outside(Span(base, end, c), lo, hi) ==
      if end <= lo || base >= hi then Span(base, end, c)
      else Part(base < lo, base, lo, c) + Part(end > hi, hi, end, c)
  {
  }

  /** Carving a range unmaps exactly that range, and keeps every other address's cell. */
  lemma {:induction false} CarvedView(rs: seq<Region>, lo: int, hi: int)
    requires lo < hi
    ensures ViewOf(Carved(rs, lo, hi)) == Outside(ViewOf(rs), lo, hi)
  {
    if rs != [] {
      hide Pieces, Span, Outside;
      CarvedView(rs[1..], lo, hi);
      PiecesView(rs[0], lo, hi);
      ViewConcat(Pieces(rs[0], lo, hi), Carved(rs[1..], lo, hi));
      OutsideMerge(Span(rs[0].base, rs[0].End(), CellOf(rs[0])), ViewOf(rs[1..]), lo, hi);
    }
  }

  lemma OutsideMerge(v: View, w: View, lo: int, hi: int)
    ensures Outside(v + w, lo, hi) == Outside(v, lo, hi) + Outside(w, lo, hi)
  {
  }

  lemma PageGap(x: int, y: int)
    requires x % PAGE == 0 && y % PAGE == 0
    ensures (y - x) % PAGE == 0 && (x + y) % PAGE == 0
  {
    assert y - x == PAGE * (y / PAGE - x / PAGE);
    assert x + y == PAGE * (x / PAGE + y / PAGE);
  }

  lemma PageEnd(r: Region)
    requires OnPages(r)
    ensures r.End() % PAGE == 0
  {
    PageGap(r.base, r.size);
  }

  lemma {:induction false} CarvedPaged(rs: seq<Region>, lo: int, hi: int)
    requires Paged(rs) && lo % PAGE == 0 && hi % PAGE == 0
    ensures Paged(Carved(rs, lo, hi))
  {
    if rs != [] {
      CarvedPaged(rs[1..], lo, hi);
      assert rs[0] in rs;
      PageEnd(rs[0]);
      PageGap(rs[0].base, lo);
      PageGap(hi, rs[0].End());
    }
  }

  // ------------------------------------------------------------------ sorting by base

  /** The stable position of `r` in a list sorted by base. */
  function Inserted(rs: seq<Region>, r: Region): seq<Region> {
    if rs == [] || r.base < rs[0].base then [r] + rs else [rs[0]] + Inserted(rs[1..], r)
  }

  /** Python's stable `sort(key=base)`, as insertion sort. */
  function Sorted(rs: seq<Region>): seq<Region> {
    if rs == [] then [] else Inserted(Sorted(rs[..|rs| - 1]), rs[|rs| - 1])
  }

  lemma SortedSnoc(rs: seq<Region>, r: Region)
    ensures Sorted(rs + [r]) == Inserted(Sorted(rs), r)
  {
    assert (rs + [r])[..|rs|] == rs;
  }

  lemma {:induction false} InsertedMembers(rs: seq<Region>, r: Region)
    ensures forall q :: q in Inserted(rs, r) <==> q == r || q in rs
  {
    if rs == [] || r.base < rs[0].base {
    } else {
      InsertedMembers(rs[1..], r);
      assert forall q :: q in rs <==> q == rs[0] || q in rs[1..];
    }
  }

  predicate Apart(q: Region, r: Region) { q.End() <= r.base || r.End() <= q.base }

  lemma {:induction false} InsertedOrdered(rs: seq<Region>, r: Region)
    requires Ordered(rs) && WellFormed(r) && forall q :: q in rs ==> Apart(q, r)
    ensures Ordered(Inserted(rs, r))
  {
    if rs == [] {
      assert Inserted(rs, r) == [r];
    } else {
      OrderedTail(rs);
      if r.base < rs[0].base {
        assert forall q :: q in rs ==> q == rs[0] || q in rs[1..];
        OrderedCons(r, rs);
      } else {
        InsertedOrdered(rs[1..], r);
        InsertedMembers(rs[1..], r);
        assert rs[0] in rs && rs[0].End() <= r.base;
        OrderedCons(rs[0], Inserted(rs[1..], r));
      }
    }
  }

  lemma PlusCommutes(a: View, b: View)
    requires a.Keys !! b.Keys
    ensures a + b == b + a
  {
  }

  lemma {:induction false} InsertedView(rs: seq<Region>, r: Region)
    requires Ordered(rs) && forall q :: q in rs ==> Apart(q, r)
    ensures ViewOf(Inserted(rs, r)) == ViewOf(rs) + Span(r.base, r.End(), CellOf(r))
  {
    var span := Span(r.base, r.End(), CellOf(r));
    if rs == [] || r.base < rs[0].base {
      assert ([r] + rs)[1..] == rs;
      forall a | a in ViewOf(rs) ensures a !in span {
        var q := Container(rs, a);
      }
      PlusCommutes(span, ViewOf(rs));
    } else {
      OrderedTail(rs);
      InsertedView(rs[1..], r);
      assert Inserted(rs, r)[1..] == Inserted(rs[1..], r);
      PlusAssociates(Span(rs[0].base, rs[0].End(), CellOf(rs[0])), ViewOf(rs[1..]), span);
    }
  }

  lemma {:induction false} SortedIsIdentity(rs: seq<Region>)
    requires Ordered(rs)
    ensures Sorted(rs) == rs
  {
    if rs != [] {
      hide Ordered, Inserted, Sorted;
      var init, last := rs[..|rs| - 1], rs[|rs| - 1];
      assert rs == init + [last];
      OrderedInit(rs);
      SortedIsIdentity(init);
      SortedSnoc(init, last);
      InsertedLast(init, last);
    }
  }

  lemma {:induction false} InsertedLast(rs: seq<Region>, r: Region)
    requires forall q :: q in rs ==> q.base <= r.base
    ensures Inserted(rs, r) == rs + [r]
  {
    if rs != [] {
      InsertedLast(rs[1..], r);
      assert rs + [r] == [rs[0]] + (rs[1..] + [r]);
    }
  }

  ghost predicate AllApart(added: seq<Region>) {
    && (forall i :: 0 <= i < |added| ==> WellFormed(added[i]))
    && (forall i, j :: 0 <= i < j < |added| ==> Apart(added[i], added[j]))
  }

  ghost predicate ApartFrom(kept: seq<Region>, r: Region) {
    forall q :: q in kept ==> Apart(q, r)
  }

  lemma InsertedMerge(rs: seq<Region>, r: Region)
    requires Ordered(rs) && WellFormed(r) && ApartFrom(rs, r)
    ensures Ordered(Inserted(rs, r))
    ensures ViewOf(Inserted(rs, r)) == ViewOf(rs) + ViewOf([r])
    ensures forall q :: q in Inserted(rs, r) <==> q in rs || q in [r]
  {
    InsertedOrdered(rs, r);
    InsertedView(rs, r);
    InsertedMembers(rs, r);
    ViewOne(r);
  }

  function InsertedAll(rs: seq<Region>, added: seq<Region>): seq<Region> {
    if added == [] then rs else Inserted(InsertedAll(rs, added[..|added| - 1]), added[|added| - 1])
  }

  lemma {:induction false} SortedConcat(kept: seq<Region>, added: seq<Region>)
    ensures Sorted(kept + added) == InsertedAll(Sorted(kept), added)
  {
    if added == [] {
      assert kept + added == kept;
    } else {
      var init, last := added[..|added| - 1], added[|added| - 1];
      SortedConcat(kept, init);
      SortedSnoc(kept + init, last);
      assert kept + added == (kept + init) + [last];
    }
  }

  lemma {:induction false} InsertedAllMembers(rs: seq<Region>, added: seq<Region>)
    ensures forall q :: q in InsertedAll(rs, added) <==> q in rs || q in added
  {
    if added != [] {
      var init, last := added[..|added| - 1], added[|added| - 1];
      InsertedAllMembers(rs, init);
      InsertedMembers(InsertedAll(rs, init), last);
      assert added == init + [last];
    }
  }

  lemma InitApart(added: seq<Region>)
    requires added != [] && AllApart(added)
    ensures AllApart(added[..|added| - 1])
    ensures ApartFrom(added[..|added| - 1], added[|added| - 1])
  {
  }

  lemma {:induction false} InsertedAllOrdered(rs: seq<Region>, added: seq<Region>)
    requires Ordered(rs) && AllApart(added)
    requires forall r :: r in added ==> ApartFrom(rs, r)
    ensures Ordered(InsertedAll(rs, added))
    ensures added != [] ==>
              ApartFrom(InsertedAll(rs, added[..|added| - 1]), added[|added| - 1])
  {
    if added != [] {
      var init, last := added[..|added| - 1], added[|added| - 1];
      InitApart(added);
      InsertedAllOrdered(rs, init);
      assert ApartFrom(rs, last);
      InsertedAllMembers(rs, init);
      InsertedOrdered(InsertedAll(rs, init), last);
    }
  }

  lemma {:induction false} InsertedAllView(rs: seq<Region>, added: seq<Region>)
    requires Ordered(rs) && AllApart(added)
    requires forall r :: r in added ==> ApartFrom(rs, r)
    ensures ViewOf(InsertedAll(rs, added)) == ViewOf(rs) + ViewOf(added)
  {
    if added != [] {
      var init, last := added[..|added| - 1], added[|added| - 1];
      assert added == init + [last];
      assert InsertedAll(rs, added) == Inserted(InsertedAll(rs, init), last);
      InitApart(added);
      assert WellFormed(last);
      hide ViewOf, Inserted, InsertedAll, Ordered, AllApart, ApartFrom;
      InsertedAllView(rs, init);
      InsertedAllOrdered(rs, init);
      InsertedAllOrdered(rs, added);
      InsertedMerge(InsertedAll(rs, init), last);
      PlusAssociates(ViewOf(rs), ViewOf(init), ViewOf([last]));
      ViewSnoc(init, last);
    }
  }

  lemma ViewSnoc(rs: seq<Region>, r: Region)
    ensures ViewOf(rs + [r]) == ViewOf(rs) + ViewOf([r])
  {
    ViewConcat(rs, [r]);
  }

  /** Sorting an ordered list with disjoint newcomers appended merges the two page maps. */
  lemma SortedMerge(kept: seq<Region>, added: seq<Region>)
    requires Ordered(kept) && AllApart(added)
    requires forall r :: r in added ==> ApartFrom(kept, r)
    ensures Ordered(Sorted(kept + added))
    ensures ViewOf(Sorted(kept + added)) == ViewOf(kept) + ViewOf(added)
    ensures forall q :: q in Sorted(kept + added) <==> q in kept || q in added
  {
    SortedConcat(kept, added);
    SortedIsIdentity(kept);
    InsertedAllOrdered(kept, added);
    InsertedAllView(kept, added);
    InsertedAllMembers(kept, added);
  }
}
