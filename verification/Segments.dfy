/** The pages of a loaded image: permissions joined page by page, then gathered into runs. */
module Segments {
  import opened Common

  datatype Flag = READ | WRITE | EXEC

  type Perms = set<Flag>

  datatype Load = Load(vaddr: int, size: nat, perms: Perms)

  /** A run of pages with the same permissions; addresses are counted in pages. */
  datatype Segment = Segment(first: int, count: nat, perms: Perms) {
    function End(): int { first + count }
  }

  /** The page an address is on. */
  function FirstPage(address: int): (r: int)
    ensures r * PAGE <= address < (r + 1) * PAGE
  {
    address / PAGE
  }

  function PageAfter(address: int): (r: int)
    ensures (r - 1) * PAGE < address <= r * PAGE
  {
    (address + PAGE - 1) / PAGE
  }

  predicate Touches(l: Load, base: int, page: int) {
    FirstPage(base + l.vaddr) <= page < PageAfter(base + l.vaddr + l.size)
  }

  /** A segment touches the pages that hold one of its bytes; an empty one at most the page it starts in. */
  lemma TouchesItsBytes(l: Load, base: int, page: int)
    ensures l.size > 0 ==>
              (Touches(l, base, page) <==>
                 page * PAGE < base + l.vaddr + l.size && base + l.vaddr < (page + 1) * PAGE)
    ensures l.size == 0 ==> (Touches(l, base, page) <==> page * PAGE < base + l.vaddr < (page + 1) * PAGE)
  {
  }

  /** What a page allows: everything that some segment of the file on that page allows. */
  ghost predicate Joined(loads: seq<Load>, base: int, page: int, perms: Perms) {
    forall f :: f in perms <==> exists i :: 0 <= i < |loads| && Touches(loads[i], base, page) && f in loads[i].perms
  }

  lemma JoinedGrows(loads: seq<Load>, l: Load, base: int, page: int, perms: Perms)
    requires Joined(loads, base, page, perms)
    ensures Joined(loads + [l], base, page, if Touches(l, base, page) then perms + l.perms else perms)
  {
    var more := loads + [l];
    assert more[|loads|] == l && forall i :: 0 <= i < |loads| ==> more[i] == loads[i];
    forall f
      ensures (exists i :: 0 <= i < |more| && Touches(more[i], base, page) && f in more[i].perms)
         <==> (exists i :: 0 <= i < |loads| && Touches(loads[i], base, page) && f in loads[i].perms)
              || (Touches(l, base, page) && f in l.perms)
    {
    }
  }

  function Lowest(loads: seq<Load>): (r: int)
    requires loads != []
    ensures exists i :: 0 <= i < |loads| && loads[i].vaddr == r
    ensures forall i :: 0 <= i < |loads| ==> r <= loads[i].vaddr
    decreases |loads|
  {
    var n := |loads| - 1;
    if n == 0 then loads[0].vaddr
    else
      var r := Lowest(loads[..n]);
      assert exists i :: 0 <= i < n && loads[..n][i].vaddr == r && loads[i].vaddr == r;
      if loads[n].vaddr < r then loads[n].vaddr else r
  }

  function Highest(loads: seq<Load>): (r: int)
    requires loads != []
    ensures exists i :: 0 <= i < |loads| && loads[i].vaddr + loads[i].size == r
    ensures forall i :: 0 <= i < |loads| ==> loads[i].vaddr + loads[i].size <= r
    decreases |loads|
  {
    var n := |loads| - 1;
    var end := loads[n].vaddr + loads[n].size;
    if n == 0 then end
    else
      var r := Highest(loads[..n]);
      assert exists i :: 0 <= i < n && loads[..n][i].vaddr + loads[..n][i].size == r
                         && loads[i].vaddr + loads[i].size == r;
      if r < end then end else r
  }

  /** Runs from page `lo` to page `hi`, without gaps, no two neighbours alike. */
  ghost predicate Runs(segs: seq<Segment>, lo: int, hi: int) {
    && (segs == [] ==> lo == hi)
    && (segs != [] ==> segs[0].first == lo && segs[|segs| - 1].End() == hi)
    && (forall i :: 0 <= i < |segs| ==> segs[i].count > 0)
    && (forall i :: 0 < i < |segs| ==> segs[i - 1].End() == segs[i].first && segs[i - 1].perms != segs[i].perms)
  }

  ghost predicate Shows(segs: seq<Segment>, pages: map<int, Perms>) {
    forall i, p :: 0 <= i < |segs| && segs[i].first <= p < segs[i].End() ==> p in pages && pages[p] == segs[i].perms
  }

  /** One entry for each page of the span. */
  method PagePerms(loads: seq<Load>, base: int, lo: int, hi: int) returns (pages: map<int, Perms>)
    requires forall i, p :: 0 <= i < |loads| && Touches(loads[i], base, p) ==> lo <= p < hi
    ensures forall p :: p in pages <==> lo <= p < hi
    ensures forall p :: p in pages ==> Joined(loads, base, p, pages[p])
  {
    hide Joined, Touches, FirstPage, PageAfter;
    pages := map[];
    for p := lo to if lo < hi then hi else lo
      invariant forall q :: q in pages <==> lo <= q < p
      invariant forall q :: q in pages ==> pages[q] == {}
    {
      pages := pages[p := {}];
    }
    assert loads[..0] == [];
    forall q | q in pages
      ensures Joined(loads[..0], base, q, pages[q])
    {
      NoneJoined(base, q);
    }
    for i := 0 to |loads|
      invariant forall p :: p in pages <==> lo <= p < hi
      invariant forall p :: p in pages ==> Joined(loads[..i], base, p, pages[p])
    {
      pages := JoinSegment(loads, i, base, lo, hi, pages);
    }
    assert loads[..|loads|] == loads;
  }

  lemma NoneJoined(base: int, page: int)
    ensures Joined([], base, page, {})
  {
  }

  method JoinSegment(loads: seq<Load>, i: nat, base: int, lo: int, hi: int, pages: map<int, Perms>)
    returns (r: map<int, Perms>)
    requires i < |loads|
    requires forall p :: p in pages <==> lo <= p < hi
    requires forall p :: Touches(loads[i], base, p) ==> lo <= p < hi
    requires forall p :: p in pages ==> Joined(loads[..i], base, p, pages[p])
    ensures r.Keys == pages.Keys
    ensures forall p :: p in r ==> Joined(loads[..i + 1], base, p, r[p])
  {
    hide Joined, FirstPage, PageAfter;
    var l := loads[i];
    var first, after := FirstPage(base + l.vaddr), PageAfter(base + l.vaddr + l.size);
    r := pages;
    for p := first to if first < after then after else first
      invariant r.Keys == pages.Keys
      invariant forall q :: q in r ==> r[q] == if first <= q < p then pages[q] + l.perms else pages[q]
    {
      assert Touches(l, base, p);
      r := r[p := r[p] + l.perms];
    }
    assert loads[..i + 1] == loads[..i] + [l];
    forall q | q in r
      ensures Joined(loads[..i + 1], base, q, r[q])
    {
      JoinedGrows(loads[..i], l, base, q, pages[q]);
    }
  }

  /** Either way of adding the next page keeps the runs maximal. */
  lemma AddPage(segs: seq<Segment>, lo: int, p: int, pages: map<int, Perms>)
    requires Runs(segs, lo, p) && Shows(segs, pages) && p in pages
    ensures var n := |segs|;
      && (segs != [] && segs[n - 1].perms == pages[p] ==>
            var more := segs[n - 1 := Segment(segs[n - 1].first, segs[n - 1].count + 1, pages[p])];
            Runs(more, lo, p + 1) && Shows(more, pages))
      && (segs == [] || segs[n - 1].perms != pages[p] ==>
            Runs(segs + [Segment(p, 1, pages[p])], lo, p + 1) && Shows(segs + [Segment(p, 1, pages[p])], pages))
  {
    hide Runs, Shows;
    if segs != [] && segs[|segs| - 1].perms == pages[p] {
      LongerRun(segs, lo, p, pages);
    } else {
      NewRun(segs, lo, p, pages);
    }
  }

  lemma NewRun(segs: seq<Segment>, lo: int, p: int, pages: map<int, Perms>)
    requires Runs(segs, lo, p) && Shows(segs, pages) && p in pages
    requires segs == [] || segs[|segs| - 1].perms != pages[p]
    ensures Runs(segs + [Segment(p, 1, pages[p])], lo, p + 1) && Shows(segs + [Segment(p, 1, pages[p])], pages)
  {
  }

  lemma LongerRun(segs: seq<Segment>, lo: int, p: int, pages: map<int, Perms>)
    requires Runs(segs, lo, p) && Shows(segs, pages) && p in pages && segs != [] && segs[|segs| - 1].perms == pages[p]
    ensures var n := |segs|;
            var more := segs[n - 1 := Segment(segs[n - 1].first, segs[n - 1].count + 1, pages[p])];
            Runs(more, lo, p + 1) && Shows(more, pages)
  {
  }

  /** Neighbouring pages with equal permissions share a segment. */
  method Gather(pages: map<int, Perms>, lo: int, hi: int) returns (segs: seq<Segment>)
    requires lo <= hi && forall p :: lo <= p < hi ==> p in pages
    ensures Runs(segs, lo, hi) && Shows(segs, pages)
  {
    segs := [];
    for p := lo to hi
      invariant Runs(segs, lo, p) && Shows(segs, pages)
    {
      hide Runs, Shows;
      var perms, n := pages[p], |segs|;
      AddPage(segs, lo, p, pages);
      if segs != [] && segs[n - 1].perms == perms {
        segs := segs[n - 1 := Segment(segs[n - 1].first, segs[n - 1].count + 1, perms)];
      } else {
        segs := segs + [Segment(p, 1, perms)];
      }
    }
  }

  method MapSegments(loads: seq<Load>, base: int) returns (segs: seq<Segment>)
    requires loads != []
    ensures Runs(segs, FirstPage(base + Lowest(loads)), PageAfter(base + Highest(loads)))
    ensures forall i, p :: 0 <= i < |segs| && segs[i].first <= p < segs[i].End() ==>
              Joined(loads, base, p, segs[i].perms)
  {
    hide Joined, Runs;
    var lo, hi := FirstPage(base + Lowest(loads)), PageAfter(base + Highest(loads));
    SpanHolds(loads, base);
    var pages := PagePerms(loads, base, lo, hi);
    segs := Gather(pages, lo, hi);
    forall i, p | 0 <= i < |segs| && segs[i].first <= p < segs[i].End()
      ensures Joined(loads, base, p, segs[i].perms)
    {
      assert p in pages && pages[p] == segs[i].perms;
    }
  }

  lemma SpanHolds(loads: seq<Load>, base: int)
    requires loads != []
    ensures FirstPage(base + Lowest(loads)) <= PageAfter(base + Highest(loads))
    ensures forall i, p :: 0 <= i < |loads| && Touches(loads[i], base, p) ==>
              FirstPage(base + Lowest(loads)) <= p < PageAfter(base + Highest(loads))
  {
    hide Lowest, Highest;
    assert loads[0].vaddr + loads[0].size <= Highest(loads) && Lowest(loads) <= loads[0].vaddr;
    forall i, p | 0 <= i < |loads| && Touches(loads[i], base, p)
      ensures FirstPage(base + Lowest(loads)) <= p < PageAfter(base + Highest(loads))
    {
      assert loads[i].vaddr + loads[i].size <= Highest(loads) && Lowest(loads) <= loads[i].vaddr;
    }
  }

  /** The runs are determined by the permissions of the pages. */
  lemma {:induction false} RunsAreUnique(a: seq<Segment>, b: seq<Segment>, lo: int, hi: int, pages: map<int, Perms>)
    requires Runs(a, lo, hi) && Shows(a, pages) && Runs(b, lo, hi) && Shows(b, pages)
    ensures a == b
    decreases |a|
  {
    if a != [] {
      FirstRun(a, b, lo, hi, pages);
      FirstRun(b, a, lo, hi, pages);
      RunsTail(a, lo, hi, pages);
      RunsTail(b, lo, hi, pages);
      hide Runs, Shows;
      RunsAreUnique(a[1..], b[1..], a[0].End(), hi, pages);
      assert a == [a[0]] + a[1..] && b == [b[0]] + b[1..];
    } else if b != [] {
      EndsAfter(b, lo, hi);
    }
  }

  lemma RunsTail(a: seq<Segment>, lo: int, hi: int, pages: map<int, Perms>)
    requires Runs(a, lo, hi) && Shows(a, pages) && a != []
    ensures Runs(a[1..], a[0].End(), hi) && Shows(a[1..], pages)
  {
    EndsAfter(a, lo, hi);
  }

  lemma {:induction false} EndsAfter(a: seq<Segment>, lo: int, hi: int)
    requires Runs(a, lo, hi) && a != []
    ensures lo < a[0].End() <= hi && (|a| > 1 ==> a[0].End() < hi)
    decreases |a|
  {
    var n := |a| - 1;
    assert a[n].count > 0 && a[0].count > 0;
    if n > 0 {
      assert a[n - 1].End() == a[n].first;
      EndsAfter(a[..n], lo, a[n - 1].End());
    }
  }

  /** The first run of one list is no longer than the first run of the other. */
  lemma FirstRun(a: seq<Segment>, b: seq<Segment>, lo: int, hi: int, pages: map<int, Perms>)
    requires Runs(a, lo, hi) && Shows(a, pages) && Runs(b, lo, hi) && Shows(b, pages) && a != []
    ensures b != [] && a[0].first == b[0].first && a[0].perms == b[0].perms && a[0].count <= b[0].count
  {
    EndsAfter(a, lo, hi);
    assert pages[lo] == a[0].perms == b[0].perms;
    EndsAfter(b, lo, hi);
    if |b| > 1 {
      assert b[0].End() == b[1].first && b[1].count > 0;
      assert pages[b[0].End()] == b[1].perms;
    }
  }
}
