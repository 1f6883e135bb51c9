/** JNI references: local, counted global and weak handles over one object table. */
module DalvikRefs {
  import opened Common

  /** Python objects up to identity; a class model made elsewhere stands for this VM's class of the same name. */
  datatype Obj = Null | Plain(id: int) | OwnClass(name: string) | ForeignClass(name: string, id: int)

  function Canonical(o: Obj): (c: Obj)
    ensures !c.ForeignClass? && (c == Null <==> o == Null)
  {
    if o.ForeignClass? then OwnClass(o.name) else o
  }

  datatype Refs = Refs(
    objects: map<int, Obj>,
    handles: map<Obj, int>,
    local: map<int, Obj>,
    global: map<int, Obj>,
    counts: map<int, int>,
    weak: set<int>,
    nextRef: int)

  const EMPTY := Refs(map[], map[], map[], map[], map[], {}, 0x100)

  predicate Held(s: Refs, h: int) { h in s.local || h in s.global || h in s.weak }

  function Get(s: Refs, h: int): Obj { if h in s.objects then s.objects[h] else Null }

  /** The handle that None was once given; the source never takes it back. */
  predicate IsNullHandle(s: Refs, h: int) { Null in s.handles && s.handles[Null] == h }

  /** Objects and handles are mutual inverses, None aside, and every handle is an old one. */
  ghost predicate Table(objects: map<int, Obj>, handles: map<Obj, int>, nextRef: int) {
    && nextRef >= 0x100
    && (forall o :: o in handles ==> !o.ForeignClass? && 0x100 <= handles[o] < nextRef)
    && (forall o :: o in handles && o != Null ==> handles[o] in objects && objects[handles[o]] == o)
    && (forall h :: h in objects ==> objects[h] in handles && handles[objects[h]] == h)
    && (forall o :: o in handles && o != Null && Null in handles ==> handles[o] != handles[Null])
  }

  /** The live handles are the held ones, None's aside and `pending` not yet decided. */
  ghost predicate LiveAreHeld(s: Refs, pending: set<int>) {
    && (forall h :: h in s.objects && h !in pending ==> Held(s, h))
    && (forall h :: Held(s, h) ==> h in s.objects || IsNullHandle(s, h))
  }

  ghost predicate Counted(s: Refs) {
    s.counts.Keys == s.global.Keys && forall h :: h in s.counts ==> s.counts[h] >= 1
  }

  ghost predicate InvBut(s: Refs, pending: set<int>) {
    Table(s.objects, s.handles, s.nextRef) && LiveAreHeld(s, pending) && Counted(s)
  }

  ghost predicate Inv(s: Refs) { InvBut(s, {}) }

  // ------------------------------------------------------------------ the operations on values

  function HandleMade(s: Refs, o: Obj): (Refs, int) {
    var c := Canonical(o);
    if c in s.handles then (s, s.handles[c])
    else
      var t := s.(handles := s.handles[c := s.nextRef], objects := s.objects[s.nextRef := c], nextRef := s.nextRef + 1);
      (t, s.nextRef)
  }

  function LocalAdded(s: Refs, o: Obj): (Refs, int) {
    var (t, h) := HandleMade(s, o);
    (t.(local := t.local[h := o]), h)
  }

  function GlobalAdded(s: Refs, o: Obj): (Refs, int) {
    var (t, h) := HandleMade(s, o);
    (t.(global := t.global[h := o], counts := t.counts[h := (if h in t.counts then t.counts[h] else 0) + 1]), h)
  }

  function WeakAdded(s: Refs, o: Obj): (Refs, int) {
    var (t, h) := HandleMade(s, o);
    (t.(weak := t.weak + {h}), h)
  }

  function Forgotten(s: Refs, h: int): Refs {
    if Held(s, h) || h !in s.objects then s
    else
      var o := s.objects[h];
      s.(objects := s.objects - {h}, handles := if o == Null then s.handles else s.handles - {o})
  }

  function LocalDeleted(s: Refs, h: int): Refs { Forgotten(s.(local := s.local - {h}), h) }

  function WeakDeleted(s: Refs, h: int): Refs { Forgotten(s.(weak := s.weak - {h}), h) }

  function GlobalDeleted(s: Refs, h: int): Refs {
    var count := if h in s.counts then s.counts[h] else 0;
    if count > 1 then s.(counts := s.counts[h := count - 1])
    else Forgotten(s.(counts := s.counts - {h}, global := s.global - {h}), h)
  }

  /** Handles that lose their last hold when the locals outside `mark` go. */
  function Dropped(s: Refs, mark: set<int>): set<int> {
    set h | h in s.local && h !in mark && h !in s.global && h !in s.weak
  }

  /** All locals outside `mark` deleted at once. */
  function Released(s: Refs, mark: set<int>): Refs {
    var gone := Dropped(s, mark);
    s.(local := map h | h in s.local && h in mark :: s.local[h],
       objects := s.objects - gone,
       handles := map o | o in s.handles && (o == Null || s.handles[o] !in gone) :: s.handles[o])
  }

  // ------------------------------------------------------------------ the invariant

  lemma HandleForInv(s: Refs, o: Obj)
    requires Inv(s)
    ensures var (t, h) := HandleMade(s, o);
      InvBut(t, {h}) && (h in t.objects || IsNullHandle(t, h)) && (o != Null ==> Get(t, h) == Canonical(o))
  {
    var (t, h) := HandleMade(s, o);
    HandleForTable(s, o);
    assert forall k :: Held(t, k) <==> Held(s, k);
  }

  lemma HandleForTable(s: Refs, o: Obj)
    requires Table(s.objects, s.handles, s.nextRef)
    ensures var (t, h) := HandleMade(s, o);
      && Table(t.objects, t.handles, t.nextRef)
      && (h in t.objects || IsNullHandle(t, h)) && (o != Null ==> Get(t, h) == Canonical(o))
      && (forall k :: k in s.objects ==> k in t.objects && t.objects[k] == s.objects[k])
      && (forall k :: k in t.objects ==> k == h || k in s.objects)
      && (forall k :: IsNullHandle(s, k) ==> IsNullHandle(t, k))
  {
    var c := Canonical(o);
    assert s.nextRef !in s.objects;
    if c !in s.handles {
      FreshHandle(s.objects, s.handles, s.nextRef, c);
    }
  }

  lemma FreshHandle(objects: map<int, Obj>, handles: map<Obj, int>, nextRef: int, c: Obj)
    requires Table(objects, handles, nextRef) && c !in handles && !c.ForeignClass?
    ensures Table(objects[nextRef := c], handles[c := nextRef], nextRef + 1)
  {
  }

  lemma LocalAddedInv(s: Refs, o: Obj)
    requires Inv(s)
    ensures var (t, h) := LocalAdded(s, o); Inv(t) && h in t.local && (o != Null ==> Get(t, h) == Canonical(o))
  {
    hide Table, HandleMade;
    HandleForInv(s, o);
  }

  lemma GlobalAddedInv(s: Refs, o: Obj)
    requires Inv(s)
    ensures var (t, h) := GlobalAdded(s, o); Inv(t) && h in t.global && (o != Null ==> Get(t, h) == Canonical(o))
  {
    hide Table, HandleMade;
    HandleForInv(s, o);
  }

  lemma WeakAddedInv(s: Refs, o: Obj)
    requires Inv(s)
    ensures var (t, h) := WeakAdded(s, o); Inv(t) && h in t.weak && (o != Null ==> Get(t, h) == Canonical(o))
  {
    hide Table, HandleMade;
    HandleForInv(s, o);
  }

  lemma ForgetInv(s: Refs, h: int)
    requires InvBut(s, {h})
    ensures Inv(Forgotten(s, h))
  {
    if !Held(s, h) && h in s.objects {
      ForgetTable(s, h);
    }
  }

  lemma ForgetTable(s: Refs, h: int)
    requires Table(s.objects, s.handles, s.nextRef) && h in s.objects
    ensures var o := s.objects[h];
      Table(s.objects - {h}, if o == Null then s.handles else s.handles - {o}, s.nextRef)
  {
  }

  lemma DeleteInv(s: Refs, h: int)
    requires Inv(s)
    ensures Inv(LocalDeleted(s, h)) && Inv(WeakDeleted(s, h)) && Inv(GlobalDeleted(s, h))
  {
    hide Inv;
    LocalDeletedInv(s, h);
    WeakDeletedInv(s, h);
    GlobalDeletedInv(s, h);
  }

  lemma LocalDeletedInv(s: Refs, h: int)
    requires Inv(s)
    ensures Inv(LocalDeleted(s, h))
  {
    hide Table, Forgotten;
    ForgetInv(s.(local := s.local - {h}), h);
  }

  lemma WeakDeletedInv(s: Refs, h: int)
    requires Inv(s)
    ensures Inv(WeakDeleted(s, h))
  {
    hide Table, Forgotten;
    ForgetInv(s.(weak := s.weak - {h}), h);
  }

  lemma GlobalDeletedInv(s: Refs, h: int)
    requires Inv(s)
    ensures Inv(GlobalDeleted(s, h))
  {
    hide Table, Forgotten;
    if !(h in s.counts && s.counts[h] > 1) {
      ForgetInv(s.(counts := s.counts - {h}, global := s.global - {h}), h);
    }
  }

  /** An object has one handle: live handles that resolve to the same object are equal. */
  lemma OneHandleEach(s: Refs, h: int, k: int)
    requires Inv(s) && Get(s, h) == Get(s, k) != Null
    ensures h == k
  {
  }

  /** The object a handle resolves to; a class model made elsewhere is this VM's class of its name. */
  ghost predicate Resolves(s: Refs, t: Refs, o: Obj, h: int) {
    && Get(t, h) == (if o.ForeignClass? then OwnClass(o.name) else o)
    && forall k :: k in s.objects ==> Get(t, k) == Get(s, k)
  }

  /** Whatever kind of reference is made, its handle resolves to the object, and what resolved before still does. */
  lemma HandleResolves(s: Refs, o: Obj)
    requires Inv(s)
    ensures var (t, h) := LocalAdded(s, o); Resolves(s, t, o, h)
    ensures var (t, h) := GlobalAdded(s, o); Resolves(s, t, o, h)
    ensures var (t, h) := WeakAdded(s, o); Resolves(s, t, o, h)
  {
    var (t, h) := HandleMade(s, o);
    assert Resolves(s, t, o, h);
    hide HandleMade, Inv;
  }

  /** A deleted reference resolves while something else holds it, and no longer; every other one is as before. */
  lemma DeletedWeak(s: Refs, h: int)
    requires Inv(s)
    ensures var t := WeakDeleted(s, h);
      && t.weak == s.weak - {h} && t.local == s.local && t.global == s.global && t.counts == s.counts
      && Get(t, h) == (if h in s.local || h in s.global then Get(s, h) else Null)
      && forall k :: k != h ==> Get(t, k) == Get(s, k)
  {
  }

  lemma DeletedLocal(s: Refs, h: int)
    requires Inv(s)
    ensures var t := LocalDeleted(s, h);
      && t.local == s.local - {h} && t.weak == s.weak && t.global == s.global && t.counts == s.counts
      && Get(t, h) == (if h in s.global || h in s.weak then Get(s, h) else Null)
      && forall k :: k != h ==> Get(t, k) == Get(s, k)
  {
  }

  lemma DeletedGlobal(s: Refs, h: int)
    requires Inv(s)
    ensures var t := GlobalDeleted(s, h);
      && (h in t.global <==> h in s.global && h in s.counts && s.counts[h] > 1)
      && (h in t.global ==> t.counts[h] == s.counts[h] - 1)
      && (Held(t, h) ==> Get(t, h) == Get(s, h)) && (!Held(t, h) ==> Get(t, h) == Null)
      && (forall k :: k != h ==>
            Get(t, k) == Get(s, k) && (k in t.global <==> k in s.global) && (k in t.local <==> k in s.local))
    ensures s.counts.Keys == s.global.Keys
  {
  }

  lemma DeletedGlobalOnly(s: Refs, h: int)
    ensures var t := GlobalDeleted(s, h);
      t.local == s.local && t.weak == s.weak && t.global - {h} == s.global - {h} && t.counts - {h} == s.counts - {h}
  {
  }

  lemma ReleaseInv(s: Refs, mark: set<int>)
    requires Inv(s)
    ensures Inv(Released(s, mark))
  {
  }

  /** A release ends exactly the local references outside the mark; one of them resolves on only if otherwise held. */
  lemma ReleasedAre(s: Refs, mark: set<int>)
    requires Inv(s)
    ensures var t := Released(s, mark);
      && t.local == (map h | h in s.local && h in mark :: s.local[h])
      && t.global == s.global && t.counts == s.counts && t.weak == s.weak
      && forall k :: Get(t, k) ==
           if k in s.local && k !in mark && k !in s.global && k !in s.weak then Null else Get(s, k)
  {
  }

  lemma DroppedStep(s: Refs, mark: set<int>, h: int)
    requires h in s.local && h !in mark
    ensures Dropped(LocalDeleted(s, h), mark) == Dropped(s, mark) - {h}
    ensures h in Dropped(s, mark) <==> h !in s.global && h !in s.weak
  {
  }

  lemma HandlesStep(s: Refs, mark: set<int>, h: int)
    requires Table(s.objects, s.handles, s.nextRef) && h in s.local && h !in mark
    ensures Released(LocalDeleted(s, h), mark).handles == Released(s, mark).handles
  {
    var gone := Dropped(s, mark);
    DroppedStep(s, mark, h);
    hide Dropped;
    assert h !in s.objects ==> forall o :: o in s.handles && o != Null ==> s.handles[o] != h;
  }

  /** Releasing one local at a time, in any order, is releasing them at once. */
  lemma ReleaseStep(s: Refs, mark: set<int>, h: int)
    requires Inv(s) && h in s.local && h !in mark
    ensures Released(LocalDeleted(s, h), mark) == Released(s, mark)
  {
    var t := LocalDeleted(s, h);
    DroppedStep(s, mark, h);
    HandlesStep(s, mark, h);
    hide Inv, Dropped;
    assert t.objects - Dropped(t, mark) == s.objects - Dropped(s, mark);
    assert Released(t, mark).local == Released(s, mark).local;
  }

  lemma ReleaseNothing(s: Refs, mark: set<int>)
    requires s.local.Keys <= mark
    ensures Released(s, mark) == s
  {
    assert Dropped(s, mark) == {};
  }

  // ------------------------------------------------------------------ the object that does it

  class DalvikVM {
    var objects: map<int, Obj>
    var handles: map<Obj, int>
    var local: map<int, Obj>
    var global: map<int, Obj>
    var globalRefs: map<int, int>
    var weakGlobal: set<int>
    var nextRef: int

    ghost function Now(): Refs
      reads this
    {
      Refs(objects, handles, local, global, globalRefs, weakGlobal, nextRef)
    }

    ghost predicate Valid()
      reads this
    {
      Inv(Now())
    }

    constructor ()
      ensures Valid() && Now() == EMPTY
    {
      objects, handles, local, global, globalRefs, weakGlobal, nextRef := map[], map[], map[], map[], map[], {}, 0x100;
    }

    method HandleFor(o: Obj) returns (h: int)
      modifies this`objects, this`handles, this`nextRef
      ensures (Now(), h) == HandleMade(old(Now()), o)
    {
      var c := Canonical(o);
      if c in handles {
        h := handles[c];
      } else {
        h := nextRef;
        nextRef := nextRef + 1;
        handles := handles[c := h];
        objects := objects[h := c];
      }
    }

    method AddLocal(o: Obj) returns (h: int)
      requires Valid()
      modifies this`objects, this`handles, this`nextRef, this`local
      ensures Valid() && (Now(), h) == LocalAdded(old(Now()), o)
      ensures h in local && (o != Null ==> Get(Now(), h) == Canonical(o))
      ensures local == old(local)[h := o] && Resolves(old(Now()), Now(), o, h)
    {
      HandleResolves(Now(), o);
      LocalAddedInv(Now(), o);
      hide Inv, Canonical, Get, HandleMade, Resolves;
      h := HandleFor(o);
      local := local[h := o];
    }

    method AddGlobal(o: Obj) returns (h: int)
      requires Valid()
      modifies this`objects, this`handles, this`nextRef, this`global, this`globalRefs
      ensures Valid() && (Now(), h) == GlobalAdded(old(Now()), o)
      ensures h in global && (o != Null ==> Get(Now(), h) == Canonical(o))
      ensures globalRefs == old(globalRefs)[h := (if h in old(globalRefs) then old(globalRefs)[h] else 0) + 1]
      ensures global == old(global)[h := o] && Resolves(old(Now()), Now(), o, h)
    {
      HandleResolves(Now(), o);
      GlobalAddedInv(Now(), o);
      hide Inv, Canonical, Get, HandleMade, Resolves;
      h := HandleFor(o);
      var count := if h in globalRefs then globalRefs[h] else 0;
      global := global[h := o];
      globalRefs := globalRefs[h := count + 1];
      assert (Now(), h) == GlobalAdded(old(Now()), o);
      hide GlobalAdded;
    }

    method AddWeakGlobal(o: Obj) returns (h: int)
      requires Valid()
      modifies this`objects, this`handles, this`nextRef, this`weakGlobal
      ensures Valid() && (Now(), h) == WeakAdded(old(Now()), o)
      ensures h in weakGlobal && (o != Null ==> Get(Now(), h) == Canonical(o))
      ensures weakGlobal == old(weakGlobal) + {h} && Resolves(old(Now()), Now(), o, h)
    {
      HandleResolves(Now(), o);
      WeakAddedInv(Now(), o);
      hide Inv, Canonical, Get, HandleMade, Resolves;
      h := HandleFor(o);
      weakGlobal := weakGlobal + {h};
    }

    method Forget(ref: int)
      modifies this`objects, this`handles
      ensures Now() == Forgotten(old(Now()), ref)
    {
      if ref !in local && ref !in global && ref !in weakGlobal {
        if ref in objects {
          var o := objects[ref];
          objects := objects - {ref};
          if o != Null {
            handles := handles - {o};
          }
        }
      }
    }

    method DeleteWeakGlobal(ref: int)
      requires Valid()
      modifies this`objects, this`handles, this`weakGlobal
      ensures Valid() && Now() == WeakDeleted(old(Now()), ref)
      ensures weakGlobal == old(weakGlobal) - {ref}
      ensures Get(Now(), ref) == if ref in local || ref in global then Get(old(Now()), ref) else Null
      ensures forall k :: k != ref ==> Get(Now(), k) == Get(old(Now()), k)
    {
      DeletedWeak(Now(), ref);
      hide Inv;
      DeleteInv(Now(), ref);
      weakGlobal := weakGlobal - {ref};
      Forget(ref);
    }

    method DeleteLocal(ref: int)
      requires Valid()
      modifies this`objects, this`handles, this`local
      ensures Valid() && Now() == LocalDeleted(old(Now()), ref)
      ensures local == old(local) - {ref}
      ensures Get(Now(), ref) == if ref in global || ref in weakGlobal then Get(old(Now()), ref) else Null
      ensures forall k :: k != ref ==> Get(Now(), k) == Get(old(Now()), k)
    {
      DeletedLocal(Now(), ref);
      hide Inv;
      DeleteInv(Now(), ref);
      local := local - {ref};
      Forget(ref);
    }

    method DeleteGlobal(ref: int)
      requires Valid()
      modifies this`objects, this`handles, this`global, this`globalRefs
      ensures Valid() && Now() == GlobalDeleted(old(Now()), ref)
      // One deletion undoes one addition; the last one ends the reference, unless it is also local or weak.
      ensures ref in global <==> ref in old(global) && old(globalRefs)[ref] > 1
      ensures ref in global ==> globalRefs[ref] == old(globalRefs)[ref] - 1
      ensures Held(Now(), ref) ==> Get(Now(), ref) == Get(old(Now()), ref)
      ensures !Held(Now(), ref) ==> Get(Now(), ref) == Null
      ensures forall k :: k != ref ==>
                && Get(Now(), k) == Get(old(Now()), k)
                && (k in global <==> k in old(global)) && (k in local <==> k in old(local))
      ensures global - {ref} == old(global) - {ref} && globalRefs - {ref} == old(globalRefs) - {ref}
    {
      DeletedGlobal(Now(), ref);
      DeletedGlobalOnly(Now(), ref);
      hide Inv;
      DeleteInv(Now(), ref);
      var count := if ref in globalRefs then globalRefs[ref] else 0;
      if count > 1 {
        globalRefs := globalRefs[ref := count - 1];
        return;
      }
      globalRefs := globalRefs - {ref};
      global := global - {ref};
      Forget(ref);
    }

    method LocalMark() returns (mark: set<int>)
      ensures mark == local.Keys
    {
      mark := local.Keys;
    }

    /** The loop deletes the unmarked locals one by one; the order does not matter. */
    method LocalRelease(mark: set<int>)
      requires Valid()
      modifies this`objects, this`handles, this`local
      ensures Valid() && Now() == Released(old(Now()), mark)
      ensures local == map h | h in old(local) && h in mark :: old(local)[h]
      ensures forall k :: Get(Now(), k) ==
                if k in old(local) && k !in mark && k !in global && k !in weakGlobal then Null else Get(old(Now()), k)
    {
      ReleasedAre(Now(), mark);
      hide Inv, Released, LocalDeleted;
      var rest := set h | h in local && h !in mark;
      while rest != {}
        invariant Valid()
        invariant rest == set h | h in local && h !in mark
        invariant Released(Now(), mark) == Released(old(Now()), mark)
        decreases rest
      {
        ghost var one := Pick(rest);
        var ref :| ref in rest;
        ReleaseStep(Now(), mark, ref);
        LocalDeletedLocals(Now(), ref);
        DeleteLocal(ref);
        rest := rest - {ref};
      }
      assert local.Keys <= mark by {
        forall h | h in local ensures h in mark {
          assert h !in rest;
        }
      }
      ReleaseNothing(Now(), mark);
    }

    method RefType(ref: int) returns (kind: int)
      ensures kind == if ref in weakGlobal then 3 else if ref in global then 2 else if ref in local then 1 else 0
    {
      if ref in weakGlobal {
        return 3;
      }
      if ref in global {
        return 2;
      }
      return if ref in local then 1 else 0;
    }
  }

  lemma LocalDeletedLocals(s: Refs, h: int)
    ensures LocalDeleted(s, h).local == s.local - {h}
  {
  }

  // ------------------------------------------------------------------ runs

  datatype Op =
    | NewLocal(o: Obj) | NewGlobal(o: Obj) | NewWeak(o: Obj)
    | DropLocal(ref: int) | DropGlobal(ref: int) | DropWeak(ref: int)
    | ReleaseTo(mark: set<int>)

  function Step(s: Refs, op: Op): Refs {
    match op
    case NewLocal(o) => LocalAdded(s, o).0
    case NewGlobal(o) => GlobalAdded(s, o).0
    case NewWeak(o) => WeakAdded(s, o).0
    case DropLocal(ref) => LocalDeleted(s, ref)
    case DropGlobal(ref) => GlobalDeleted(s, ref)
    case DropWeak(ref) => WeakDeleted(s, ref)
    case ReleaseTo(mark) => Released(s, mark)
  }

  function Run(s: Refs, ops: seq<Op>): Refs
    decreases |ops|
  {
    if ops == [] then s else Run(Step(s, ops[0]), ops[1..])
  }

  lemma StepInv(s: Refs, op: Op)
    requires Inv(s)
    ensures Inv(Step(s, op))
  {
    hide Inv;
    match op {
      case NewLocal(o) => LocalAddedInv(s, o);
      case NewGlobal(o) => GlobalAddedInv(s, o);
      case NewWeak(o) => WeakAddedInv(s, o);
      case DropLocal(ref) => DeleteInv(s, ref);
      case DropGlobal(ref) => DeleteInv(s, ref);
      case DropWeak(ref) => DeleteInv(s, ref);
      case ReleaseTo(mark) => ReleaseInv(s, mark);
    }
  }

  /** A handle given out once and no longer live never becomes live again. */
  lemma StepKeepsForgotten(s: Refs, op: Op, h: int)
    requires Inv(s) && h < s.nextRef && h !in s.objects
    ensures Step(s, op).nextRef >= s.nextRef && h !in Step(s, op).objects
  {
    hide LiveAreHeld;
  }

  lemma {:induction false} ForgottenForever(s: Refs, ops: seq<Op>, h: int)
    requires Inv(s) && h < s.nextRef && h !in s.objects
    ensures Inv(Run(s, ops)) && Get(Run(s, ops), h) == Null
    decreases |ops|
  {
    if ops != [] {
      hide Inv, Step;
      StepInv(s, ops[0]);
      StepKeepsForgotten(s, ops[0], h);
      ForgottenForever(Step(s, ops[0]), ops[1..], h);
    }
  }

  /** The handle is live at some point of the run. */
  predicate EverLive(s: Refs, ops: seq<Op>, h: int)
    decreases |ops|
  {
    h in s.objects || (ops != [] && EverLive(Step(s, ops[0]), ops[1..], h))
  }

  lemma StepNumbers(s: Refs, op: Op)
    requires Inv(s)
    ensures var t := Step(s, op);
      && s.nextRef <= t.nextRef <= s.nextRef + 1
      && (s.nextRef < t.nextRef ==> s.nextRef in t.objects)
  {
    hide LiveAreHeld, Counted;
  }

  /** Handles are numbered in order and no number is left out, whatever is forgotten in between. */
  lemma {:induction false} HandlesInOrder(s: Refs, ops: seq<Op>, h: int)
    requires Inv(s) && h >= s.nextRef
    ensures s.nextRef <= Run(s, ops).nextRef && (EverLive(s, ops, h) <==> h < Run(s, ops).nextRef)
    decreases |ops|
  {
    assert h !in s.objects;
    if ops != [] {
      hide Inv, Step;
      StepInv(s, ops[0]);
      StepNumbers(s, ops[0]);
      var t := Step(s, ops[0]);
      HandlesInOrder(t, ops[1..], Max(h, t.nextRef));
    }
  }

  lemma {:induction false} RunInv(s: Refs, ops: seq<Op>)
    requires Inv(s)
    ensures Inv(Run(s, ops))
    decreases |ops|
  {
    if ops != [] {
      StepInv(s, ops[0]);
      RunInv(Step(s, ops[0]), ops[1..]);
    }
  }

  /** The live handles are exactly the held ones. */
  ghost predicate LiveIsHeld(s: Refs) { forall h :: h in s.objects <==> Held(s, h) }

  /** In every run a handle other than the one None was given is live exactly while it is held. */
  lemma LiveExactlyHeld(ops: seq<Op>, h: int)
    ensures var s := Run(EMPTY, ops);
      && (!IsNullHandle(s, h) ==> (h in s.objects <==> Held(s, h)))
      && (h in s.objects ==> s.objects[h] in s.handles && s.handles[s.objects[h]] == h)
      && (h in s.global <==> h in s.counts && s.counts[h] > 0)
  {
    RunInv(EMPTY, ops);
  }

  /** The handle None was given has been forgotten; the table of handles still knows it. */
  predicate NullForgotten(s: Refs) { Null in s.handles && s.handles[Null] !in s.objects }

  predicate Wraps(op: Op) {
    match op case NewLocal(o) => o == Null case NewGlobal(o) => o == Null case NewWeak(o) => o == Null case _ => false
  }

  /** None's handle included, the equality holds unless that handle is held although it was forgotten. */
  lemma WhenLiveIsHeld(ops: seq<Op>)
    ensures var s := Run(EMPTY, ops);
            LiveIsHeld(s) <==> !(NullForgotten(s) && Held(s, s.handles[Null]))
  {
    RunInv(EMPTY, ops);
    LiveUnlessNull(Run(EMPTY, ops));
  }

  lemma {:induction false} RunSnoc(s: Refs, ops: seq<Op>, op: Op)
    ensures Run(s, ops + [op]) == Step(Run(s, ops), op)
    decreases |ops|
  {
    hide Step;
    if ops == [] {
      assert ops + [op] == [op];
      assert Run(Step(s, op), [op][1..]) == Step(s, op);
    } else {
      assert (ops + [op])[0] == ops[0] && (ops + [op])[1..] == ops[1..] + [op];
      RunSnoc(Step(s, ops[0]), ops[1..], op);
    }
  }

  /** Wrapping None with its handle forgotten makes that handle held, and still forgotten. */
  lemma WrappingForgotten(s: Refs, op: Op)
    requires NullForgotten(s) && Wraps(op)
    ensures NullForgotten(Step(s, op)) && Held(Step(s, op), Step(s, op).handles[Null])
  {
  }

  lemma LiveUnlessNull(s: Refs)
    requires Inv(s)
    ensures LiveIsHeld(s) <==> !(NullForgotten(s) && Held(s, s.handles[Null]))
  {
    assert !LiveIsHeld(s) ==> exists h :: Held(s, h) && h !in s.objects && IsNullHandle(s, h);
  }

  /** Making a handle neither forgets None's nor revives it, and only None gets it. */
  lemma HandleOfNull(s: Refs, o: Obj)
    requires Table(s.objects, s.handles, s.nextRef)
    ensures var (t, h) := HandleMade(s, o);
      && (NullForgotten(t) <==> NullForgotten(s))
      && (NullForgotten(s) ==> t.handles[Null] == s.handles[Null] && (h == s.handles[Null] ==> o == Null))
      && t.local == s.local && t.global == s.global && t.weak == s.weak
  {
  }

  lemma AddingKeepsLive(s: Refs, o: Obj, op: Op)
    requires Inv(s) && op in {NewLocal(o), NewGlobal(o), NewWeak(o)}
    requires NullForgotten(Step(s, op)) && Held(Step(s, op), Step(s, op).handles[Null])
    ensures NullForgotten(s) && (Wraps(op) || Held(s, s.handles[Null]))
  {
    HandleOfNull(s, o);
    hide Inv, HandleMade;
  }

  lemma DroppingKeepsLive(s: Refs, op: Op)
    requires Inv(s) && (op.DropLocal? || op.DropGlobal? || op.DropWeak?)
    requires NullForgotten(Step(s, op)) && Held(Step(s, op), Step(s, op).handles[Null])
    ensures NullForgotten(s) && Held(s, s.handles[Null])
  {
    hide Table, Counted;
  }

  lemma ReleasingKeepsLive(s: Refs, mark: set<int>)
    requires Inv(s)
    requires NullForgotten(Released(s, mark)) && Held(Released(s, mark), Released(s, mark).handles[Null])
    ensures NullForgotten(s) && Held(s, s.handles[Null])
  {
    hide Counted;
  }

  /** Nothing else makes a forgotten handle of None held. */
  lemma StepKeepsLive(s: Refs, op: Op)
    requires Inv(s) && NullForgotten(Step(s, op)) && Held(Step(s, op), Step(s, op).handles[Null])
    ensures NullForgotten(s) && (Wraps(op) || Held(s, s.handles[Null]))
  {
    hide Inv, NullForgotten, Wraps, Held;
    match op {
      case NewLocal(o) => AddingKeepsLive(s, o, op);
      case NewGlobal(o) => AddingKeepsLive(s, o, op);
      case NewWeak(o) => AddingKeepsLive(s, o, op);
      case ReleaseTo(mark) => ReleasingKeepsLive(s, mark);
      case _ => DroppingKeepsLive(s, op);
    }
  }

  lemma StepOfForgotten(s: Refs, op: Op)
    requires Inv(s)
    ensures NullForgotten(s) && Wraps(op) ==>
              NullForgotten(Step(s, op)) && Held(Step(s, op), Step(s, op).handles[Null])
    ensures LiveIsHeld(s) && !(NullForgotten(s) && Wraps(op)) ==> LiveIsHeld(Step(s, op))
  {
    StepInv(s, op);
    hide Inv, Step, Wraps, NullForgotten, LiveIsHeld;
    if NullForgotten(s) && Wraps(op) {
      WrappingForgotten(s, op);
    }
    LiveUnlessNull(s);
    LiveUnlessNull(Step(s, op));
    if !LiveIsHeld(Step(s, op)) {
      StepKeepsLive(s, op);
    }
  }

  /** None is wrapped by operation `i`, its handle having been forgotten before. */
  predicate WrapsAgain(ops: seq<Op>, i: nat)
    requires i < |ops|
  {
    Wraps(ops[i]) && NullForgotten(Run(EMPTY, ops[..i]))
  }

  ghost predicate LiveThroughout(ops: seq<Op>) {
    forall n :: 0 <= n <= |ops| ==> LiveIsHeld(Run(EMPTY, ops[..n]))
  }

  ghost predicate NeverAgain(ops: seq<Op>) { forall i :: 0 <= i < |ops| ==> !WrapsAgain(ops, i) }

  lemma ThroughoutSnoc(init: seq<Op>, op: Op)
    ensures LiveThroughout(init + [op]) <==> LiveThroughout(init) && LiveIsHeld(Run(EMPTY, init + [op]))
    ensures NeverAgain(init + [op]) <==> NeverAgain(init) && !(Wraps(op) && NullForgotten(Run(EMPTY, init)))
  {
    hide LiveIsHeld, NullForgotten, Run, Wraps;
    var ops := init + [op];
    assert forall n :: 0 <= n <= |init| ==> ops[..n] == init[..n];
    assert init[..|init|] == init && ops[..|ops|] == ops;
    assert LiveThroughout(ops) ==> forall n :: 0 <= n <= |init| ==> LiveIsHeld(Run(EMPTY, ops[..n]));
    assert forall i :: 0 <= i < |init| ==> (WrapsAgain(ops, i) <==> WrapsAgain(init, i));
    assert WrapsAgain(ops, |init|) <==> Wraps(op) && NullForgotten(Run(EMPTY, init));
  }

  /**
   * The equality holds at every point of a run if and only if the run never wraps None again after None's handle
   * was forgotten.
   */
  lemma {:induction false} LiveIsHeldThroughout(ops: seq<Op>)
    ensures LiveThroughout(ops) <==> NeverAgain(ops)
    decreases |ops|
  {
    hide Step, LiveIsHeld, NullForgotten, Inv, Wraps;
    if ops == [] {
      NothingHeld();
      assert ops[..0] == [];
    } else {
      var init, last := ops[..|ops| - 1], ops[|ops| - 1];
      assert ops == init + [last];
      LiveIsHeldThroughout(init);
      ThroughoutSnoc(init, last);
      RunInv(EMPTY, init);
      RunSnoc(EMPTY, init, last);
      StepOfForgotten(Run(EMPTY, init), last);
      HeldForgotten(Run(EMPTY, ops));
      assert LiveThroughout(init) ==> LiveIsHeld(Run(EMPTY, init)) by { assert init[..|init|] == init; }
    }
  }

  lemma NothingHeld()
    ensures LiveIsHeld(EMPTY)
  {
  }

  lemma HeldForgotten(s: Refs)
    ensures NullForgotten(s) && Held(s, s.handles[Null]) ==> !LiveIsHeld(s)
  {
  }

  /** The shortest such run: the handle is held again after it was forgotten, and resolves to nothing. */
  lemma NullBreaksLiveness()
    ensures var s := Run(EMPTY, [NewLocal(Null), DropLocal(0x100), NewLocal(Null)]);
      Held(s, 0x100) && 0x100 !in s.objects
  {
    var a := Step(EMPTY, NewLocal(Null));
    assert a.local == map[0x100 := Null] && a.objects == map[0x100 := Null] && a.handles == map[Null := 0x100];
    var b := Step(a, DropLocal(0x100));
    assert b.local == map[] && b.objects == map[] && b.handles == map[Null := 0x100];
    var c := Step(b, NewLocal(Null));
    var ops := [NewLocal(Null), DropLocal(0x100), NewLocal(Null)];
    assert ops[1..] == [DropLocal(0x100), NewLocal(Null)] && ops[1..][1..] == [NewLocal(Null)];
    assert Run(c, []) == c;
  }
}
