/** Native methods run by redirecting the guest, and JNI local frames: what a return gives back. */
module NativeCalls {
  import opened DalvikRefs

  /** `returnsObject` is the source's test of the return type against "L" and "[". */
  datatype NativeCall = NativeCall(returnsObject: bool, returnAddress: int, stackPointer: int, localRefs: set<int>)

  /** The JNI environment with the guest registers it moves. */
  datatype Guest = Guest(refs: Refs, calls: seq<NativeCall>, frames: seq<set<int>>, pc: int, lr: int, sp: int, ret: int)

  datatype Receiver = Instance(ref: int) | Static(declaring: Obj)

  /** What marshalling does: the handles made for arguments, and the spill below the stack pointer. */
  datatype Marshalled = Marshalled(added: seq<Obj>, spill: int)

  function AddAll(s: Refs, os: seq<Obj>): Refs
    decreases |os|
  {
    if os == [] then s else AddAll(LocalAdded(s, os[0]).0, os[1..])
  }

  function Dispatched(g: Guest, returnsObject: bool, receiver: Receiver, args: Marshalled, entry: int,
                      returnSlot: int): Guest {
    var made := if receiver.Static? then LocalAdded(g.refs, receiver.declaring).0 else g.refs;
    g.(refs := AddAll(made, args.added),
       calls := g.calls + [NativeCall(returnsObject, g.lr, g.sp, g.refs.local.Keys)],
       pc := entry, lr := returnSlot, sp := g.sp - args.spill)
  }

  /** Promote the object `ref` names out of a released frame; None stays the null reference. */
  function Promoted(s: Refs, mark: set<int>, ref: int): (Refs, int) {
    var o, t := Get(s, ref), Released(s, mark);
    if o != Null then LocalAdded(t, o) else (t, 0)
  }

  function NativeReturned(g: Guest): Guest
    requires g.calls != []
  {
    var n := |g.calls| - 1;
    var call := g.calls[n];
    var (refs, ret) := if call.returnsObject then Promoted(g.refs, call.localRefs, g.ret)
                       else (Released(g.refs, call.localRefs), g.ret);
    g.(refs := refs, ret := ret, calls := g.calls[..n], sp := call.stackPointer, pc := call.returnAddress)
  }

  /** What is local after a release with promotion: the marked survivors, and the result, still the same object. */
  lemma PromotionKeepsResult(s: Refs, mark: set<int>, ref: int)
    requires Inv(s)
    ensures var (t, h) := Promoted(s, mark, ref);
      && Inv(t)
      && (Get(s, ref) == Null ==> h == 0 && t.local.Keys == s.local.Keys * mark)
      && (Get(s, ref) != Null ==> Get(t, h) == Get(s, ref) && t.local.Keys == s.local.Keys * mark + {h})
      && (ref in mark && ref in s.local && Get(s, ref) != Null ==> h == ref)
      && forall k :: k in s.local && k in mark ==> Get(t, k) == Get(s, k)
  {
    var o, t := Get(s, ref), Released(s, mark);
    ReleaseInv(s, mark);
    ReleaseKeeps(s, mark);
    assert t.local.Keys == s.local.Keys * mark;
    if o != Null {
      LocalAddedInv(t, o);
      AddedKeeps(t, o);
      assert Canonical(o) == o;
    }
  }

  lemma ReleaseKeeps(s: Refs, mark: set<int>)
    requires Inv(s)
    ensures forall k :: k in s.local && k in mark ==> Get(Released(s, mark), k) == Get(s, k)
    ensures forall k :: k in s.local && k in mark && Get(s, k) != Null ==>
              Get(s, k) in Released(s, mark).handles && Released(s, mark).handles[Get(s, k)] == k
  {
  }

  lemma AddedKeeps(s: Refs, o: Obj)
    requires Inv(s)
    ensures forall k :: k in s.objects ==> Get(LocalAdded(s, o).0, k) == Get(s, k)
    ensures forall k :: k < s.nextRef && k !in s.objects ==> Get(LocalAdded(s, o).0, k) == Null
    ensures forall k :: Held(s, k) ==> k < s.nextRef
    ensures LocalAdded(s, o).0.local.Keys == s.local.Keys + {LocalAdded(s, o).1}
  {
  }

  lemma {:induction false} AddAllInv(s: Refs, os: seq<Obj>)
    requires Inv(s)
    ensures Inv(AddAll(s, os))
    decreases |os|
  {
    hide Inv, LocalAdded;
    if os != [] {
      LocalAddedInv(s, os[0]);
      AddAllInv(LocalAdded(s, os[0]).0, os[1..]);
    }
  }

  /** Every reference of the caller still resolves as before, and stays local if it was. */
  ghost predicate Keeps(s: Refs, t: Refs) {
    && (forall k :: k in s.objects ==> k in t.objects && t.objects[k] == s.objects[k])
    && s.local.Keys <= t.local.Keys
  }

  /** Some local reference resolves to the object. */
  ghost predicate Named(t: Refs, o: Obj) { exists h :: h in t.local && Get(t, h) == Canonical(o) }

  lemma LocalAddedKeeps(s: Refs, o: Obj)
    requires Inv(s)
    ensures var t := LocalAdded(s, o).0; Inv(t) && Keeps(s, t) && (o != Null ==> Named(t, o))
  {
    LocalAddedInv(s, o);
    AddedKeeps(s, o);
  }

  lemma KeepsTwice(a: Refs, b: Refs, c: Refs, o: Obj)
    requires Keeps(a, b) && Keeps(b, c)
    ensures Keeps(a, c)
    ensures o != Null && Named(b, o) ==> Named(c, o)
  {
  }

  lemma {:induction false} AddAllKeeps(s: Refs, os: seq<Obj>)
    requires Inv(s)
    ensures Inv(AddAll(s, os)) && Keeps(s, AddAll(s, os))
    ensures forall o :: o in os && o != Null ==> Named(AddAll(s, os), o)
    decreases |os|
  {
    if os != [] {
      hide Inv, LocalAdded, Keeps, Named;
      var t := LocalAdded(s, os[0]).0;
      LocalAddedKeeps(s, os[0]);
      AddAllKeeps(t, os[1..]);
      KeepsTwice(s, t, AddAll(t, os[1..]), os[0]);
      assert forall o :: o in os ==> o == os[0] || o in os[1..];
    }
  }

  /** During the call the caller's references are intact, and the class and each object argument have a reference. */
  lemma DispatchedKeeps(g: Guest, returnsObject: bool, receiver: Receiver, args: Marshalled, entry: int,
                        returnSlot: int)
    requires Inv(g.refs)
    ensures var t := Dispatched(g, returnsObject, receiver, args, entry, returnSlot).refs;
      && Keeps(g.refs, t)
      && (receiver.Static? && receiver.declaring != Null ==> Named(t, receiver.declaring))
      && (forall o :: o in args.added && o != Null ==> Named(t, o))
  {
    hide Inv, AddAll, LocalAdded, Keeps, Named;
    var made := g.refs;
    if receiver.Static? {
      made := LocalAdded(g.refs, receiver.declaring).0;
      LocalAddedKeeps(g.refs, receiver.declaring);
      AddAllKeeps(made, args.added);
      KeepsTwice(g.refs, made, AddAll(made, args.added), receiver.declaring);
    } else {
      AddAllKeeps(made, args.added);
    }
  }

  lemma DispatchedInv(g: Guest, returnsObject: bool, receiver: Receiver, args: Marshalled, entry: int, returnSlot: int)
    requires Inv(g.refs)
    ensures Inv(Dispatched(g, returnsObject, receiver, args, entry, returnSlot).refs)
  {
    hide Inv, AddAll, LocalAdded;
    if receiver.Static? {
      LocalAddedInv(g.refs, receiver.declaring);
    }
    AddAllInv(if receiver.Static? then LocalAdded(g.refs, receiver.declaring).0 else g.refs, args.added);
  }

  class JNIEnv {
    const dvm: DalvikVM
    const returnSlot: int
    var nativeCalls: seq<NativeCall>
    var localFrames: seq<set<int>>
    var pc: int
    var lr: int
    var sp: int
    var ret: int

    ghost function Now(): Guest
      reads this, dvm
    {
      Guest(dvm.Now(), nativeCalls, localFrames, pc, lr, sp, ret)
    }

    ghost predicate Valid()
      reads this, dvm
    {
      dvm.Valid()
    }

    constructor (vm: DalvikVM, slot: int)
      requires vm.Valid()
      ensures Valid() && dvm == vm && returnSlot == slot && nativeCalls == [] && localFrames == []
    {
      dvm, returnSlot, nativeCalls, localFrames := vm, slot, [], [];
      pc, lr, sp, ret := 0, 0, 0, 0;
    }

    method Marshal(args: Marshalled)
      requires Valid()
      modifies this`sp, dvm
      ensures Valid() && dvm.Now() == AddAll(old(dvm.Now()), args.added) && sp == old(sp) - args.spill
    {
      hide Inv, LocalAdded;
      for i := 0 to |args.added|
        invariant Valid() && sp == old(sp)
        invariant AddAll(dvm.Now(), args.added[i..]) == AddAll(old(dvm.Now()), args.added)
      {
        assert args.added[i..][1..] == args.added[i + 1..];
        var _ := dvm.AddLocal(args.added[i]);
      }
      sp := sp - args.spill;
    }

    method DispatchNative(returnsObject: bool, receiver: Receiver, args: Marshalled, entry: int)
      requires Valid()
      modifies this, dvm
      ensures Valid() && Now() == Dispatched(old(Now()), returnsObject, receiver, args, entry, returnSlot)
      ensures pc == entry && lr == returnSlot && sp == old(sp) - args.spill && ret == old(ret)
      ensures localFrames == old(localFrames)
      // The mark is taken first, so the return releases exactly the references made from here on.
      ensures nativeCalls == old(nativeCalls) + [NativeCall(returnsObject, old(lr), old(sp), old(dvm.local.Keys))]
      ensures Keeps(old(dvm.Now()), dvm.Now())
      ensures receiver.Static? && receiver.declaring != Null ==> Named(dvm.Now(), receiver.declaring)
      ensures forall o :: o in args.added && o != Null ==> Named(dvm.Now(), o)
    {
      hide Inv, AddAll, LocalAdded, Keeps, Named, Get, Canonical;
      ghost var g := Now();
      ghost var made := if receiver.Static? then LocalAdded(g.refs, receiver.declaring).0 else g.refs;
      var savedLr, savedSp := lr, sp;
      var mark := dvm.LocalMark();
      if receiver.Static? {
        var _ := dvm.AddLocal(receiver.declaring);
      }
      assert dvm.Now() == made;
      Marshal(args);
      lr := returnSlot;
      nativeCalls := nativeCalls + [NativeCall(returnsObject, savedLr, savedSp, mark)];
      pc := entry;
      assert Now() == Dispatched(g, returnsObject, receiver, args, entry, returnSlot);
      hide Dispatched;
      DispatchedKeeps(g, returnsObject, receiver, args, entry, returnSlot);
    }

    /** Release a frame, keeping the object `ref` names under a live handle. */
    method Promote(mark: set<int>, ref: int) returns (h: int)
      requires Valid()
      modifies dvm
      ensures Valid() && (dvm.Now(), h) == Promoted(old(dvm.Now()), mark, ref)
    {
      hide Inv, LocalAdded, Released;
      var o := if ref in dvm.objects then dvm.objects[ref] else Null;
      dvm.LocalRelease(mark);
      if o != Null {
        h := dvm.AddLocal(o);
      } else {
        h := 0;
      }
    }

    /** The trap a redirected native returns through. */
    method NativeReturn() returns (ok: bool)
      requires Valid()
      modifies this, dvm
      ensures Valid()
      ensures ok <==> old(nativeCalls) != []
      ensures Now() == if ok then NativeReturned(old(Now())) else old(Now())
      ensures ok ==> var n := |old(nativeCalls)| - 1;
                var call := old(nativeCalls)[n];
                && pc == call.returnAddress && sp == call.stackPointer && lr == old(lr)
                && nativeCalls == old(nativeCalls)[..n] && localFrames == old(localFrames)
                && (!call.returnsObject ==> ret == old(ret) && dvm.Now() == Released(old(dvm.Now()), call.localRefs))
                && (call.returnsObject ==>
                      (dvm.Now(), ret) == Promoted(old(dvm.Now()), call.localRefs, old(ret)))
    {
      hide Inv, Promoted, Released;
      if nativeCalls == [] {
        return false;
      }
      var n := |nativeCalls| - 1;
      var call := nativeCalls[n];
      nativeCalls := nativeCalls[..n];
      if call.returnsObject {
        ret := Promote(call.localRefs, ret);
      } else {
        dvm.LocalRelease(call.localRefs);
      }
      sp := call.stackPointer;
      pc := call.returnAddress;
      return true;
    }

    method PushLocalFrame() returns (r: int)
      requires Valid()
      modifies this`localFrames
      ensures Valid() && r == 0 && Now() == old(Now()).(frames := old(localFrames) + [dvm.local.Keys])
    {
      var mark := dvm.LocalMark();
      localFrames := localFrames + [mark];
      return 0;
    }

    method PopLocalFrame(ref: int) returns (r: int)
      requires Valid()
      modifies this`localFrames, dvm
      ensures Valid()
      ensures old(localFrames) == [] ==> r == ref && Now() == old(Now())
      ensures old(localFrames) != [] ==>
                var n := |old(localFrames)| - 1;
                var (refs, h) := Promoted(old(dvm.Now()), old(localFrames)[n], ref);
                r == h && Now() == old(Now()).(refs := refs, frames := old(localFrames)[..n])
    {
      hide Inv, Promoted;
      if localFrames == [] {
        return ref;
      }
      var n := |localFrames| - 1;
      var mark := localFrames[n];
      localFrames := localFrames[..n];
      r := Promote(mark, ref);
    }
  }

  // ------------------------------------------------------------------ well-nested native calls

  /** `links` holds the return addresses that guest functions keep on their own stack. */
  datatype Machine = Machine(g: Guest, links: seq<int>)

  datatype Action =
    | RefOp(op: Op)
    | Registers(lr: int, sp: int, ret: int)
    | PushFrame
    | PopFrame(ref: int)
    | Nested(call: Invocation)

  /** A redirected native: its entry, what its body does, and the register value it returns with. */
  datatype Invocation =
    Invocation(returnsObject: bool, receiver: Receiver, args: Marshalled, entry: int, body: seq<Action>, result: int)

  datatype Event =
    | Enter(returnsObject: bool, receiver: Receiver, args: Marshalled, entry: int)
    | Act(action: Action)
    | Leave(result: int)

  function Acted(g: Guest, a: Action): Guest {
    match a
    case RefOp(op) => g.(refs := Step(g.refs, op))
    case Registers(lr, sp, ret) => g.(lr := lr, sp := sp, ret := ret)
    case PushFrame => g.(frames := g.frames + [g.refs.local.Keys])
    case PopFrame(ref) =>
      if g.frames == [] then g.(ret := ref)
      else
        var n := |g.frames| - 1;
        var (refs, h) := Promoted(g.refs, g.frames[n], ref);
        g.(refs := refs, ret := h, frames := g.frames[..n])
    case Nested(_) => g
  }

  /** Entering saves the link register on the guest stack; leaving jumps there and takes the return trap. */
  function Stepped(slot: int, m: Machine, ev: Event): (r: (bool, Machine)) {
    match ev
    case Enter(returnsObject, receiver, args, entry) =>
      var g := Dispatched(m.g, returnsObject, receiver, args, entry, slot);
      (true, Machine(g, m.links + [g.lr]))
    case Act(action) => (true, m.(g := Acted(m.g, action)))
    case Leave(result) =>
      if m.links == [] || m.links[|m.links| - 1] != slot || m.g.calls == [] then (false, m)
      else (true, Machine(NativeReturned(m.g.(ret := result, pc := slot)), m.links[..|m.links| - 1]))
  }

  function Exec(slot: int, m: Machine, evs: seq<Event>): (bool, Machine)
    decreases |evs|
  {
    if evs == [] then (true, m)
    else var (ok, next) := Stepped(slot, m, evs[0]);
         if ok then Exec(slot, next, evs[1..]) else (false, m)
  }

  lemma {:induction false} ExecConcat(slot: int, m: Machine, a: seq<Event>, b: seq<Event>)
    requires Exec(slot, m, a).0
    ensures Exec(slot, m, a + b) == Exec(slot, Exec(slot, m, a).1, b)
    decreases |a|
  {
    if a == [] {
      assert a + b == b;
    } else {
      assert (a + b)[1..] == a[1..] + b;
      ExecConcat(slot, Stepped(slot, m, a[0]).1, a[1..], b);
    }
  }

  lemma ExecOne(slot: int, m: Machine, ev: Event)
    requires Stepped(slot, m, ev).0
    ensures Exec(slot, m, [ev]) == Stepped(slot, m, ev)
  {
    assert [ev][1..] == [];
  }

  function Inner(c: Invocation): seq<Event>
    decreases c, 0
  {
    [Enter(c.returnsObject, c.receiver, c.args, c.entry)] + BodyEvents(c.body)
  }

  function Events(c: Invocation): seq<Event>
    decreases c, 1
  {
    Inner(c) + [Leave(c.result)]
  }

  function BodyEvents(actions: seq<Action>): seq<Event>
    decreases actions, 0
  {
    if actions == [] then []
    else ActionEvents(actions[0]) + BodyEvents(actions[1..])
  }

  function ActionEvents(a: Action): seq<Event>
    decreases a, 0
  {
    match a
    case Nested(call) => Events(call)
    case _ => [Act(a)]
  }

  lemma ActedInv(g: Guest, a: Action)
    requires Inv(g.refs)
    ensures Inv(Acted(g, a).refs) && Acted(g, a).calls == g.calls
  {
    hide Inv, Step, Promoted;
    match a {
      case RefOp(op) => StepInv(g.refs, op);
      case PopFrame(ref) =>
        if g.frames != [] {
          PromotionKeepsResult(g.refs, g.frames[|g.frames| - 1], ref);
        }
      case _ =>
    }
  }

  lemma {:induction false} BodyRuns(slot: int, m: Machine, actions: seq<Action>)
    requires Inv(m.g.refs)
    ensures var (ok, r) := Exec(slot, m, BodyEvents(actions));
      ok && Inv(r.g.refs) && r.g.calls == m.g.calls && r.links == m.links
    decreases actions, 0
  {
    hide Inv, Acted, Stepped;
    if actions != [] {
      var first := ActionEvents(actions[0]);
      ActionRuns(slot, m, actions[0]);
      var mid := Exec(slot, m, first).1;
      BodyRuns(slot, mid, actions[1..]);
      ExecConcat(slot, m, first, BodyEvents(actions[1..]));
    }
  }

  lemma {:induction false} ActionRuns(slot: int, m: Machine, a: Action)
    requires Inv(m.g.refs)
    ensures var (ok, r) := Exec(slot, m, ActionEvents(a));
      ok && Inv(r.g.refs) && r.g.calls == m.g.calls && r.links == m.links
    decreases a, 0
  {
    hide Inv, Acted, Stepped;
    match a {
      case Nested(call) => InvocationReturns(slot, m, call);
      case _ => OneAction(slot, m, a);
    }
  }

  lemma OneAction(slot: int, m: Machine, a: Action)
    requires Inv(m.g.refs)
    ensures Exec(slot, m, [Act(a)]) == (true, m.(g := Acted(m.g, a)))
    ensures Inv(Acted(m.g, a).refs) && Acted(m.g, a).calls == m.g.calls
  {
    hide Inv, Acted;
    ExecOne(slot, m, Act(a));
    ActedInv(m.g, a);
  }

  /** The state in which a native is about to return. */
  function AtReturn(slot: int, m: Machine, c: Invocation): Machine {
    Exec(slot, m, Inner(c)).1
  }

  /**
   * Every well-nested native call comes back to the link register and stack pointer of its dispatch. Of the
   * locals made since, only the promoted result is left, and it names the object the native returned.
   */
  lemma {:induction false} InvocationReturns(slot: int, m: Machine, c: Invocation)
    requires Inv(m.g.refs)
    ensures var (ok, r) := Exec(slot, m, Events(c));
      && ok && Inv(r.g.refs)
      && r.g.pc == m.g.lr && r.g.sp == m.g.sp && r.g.calls == m.g.calls && r.links == m.links
      && var end := AtReturn(slot, m, c).g.refs;
         var o := Get(end, c.result);
      && (c.returnsObject && o != Null ==>
            Get(r.g.refs, r.g.ret) == o && r.g.refs.local.Keys == end.local.Keys * m.g.refs.local.Keys + {r.g.ret})
      && (c.returnsObject && o == Null ==> r.g.ret == 0)
      && (!c.returnsObject ==> r.g.ret == c.result)
      && (!(c.returnsObject && o != Null) ==> r.g.refs.local.Keys == end.local.Keys * m.g.refs.local.Keys)
    decreases c, 1
  {
    hide Inv, Acted, Promoted, Released, AddAll, LocalAdded;
    var start := Enter(c.returnsObject, c.receiver, c.args, c.entry);
    DispatchedInv(m.g, c.returnsObject, c.receiver, c.args, c.entry, slot);
    ExecOne(slot, m, start);
    var inside := Stepped(slot, m, start).1;
    BodyRuns(slot, inside, c.body);
    ExecConcat(slot, m, [start], BodyEvents(c.body));
    var end := AtReturn(slot, m, c);
    assert end.links[..|m.links|] == m.links && end.g.calls[..|m.g.calls|] == m.g.calls;
    ExecOne(slot, end, Leave(c.result));
    ExecConcat(slot, m, Inner(c), [Leave(c.result)]);
    PromotionKeepsResult(end.g.refs, m.g.refs.local.Keys, c.result);
    ReleaseInv(end.g.refs, m.g.refs.local.Keys);
    ReleasedLocals(end.g.refs, m.g.refs.local.Keys);
  }

  lemma ReleasedLocals(s: Refs, mark: set<int>)
    ensures Released(s, mark).local.Keys == s.local.Keys * mark
  {
  }
}
