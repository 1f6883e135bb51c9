/** Runs of guest calls through hooked import slots, recursion and chained return hooks included. */
module HookCalls {
  import opened Common
  import opened Trap
  import opened Hooks

  /** What stays fixed while no hook is installed or removed. */
  datatype Env = Env(chains: Chains, got: map<int, int>, handlers: map<int, Handler>)

  ghost predicate EnvOk(e: Env) {
    && AllBound(e.chains, e.handlers)
    && forall slot :: slot in e.chains ==>
         slot in e.got && e.got[slot] == e.chains[slot].hooks[|e.chains[slot].hooks| - 1].trampoline
  }

  /** The observable order of a call: hooks entered, originals run, return hooks run. */
  datatype Note = Visited(id: int) | RanOriginal(slot: int) | PostCall(id: int)

  /** `frames` holds the return addresses that guest functions keep on their own stack. */
  datatype Machine = Machine(cpu: Cpu, frames: seq<int>, log: seq<Note>)

  /** One step: a guest call through an import slot, a trap, or an original's prologue and epilogue. */
  datatype Event =
    | Jump(slot: int, lr: int)
    | Trapped(decision: Decision)
    | Prologue(slot: int)
    | Epilogue(scratch: int)

  predicate IndexedAt(hooks: seq<GotHook>, id: int, k: int) { 0 <= k < |hooks| && hooks[k].id == id }

  /** The position of a hook in its chain; -1 when it is not there. */
  function Position(hooks: seq<GotHook>, id: int): (k: int)
    ensures -1 <= k < |hooks|
    ensures k >= 0 ==> IndexedAt(hooks, id, k)
    ensures k < 0 ==> !HasId(hooks, id)
  {
    if hooks == [] then -1
    else if hooks[|hooks| - 1].id == id then |hooks| - 1
    else Position(hooks[..|hooks| - 1], id)
  }

  /** The function behind a slot; without hooks, what the slot itself holds. */
  function OriginalOf(e: Env, slot: int): int
    requires slot in e.got
  {
    if slot in e.chains then e.chains[slot].original else e.got[slot]
  }

  /** The step of one event; None when the machine is not in a state where it can happen. */
  function Step(e: Env, m: Machine, ev: Event): Option<Machine> {
    match ev
    case Jump(slot, lr) =>
      if slot in e.got then Some(m.(cpu := m.cpu.(pc := e.got[slot], lr := lr))) else None
    case Trapped(decision) =>
      if m.cpu.pc !in e.handlers then None else
      (match e.handlers[m.cpu.pc]
       case OnCall(slot, id) => TrapOnCall(e, m, slot, id, decision)
       case AfterCall(_, id) => TrapAfterCall(m, id)
       case Foreign(_) => None)
    case Prologue(slot) =>
      if slot in e.got && m.cpu.pc == OriginalOf(e, slot)
      then Some(m.(frames := m.frames + [m.cpu.lr], log := m.log + [RanOriginal(slot)])) else None
    case Epilogue(scratch) =>
      if m.frames == [] then None
      else var n := |m.frames| - 1;
           Some(m.(cpu := m.cpu.(pc := m.frames[n], lr := scratch), frames := m.frames[..n]))
  }

  /** A hook that skips the original leaves its trampoline's return instruction to run. */
  function TrapOnCall(e: Env, m: Machine, slot: int, id: int, decision: Decision): Option<Machine> {
    var k := Position(HooksAt(e.chains, slot), id);
    if k < 0 || decision == Invalid || id !in m.cpu.saved then None
    else
      var cpu := if decision == CallOriginal then Called(e.chains[slot], k, m.cpu) else m.cpu.(pc := m.cpu.lr);
      Some(m.(cpu := cpu, log := m.log + [Visited(id)]))
  }

  function TrapAfterCall(m: Machine, id: int): Option<Machine> {
    if id !in m.cpu.saved || m.cpu.saved[id] == [] then None
    else
      var cpu := Returned(id, m.cpu);
      Some(m.(cpu := cpu.(pc := cpu.lr), log := m.log + [PostCall(id)]))
  }

  function Exec(e: Env, m: Machine, evs: seq<Event>): Option<Machine>
    decreases |evs|
  {
    if evs == [] then Some(m)
    else match Step(e, m, evs[0]) case None => None case Some(next) => Exec(e, next, evs[1..])
  }

  lemma {:induction false} ExecConcat(e: Env, m: Machine, a: seq<Event>, b: seq<Event>)
    ensures Exec(e, m, a + b) == match Exec(e, m, a) case None => None case Some(mid) => Exec(e, mid, b)
    decreases |a|
  {
    if a == [] {
      assert a + b == b;
    } else {
      assert (a + b)[1..] == a[1..] + b;
      match Step(e, m, a[0]) {
        case None =>
        case Some(next) => ExecConcat(e, next, a[1..], b);
      }
    }
  }

  lemma ExecOne(e: Env, m: Machine, ev: Event)
    ensures Exec(e, m, [ev]) == Step(e, m, ev)
  {
    match Step(e, m, ev) {
      case None =>
      case Some(next) => assert Exec(e, next, []) == Some(next);
    }
  }

  // ------------------------------------------------------------------ well-nested calls

  /** A call through `slot` returning to `lr`; hooks in `skips` refuse the original; `body` is what it calls. */
  datatype Call = Call(slot: int, lr: int, skips: set<int>, scratch: int, body: seq<Call>)

  /** Every call of the tree goes through an import slot, hooked or not. */
  ghost predicate Imported(e: Env, c: Call)
    decreases c
  {
    c.slot in e.got && forall k :: 0 <= k < |c.body| ==> Imported(e, c.body[k])
  }

  function Events(e: Env, c: Call): seq<Event>
    decreases c, 1, 0
  {
    [Jump(c.slot, c.lr)] + ChainEvents(e, c, |HooksAt(e.chains, c.slot)| - 1)
  }

  /** What happens from the moment control reaches hook `k`, or the original when `k` is -1. */
  function ChainEvents(e: Env, c: Call, k: int): seq<Event>
    requires -1 <= k < |HooksAt(e.chains, c.slot)|
    decreases c, 0, k + 1
  {
    if k < 0 then [Prologue(c.slot)] + BodyEvents(e, c.body) + [Epilogue(c.scratch)]
    else
      var h := HooksAt(e.chains, c.slot)[k];
      if h.id in c.skips then [Trapped(SkipOriginal)]
      else [Trapped(CallOriginal)] + ChainEvents(e, c, k - 1) + (if h.after != 0 then [Trapped(CallOriginal)] else [])
  }

  function BodyEvents(e: Env, cs: seq<Call>): seq<Event>
    decreases cs, 0, 0
  {
    if cs == [] then [] else Events(e, cs[0]) + BodyEvents(e, cs[1..])
  }

  function Notes(e: Env, c: Call): seq<Note>
    decreases c, 1, 0
  {
    ChainNotes(e, c, |HooksAt(e.chains, c.slot)| - 1)
  }

  function ChainNotes(e: Env, c: Call, k: int): seq<Note>
    requires -1 <= k < |HooksAt(e.chains, c.slot)|
    decreases c, 0, k + 1
  {
    if k < 0 then [RanOriginal(c.slot)] + BodyNotes(e, c.body)
    else
      var h := HooksAt(e.chains, c.slot)[k];
      if h.id in c.skips then [Visited(h.id)]
      else [Visited(h.id)] + ChainNotes(e, c, k - 1) + (if h.after != 0 then [PostCall(h.id)] else [])
  }

  function BodyNotes(e: Env, cs: seq<Call>): seq<Note>
    decreases cs, 0, 0
  {
    if cs == [] then [] else Notes(e, cs[0]) + BodyNotes(e, cs[1..])
  }

  ghost predicate AllSaved(e: Env, saved: map<int, seq<int>>) {
    forall slot, k :: slot in e.chains && 0 <= k < |e.chains[slot].hooks| ==> e.chains[slot].hooks[k].id in saved
  }

  /** The outcome of a well-nested run: back at `lr`, every stack as before, the notes added. */
  ghost predicate Back(m: Machine, r: Option<Machine>, lr: int, notes: seq<Note>) {
    r.Some? && r.value.cpu.pc == lr && r.value.cpu.saved == m.cpu.saved && r.value.frames == m.frames
    && r.value.log == m.log + notes
  }

  lemma PositionOf(slot: int, hooks: seq<GotHook>, handlers: map<int, Handler>, k: int)
    requires ChainBound(slot, hooks, handlers) && 0 <= k < |hooks|
    ensures Position(hooks, hooks[k].id) == k
  {
    var p := Position(hooks, hooks[k].id);
    assert HasId(hooks, hooks[k].id);
    assert IndexedAt(hooks, hooks[k].id, p);
  }

  /** The two steps of a hook with a return side cancel: what the call side saved comes back. */
  lemma SavedRoundTrip(saved: map<int, seq<int>>, id: int, lr: int)
    requires id in saved
    ensures var pushed := saved[id := saved[id] + [lr]];
      var stack := pushed[id];
      stack != [] && stack[|stack| - 1] == lr && pushed[id := stack[..|stack| - 1]] == saved
  {
    var pushed := saved[id := saved[id] + [lr]];
    assert pushed[id][..|pushed[id]| - 1] == saved[id];
  }

  /** Where control stands when hook `k` is about to be entered. */
  function EntryOf(e: Env, slot: int, k: int): int
    requires slot in e.got && -1 <= k < |HooksAt(e.chains, slot)|
  {
    if k < 0 then OriginalOf(e, slot) else HooksAt(e.chains, slot)[k].trampoline
  }

  /** The call side of hook `k`: control moves to the next entry, and the link register may be diverted. */
  lemma CallSide(e: Env, m: Machine, slot: int, k: int)
    requires EnvOk(e) && slot in e.chains && 0 <= k < |e.chains[slot].hooks| && AllSaved(e, m.cpu.saved)
    requires slot in e.got && m.cpu.pc == EntryOf(e, slot, k)
    ensures e.chains[slot].hooks[k].id in m.cpu.saved
    ensures var h := e.chains[slot].hooks[k];
      && Step(e, m, Trapped(CallOriginal))
         == Some(m.(cpu := Called(e.chains[slot], k, m.cpu), log := m.log + [Visited(h.id)]))
      && Step(e, m, Trapped(SkipOriginal)) == Some(m.(cpu := m.cpu.(pc := m.cpu.lr), log := m.log + [Visited(h.id)]))
      && Called(e.chains[slot], k, m.cpu).pc == EntryOf(e, slot, k - 1)
      && AllSaved(e, Called(e.chains[slot], k, m.cpu).saved)
  {
    var hooks := e.chains[slot].hooks;
    assert ChainBound(slot, hooks, e.handlers) && Bound(slot, hooks[k], e.handlers);
    PositionOf(slot, hooks, e.handlers, k);
  }

  /** The return side of hook `k` undoes what its call side did to the link register and the stacks. */
  lemma ReturnSide(e: Env, m: Machine, back: Machine, slot: int, k: int)
    requires EnvOk(e) && slot in e.chains && 0 <= k < |e.chains[slot].hooks| && AllSaved(e, m.cpu.saved)
    requires var h := e.chains[slot].hooks[k];
      h.after != 0 && back.cpu.pc == h.after && back.cpu.saved == m.cpu.saved[h.id := m.cpu.saved[h.id] + [m.cpu.lr]]
    ensures var h := e.chains[slot].hooks[k];
      Step(e, back, Trapped(CallOriginal))
      == Some(Machine(Cpu(m.cpu.lr, m.cpu.lr, m.cpu.saved), back.frames, back.log + [PostCall(h.id)]))
  {
    var hooks := e.chains[slot].hooks;
    assert ChainBound(slot, hooks, e.handlers) && Bound(slot, hooks[k], e.handlers);
    SavedRoundTrip(m.cpu.saved, hooks[k].id, m.cpu.lr);
  }

  /**
   * From any entry of the chain, a well-nested call comes back to the link register it was entered with,
   * with every hook's return-address stack and every guest frame as it was.
   */
  lemma {:induction false} ChainReturns(e: Env, m: Machine, c: Call, k: int)
    requires EnvOk(e) && Imported(e, c) && AllSaved(e, m.cpu.saved)
    requires -1 <= k < |HooksAt(e.chains, c.slot)| && m.cpu.pc == EntryOf(e, c.slot, k)
    ensures Back(m, Exec(e, m, ChainEvents(e, c, k)), m.cpu.lr, ChainNotes(e, c, k))
    decreases c, 0, k + 1
  {
    hide EnvOk, AllSaved, Step, EntryOf;
    if k < 0 {
      OriginalReturns(e, m, c);
    } else if HooksAt(e.chains, c.slot)[k].id in c.skips {
      CallSide(e, m, c.slot, k);
      ExecOne(e, m, Trapped(SkipOriginal));
    } else {
      CallSide(e, m, c.slot, k);
      ChainReturns(e, Through(e, m, c.slot, k), c, k - 1);
      HookReturns(e, m, c, k);
    }
  }

  /** The machine once hook `k` has let the call through. */
  function Through(e: Env, m: Machine, slot: int, k: int): Machine
    requires 0 <= k < |HooksAt(e.chains, slot)| && HooksAt(e.chains, slot)[k].id in m.cpu.saved
  {
    m.(cpu := Called(e.chains[slot], k, m.cpu), log := m.log + [Visited(HooksAt(e.chains, slot)[k].id)])
  }

  /** Around a well-nested run of the older hooks, the two sides of hook `k` cancel. */
  lemma HookReturns(e: Env, m: Machine, c: Call, k: int)
    requires EnvOk(e) && c.slot in e.got && AllSaved(e, m.cpu.saved)
    requires 0 <= k < |HooksAt(e.chains, c.slot)| && m.cpu.pc == EntryOf(e, c.slot, k)
    requires HooksAt(e.chains, c.slot)[k].id !in c.skips && HooksAt(e.chains, c.slot)[k].id in m.cpu.saved
    requires var mid := Through(e, m, c.slot, k);
      Back(mid, Exec(e, mid, ChainEvents(e, c, k - 1)), mid.cpu.lr, ChainNotes(e, c, k - 1))
    ensures Back(m, Exec(e, m, ChainEvents(e, c, k)), m.cpu.lr, ChainNotes(e, c, k))
  {
    hide EnvOk, AllSaved, Step, EntryOf, TrapOnCall, TrapAfterCall;
    var h := HooksAt(e.chains, c.slot)[k];
    var mid := Through(e, m, c.slot, k);
    var first, inner := [Trapped(CallOriginal)], ChainEvents(e, c, k - 1);
    var last := if h.after != 0 then [Trapped(CallOriginal)] else [];
    CallSide(e, m, c.slot, k);
    ExecOne(e, m, Trapped(CallOriginal));
    ExecConcat(e, m, first, inner);
    ExecConcat(e, m, first + inner, last);
    var back := Exec(e, mid, inner).value;
    assert Exec(e, back, []) == Some(back);
    hide Exec;
    if h.after != 0 {
      ReturnSide(e, m, back, c.slot, k);
      ExecOne(e, back, Trapped(CallOriginal));
    }
  }

  lemma {:induction false} OriginalReturns(e: Env, m: Machine, c: Call)
    requires EnvOk(e) && Imported(e, c) && AllSaved(e, m.cpu.saved)
    requires m.cpu.pc == EntryOf(e, c.slot, -1)
    ensures Back(m, Exec(e, m, ChainEvents(e, c, -1)), m.cpu.lr, ChainNotes(e, c, -1))
    decreases c, 0, 0, 0
  {
    hide EnvOk, AllSaved;
    var start, body, end := [Prologue(c.slot)], BodyEvents(e, c.body), [Epilogue(c.scratch)];
    var mid := m.(frames := m.frames + [m.cpu.lr], log := m.log + [RanOriginal(c.slot)]);
    ExecOne(e, m, Prologue(c.slot));
    BodyReturns(e, mid, c.body);
    ExecConcat(e, m, start, body);
    ExecConcat(e, m, start + body, end);
    var back := Exec(e, mid, body).value;
    ExecOne(e, back, Epilogue(c.scratch));
    assert mid.frames[..|m.frames|] == m.frames;
  }

  lemma {:induction false} BodyReturns(e: Env, m: Machine, cs: seq<Call>)
    requires EnvOk(e) && AllSaved(e, m.cpu.saved) && forall k :: 0 <= k < |cs| ==> Imported(e, cs[k])
    ensures var r := Exec(e, m, BodyEvents(e, cs));
      && r.Some? && r.value.cpu.saved == m.cpu.saved && r.value.frames == m.frames
      && r.value.log == m.log + BodyNotes(e, cs)
    decreases cs, 0, 0
  {
    hide EnvOk, AllSaved;
    if cs != [] {
      CallReturns(e, m, cs[0]);
      var mid := Exec(e, m, Events(e, cs[0])).value;
      BodyReturns(e, mid, cs[1..]);
      ExecConcat(e, m, Events(e, cs[0]), BodyEvents(e, cs[1..]));
    }
  }

  /** Every well-nested call tree runs to the end, and each of its calls returns to its own caller. */
  lemma {:induction false} CallReturns(e: Env, m: Machine, c: Call)
    requires EnvOk(e) && Imported(e, c) && AllSaved(e, m.cpu.saved)
    ensures Back(m, Exec(e, m, Events(e, c)), c.lr, Notes(e, c))
    decreases c, 1, 0
  {
    hide AllSaved;
    var n := |HooksAt(e.chains, c.slot)| - 1;
    var mid := m.(cpu := m.cpu.(pc := e.got[c.slot], lr := c.lr));
    ExecOne(e, m, Jump(c.slot, c.lr));
    assert mid.cpu.pc == EntryOf(e, c.slot, n);
    ChainReturns(e, mid, c, n);
    ExecConcat(e, m, [Jump(c.slot, c.lr)], ChainEvents(e, c, n));
  }

  // ------------------------------------------------------------------ the order of hooks

  /** The newest hook, from `k` down, that skips the original; -1 when none does. */
  function SkipAt(hooks: seq<GotHook>, skips: set<int>, k: int): (s: int)
    requires -1 <= k < |hooks|
    ensures -1 <= s <= k
    ensures s >= 0 ==> hooks[s].id in skips
    ensures forall j :: s < j <= k ==> hooks[j].id !in skips
    decreases k + 1
  {
    if k < 0 then -1 else if hooks[k].id in skips then k else SkipAt(hooks, skips, k - 1)
  }

  /** Hooks `hi` down to `lo`, entered newest first. */
  function Visits(hooks: seq<GotHook>, hi: int, lo: int): seq<Note>
    requires 0 <= lo && hi < |hooks|
    decreases hi + 1
  {
    if hi < lo then [] else [Visited(hooks[hi].id)] + Visits(hooks, hi - 1, lo)
  }

  /** The return hooks among `lo` up to `hi`, oldest first. */
  function Posts(hooks: seq<GotHook>, lo: int, hi: int): seq<Note>
    requires 0 <= lo && hi < |hooks|
    decreases hi + 1
  {
    if hi < lo then []
    else Posts(hooks, lo, hi - 1) + (if hooks[hi].after != 0 then [PostCall(hooks[hi].id)] else [])
  }

  /**
   * A call enters its hooks newest first, down to the one that skips or through all of them to the original,
   * and then runs the return hooks newer than that point, oldest first.
   */
  lemma {:induction false} CallOrder(e: Env, c: Call, k: int)
    requires -1 <= k < |HooksAt(e.chains, c.slot)|
    ensures var hooks := HooksAt(e.chains, c.slot);
      var s := SkipAt(hooks, c.skips, k);
      ChainNotes(e, c, k) ==
        Visits(hooks, k, Max(s, 0))
        + (if s < 0 then [RanOriginal(c.slot)] + BodyNotes(e, c.body) else [])
        + Posts(hooks, s + 1, k)
    decreases k + 1
  {
    hide BodyNotes;
    var hooks := HooksAt(e.chains, c.slot);
    var s := SkipAt(hooks, c.skips, k);
    if k >= 0 && k != s {
      CallOrder(e, c, k - 1);
      var middle := if s < 0 then [RanOriginal(c.slot)] + BodyNotes(e, c.body) else [];
      var post := if hooks[k].after != 0 then [PostCall(hooks[k].id)] else [];
      var visits, posts := Visits(hooks, k - 1, Max(s, 0)), Posts(hooks, s + 1, k - 1);
      Regroup([Visited(hooks[k].id)], visits, middle, posts, post);
    } else if k >= 0 {
      assert Visits(hooks, k - 1, k) == [] && Posts(hooks, k + 1, k) == [];
    }
  }

  lemma Regroup(a: seq<Note>, b: seq<Note>, c: seq<Note>, d: seq<Note>, e: seq<Note>)
    ensures a + (b + c + d) + e == (a + b) + c + (d + e)
  {
  }

  lemma {:induction false} VisitsAre(hooks: seq<GotHook>, hi: int, lo: int)
    requires 0 <= lo <= hi + 1 && hi < |hooks|
    ensures |Visits(hooks, hi, lo)| == hi - lo + 1
    ensures forall i :: 0 <= i <= hi - lo ==> Visits(hooks, hi, lo)[i] == Visited(hooks[hi - i].id)
    decreases hi + 1
  {
    if lo <= hi {
      VisitsAre(hooks, hi - 1, lo);
    }
  }

  lemma {:induction false} PostsAre(hooks: seq<GotHook>, lo: int, hi: int)
    requires 0 <= lo && hi < |hooks|
    ensures forall n :: n in Posts(hooks, lo, hi) <==> exists j :: IsPost(hooks, lo, hi, j, n)
    decreases hi + 1
  {
    if lo <= hi {
      PostsAre(hooks, lo, hi - 1);
      forall n | n in Posts(hooks, lo, hi) ensures exists j :: IsPost(hooks, lo, hi, j, n) {
        if n in Posts(hooks, lo, hi - 1) {
          var j :| IsPost(hooks, lo, hi - 1, j, n);
          assert IsPost(hooks, lo, hi, j, n);
        } else {
          assert IsPost(hooks, lo, hi, hi, n);
        }
      }
      forall n, j | IsPost(hooks, lo, hi, j, n) ensures n in Posts(hooks, lo, hi) {
        if j < hi {
          assert IsPost(hooks, lo, hi - 1, j, n);
        }
      }
    }
  }

  predicate IsPost(hooks: seq<GotHook>, lo: int, hi: int, j: int, n: Note) {
    0 <= lo <= j <= hi < |hooks| && hooks[j].after != 0 && n == PostCall(hooks[j].id)
  }

  /** With nobody skipping, a leaf call enters each remaining hook once, newest first, then the original. */
  lemma LeafCall(e: Env, c: Call)
    requires c.body == [] && SkipAt(HooksAt(e.chains, c.slot), c.skips, |HooksAt(e.chains, c.slot)| - 1) == -1
    ensures var hooks := HooksAt(e.chains, c.slot);
      var n := |hooks|;
      && (forall i :: 0 <= i < n ==> |Notes(e, c)| > i && Notes(e, c)[i] == Visited(hooks[n - 1 - i].id))
      && |Notes(e, c)| > n && Notes(e, c)[n] == RanOriginal(c.slot)
      && Notes(e, c)[n + 1..] == Posts(hooks, 0, n - 1)
  {
    var hooks := HooksAt(e.chains, c.slot);
    CallOrder(e, c, |hooks| - 1);
    VisitsAre(hooks, |hooks| - 1, 0);
    var notes := Visits(hooks, |hooks| - 1, 0) + ([RanOriginal(c.slot)] + []) + Posts(hooks, 0, |hooks| - 1);
    assert Notes(e, c) == notes;
  }

  /** Hook `j` has a return side, and every hook from it to the newest lets the call through. */
  predicate PostsAfterSkip(hooks: seq<GotHook>, skips: set<int>, j: int) {
    0 <= j < |hooks| && hooks[j].after != 0 && SkipAt(hooks, skips, |hooks| - 1) < j
  }

  /** When some hook skips, nothing of the original runs, and exactly the newer return hooks do. */
  lemma NotesOfSkipped(e: Env, c: Call)
    requires SkipAt(HooksAt(e.chains, c.slot), c.skips, |HooksAt(e.chains, c.slot)| - 1) >= 0
    ensures RanOriginal(c.slot) !in Notes(e, c)
    ensures forall id :: PostCall(id) in Notes(e, c) <==>
              exists j :: PostsAfterSkip(HooksAt(e.chains, c.slot), c.skips, j)
                          && HooksAt(e.chains, c.slot)[j].id == id
  {
    hide BodyNotes;
    var hooks := HooksAt(e.chains, c.slot);
    var n := |hooks| - 1;
    var s := SkipAt(hooks, c.skips, n);
    CallOrder(e, c, n);
    VisitsAre(hooks, n, s);
    PostsAre(hooks, s + 1, n);
    hide SkipAt, Visits, Posts, ChainNotes;
    forall id
      ensures PostCall(id) in Posts(hooks, s + 1, n) <==>
              exists j :: PostsAfterSkip(hooks, c.skips, j) && hooks[j].id == id
    {
      if PostCall(id) in Posts(hooks, s + 1, n) {
        var j :| IsPost(hooks, s + 1, n, j, PostCall(id));
        assert PostsAfterSkip(hooks, c.skips, j);
      }
      forall j | PostsAfterSkip(hooks, c.skips, j) && hooks[j].id == id
        ensures PostCall(id) in Posts(hooks, s + 1, n)
      {
        assert IsPost(hooks, s + 1, n, j, PostCall(id));
      }
    }
    assert Notes(e, c) == Visits(hooks, n, s) + [] + Posts(hooks, s + 1, n);
  }

  /**
   * A return callback runs although the original did not, exactly when some hook skips and a newer one has a
   * return side.
   */
  lemma SkippedCallStillPosts(e: Env, c: Call)
    ensures var hooks := HooksAt(e.chains, c.slot);
      (RanOriginal(c.slot) !in Notes(e, c) && exists id :: PostCall(id) in Notes(e, c))
      <==> SkipAt(hooks, c.skips, |hooks| - 1) >= 0 && exists j :: PostsAfterSkip(hooks, c.skips, j)
  {
    hide BodyNotes;
    var hooks := HooksAt(e.chains, c.slot);
    if SkipAt(hooks, c.skips, |hooks| - 1) >= 0 {
      NotesOfSkipped(e, c);
      hide SkipAt, ChainNotes;
      forall j | PostsAfterSkip(hooks, c.skips, j)
        ensures PostCall(hooks[j].id) in Notes(e, c)
      {
      }
    } else {
      CallOrder(e, c, |hooks| - 1);
      assert RanOriginal(c.slot) in [RanOriginal(c.slot)] + BodyNotes(e, c.body);
    }
  }

  /** Between installations and removals the manager's own state is such an environment. */
  lemma ManagerIsEnv(manager: HookManager)
    requires manager.Valid()
    ensures EnvOk(Env(manager.gotHooks, manager.got, manager.trap.handlers))
    ensures AllSaved(Env(manager.gotHooks, manager.got, manager.trap.handlers), manager.saved)
  {
    forall slot, k | slot in manager.gotHooks && 0 <= k < |manager.gotHooks[slot].hooks|
      ensures manager.gotHooks[slot].hooks[k].id in manager.saved
    {
      assert HasId(HooksAt(manager.gotHooks, slot), manager.gotHooks[slot].hooks[k].id);
    }
  }

  lemma FreshTrapHasSlots(handlers: map<int, Handler>, one: int, free: int)
    requires handlers.Keys <= {one}
    ensures !AllTaken(handlers, free)
  {
    AddressFacts();
    hide Address;
    assert Address(1) != Address(2) && Address(2) != Address(3) && Address(1) != Address(3);
  }

  /** A fresh manager with two hooks on one slot, the newer with a return callback. */
  method TwoHooks(slot: int, word: int) returns (manager: HookManager, older: GotHook, newer: GotHook)
    ensures manager.Valid() && slot in manager.got && HooksAt(manager.gotHooks, slot) == [older, newer]
    ensures older.id == 0 && newer.id == 1 && newer.after != 0
  {
    hide AllBound, Identified, Words, AllTaken;
    var trap := new SvcTrap<Handler>(Arm64);
    manager := new HookManager(trap, map[slot := word]);
    forall free
      ensures !AllTaken(trap.handlers, free)
    {
      FreshTrapHasSlots(trap.handlers, 0, free);
    }
    var first := manager.Install(slot, false);
    older := first.value;
    forall free
      ensures !AllTaken(trap.handlers, free)
    {
      FreshTrapHasSlots(trap.handlers, older.trampoline, free);
    }
    var second := manager.Install(slot, true);
    newer := second.value;
  }

  /**
   * Of two hooks on one slot, the older skips the original and the newer has a return callback. The call comes back
   * to its caller, the original never ran, and the callback did.
   */
  method SkippedCallRun(slot: int, word: int, lr: int) returns (manager: HookManager, ghost c: Call)
    ensures manager.Valid() && c.slot == slot && c.lr == lr
    ensures var e := Env(manager.gotHooks, manager.got, manager.trap.handlers);
      var m := Machine(manager.Now(), [], []);
      && Notes(e, c) == [Visited(1), Visited(0), PostCall(1)]
      && Back(m, Exec(e, m, Events(e, c)), lr, [Visited(1), Visited(0), PostCall(1)])
  {
    hide AllBound, Identified, Words, EnvOk, AllSaved;
    var older, newer;
    manager, older, newer := TwoHooks(slot, word);
    c := Call(slot, lr, {older.id}, 0, []);
    ghost var e := Env(manager.gotHooks, manager.got, manager.trap.handlers);
    ManagerIsEnv(manager);
    TwoHookNotes(e, c, older, newer);
    CallReturns(e, Machine(manager.Now(), [], []), c);
  }

  lemma TwoHookNotes(e: Env, c: Call, older: GotHook, newer: GotHook)
    requires HooksAt(e.chains, c.slot) == [older, newer] && c.skips == {older.id} && newer.id != older.id
    requires newer.after != 0
    ensures Notes(e, c) == [Visited(newer.id), Visited(older.id), PostCall(newer.id)]
  {
    assert ChainNotes(e, c, 0) == [Visited(older.id)];
    assert ChainNotes(e, c, 1) == [Visited(newer.id)] + ChainNotes(e, c, 0) + [PostCall(newer.id)];
  }
}
