/** Chains of hooks on import slots: each hook jumps to the next older one, the oldest to the original. */
module Hooks {
  import opened Common
  import opened Trap

  /** What a trampoline runs: a hook's call side, its return side, or some other subsystem's handler. */
  datatype Handler = OnCall(slot: int, id: int) | AfterCall(slot: int, id: int) | Foreign(n: int)

  /** `id` stands for the identity of the source's object; its list searches compare the two addresses. */
  datatype GotHook = GotHook(id: int, trampoline: int, after: int)

  datatype Chain = Chain(original: int, hooks: seq<GotHook>)

  type Chains = map<int, Chain>

  datatype Decision = CallOriginal | SkipOriginal | Invalid

  predicate SameValue(a: GotHook, b: GotHook) { a.trampoline == b.trampoline && a.after == b.after }

  ghost predicate Bound(slot: int, h: GotHook, handlers: map<int, Handler>) {
    && h.trampoline > 0 && h.trampoline in handlers && handlers[h.trampoline] == OnCall(slot, h.id)
    && (h.after != 0 ==> h.after in handlers && handlers[h.after] == AfterCall(slot, h.id))
  }

  /** Every hook's trampolines are live and run that hook; no identity occurs twice. */
  ghost predicate ChainBound(slot: int, hooks: seq<GotHook>, handlers: map<int, Handler>) {
    && (forall k :: 0 <= k < |hooks| ==> Bound(slot, hooks[k], handlers))
    && (forall i, j :: 0 <= i < j < |hooks| ==> hooks[i].id != hooks[j].id)
  }

  ghost predicate AllBound(chains: Chains, handlers: map<int, Handler>) {
    forall slot :: slot in chains ==> chains[slot].hooks != [] && ChainBound(slot, chains[slot].hooks, handlers)
  }

  ghost predicate HasId(hooks: seq<GotHook>, id: int) { exists k :: 0 <= k < |hooks| && hooks[k].id == id }

  function HooksAt(chains: Chains, slot: int): seq<GotHook> {
    if slot in chains then chains[slot].hooks else []
  }

  /** Identities are below the next one, belong to one chain, and have a return-address stack. */
  ghost predicate Identified(chains: Chains, nextId: int, saved: map<int, seq<int>>) {
    && (forall slot, id {:trigger HasId(HooksAt(chains, slot), id)} :: HasId(HooksAt(chains, slot), id) ==>
              0 <= id < nextId && id in saved)
    && (forall s, t, id :: HasId(HooksAt(chains, s), id) && HasId(HooksAt(chains, t), id) ==> s == t)
  }

  /** A hooked word is the newest trampoline; any other word is as it was before all hooking. */
  ghost predicate Words(chains: Chains, got: map<int, int>, pristine: map<int, int>) {
    && got.Keys == pristine.Keys
    && (forall slot :: slot in chains ==>
          && slot in got && chains[slot].hooks != []
          && chains[slot].original == pristine[slot]
          && got[slot] == chains[slot].hooks[|chains[slot].hooks| - 1].trampoline)
    && (forall slot :: slot in got && slot !in chains ==> got[slot] == pristine[slot])
  }

  /** Where control goes after hook `k` lets the call through. */
  function Target(c: Chain, k: int): int
    requires 0 <= k < |c.hooks|
  {
    if k == 0 then c.original else c.hooks[k - 1].trampoline
  }

  /** Value equality identifies hooks, because live trampolines are distinct and each runs its own hook. */
  lemma ValueIsIdentity(slot: int, hooks: seq<GotHook>, handlers: map<int, Handler>, i: int, j: int)
    requires ChainBound(slot, hooks, handlers) && 0 <= i < |hooks| && 0 <= j < |hooks|
    ensures SameValue(hooks[i], hooks[j]) <==> i == j
  {
    if SameValue(hooks[i], hooks[j]) {
      assert Bound(slot, hooks[i], handlers) && Bound(slot, hooks[j], handlers);
      assert hooks[i].id == hooks[j].id;
    }
  }

  /** Python's list.index, by value. */
  method IndexOf(hooks: seq<GotHook>, h: GotHook) returns (k: int)
    requires exists j :: 0 <= j < |hooks| && SameValue(hooks[j], h)
    ensures 0 <= k < |hooks| && SameValue(hooks[k], h)
    ensures forall j :: 0 <= j < k ==> !SameValue(hooks[j], h)
  {
    k := 0;
    while !SameValue(hooks[k], h)
      invariant 0 <= k < |hooks|
      invariant forall j :: 0 <= j < k ==> !SameValue(hooks[j], h)
      decreases |hooks| - k
    {
      k := k + 1;
    }
  }

  function Without(hooks: seq<GotHook>, k: int): seq<GotHook>
    requires 0 <= k < |hooks|
  {
    hooks[..k] + hooks[k + 1..]
  }

  lemma ChainBoundWithout(slot: int, hooks: seq<GotHook>, k: int, handlers: map<int, Handler>, after: map<int, Handler>)
    requires ChainBound(slot, hooks, handlers) && 0 <= k < |hooks|
    requires forall a :: a in handlers && a != hooks[k].trampoline && a != hooks[k].after ==>
               a in after && after[a] == handlers[a]
    ensures ChainBound(slot, Without(hooks, k), after)
  {
    var rest := Without(hooks, k);
    forall i | 0 <= i < |rest| ensures Bound(slot, rest[i], after) {
      var j := if i < k then i else i + 1;
      assert rest[i] == hooks[j] && Bound(slot, hooks[j], handlers) && Bound(slot, hooks[k], handlers);
      assert hooks[j].id != hooks[k].id;
    }
  }

  lemma OtherChainBound(slot: int, hooks: seq<GotHook>, h: GotHook, mine: int, handlers: map<int, Handler>,
                        after: map<int, Handler>)
    requires ChainBound(slot, hooks, handlers) && Bound(mine, h, handlers) && slot != mine
    requires forall a :: a in handlers && a != h.trampoline && a != h.after ==> a in after && after[a] == handlers[a]
    ensures ChainBound(slot, hooks, after)
  {
    forall i | 0 <= i < |hooks| ensures Bound(slot, hooks[i], after) {
      assert Bound(slot, hooks[i], handlers);
    }
  }

  lemma ChainBoundGrows(slot: int, hooks: seq<GotHook>, handlers: map<int, Handler>, after: map<int, Handler>)
    requires ChainBound(slot, hooks, handlers)
    requires forall a :: a in handlers ==> a in after && after[a] == handlers[a]
    ensures ChainBound(slot, hooks, after)
  {
    forall i | 0 <= i < |hooks| ensures Bound(slot, hooks[i], after) {
      assert Bound(slot, hooks[i], handlers);
    }
  }

  lemma ChainBoundSnoc(slot: int, hooks: seq<GotHook>, h: GotHook, handlers: map<int, Handler>)
    requires ChainBound(slot, hooks, handlers) && Bound(slot, h, handlers) && !HasId(hooks, h.id)
    ensures ChainBound(slot, hooks + [h], handlers)
  {
  }

  lemma AllBoundGrows(chains: Chains, handlers: map<int, Handler>, after: map<int, Handler>)
    requires AllBound(chains, handlers)
    requires forall a :: a in handlers ==> a in after && after[a] == handlers[a]
    ensures AllBound(chains, after)
  {
    forall slot | slot in chains ensures ChainBound(slot, chains[slot].hooks, after) {
      ChainBoundGrows(slot, chains[slot].hooks, handlers, after);
    }
  }

  lemma AllBoundInstall(chains: Chains, handlers: map<int, Handler>, slot: int, original: int, h: GotHook)
    requires AllBound(chains, handlers) && Bound(slot, h, handlers) && !HasId(HooksAt(chains, slot), h.id)
    ensures AllBound(chains[slot := Chain(original, HooksAt(chains, slot) + [h])], handlers)
  {
    hide Bound, HasId;
    ChainBoundSnoc(slot, HooksAt(chains, slot), h, handlers);
  }

  lemma HasIdSnoc(hooks: seq<GotHook>, h: GotHook, id: int)
    ensures HasId(hooks + [h], id) <==> id == h.id || HasId(hooks, id)
  {
    var all := hooks + [h];
    assert all[|hooks|] == h;
    if HasId(hooks, id) {
      var k :| 0 <= k < |hooks| && hooks[k].id == id;
      assert all[k].id == id;
    }
  }

  lemma IdentifiedInstall(chains: Chains, nextId: int, saved: map<int, seq<int>>, slot: int, original: int, h: GotHook)
    requires Identified(chains, nextId, saved) && h.id == nextId >= 0
    ensures !HasId(HooksAt(chains, slot), h.id)
    ensures Identified(chains[slot := Chain(original, HooksAt(chains, slot) + [h])], nextId + 1, saved[nextId := []])
  {
    hide HasId;
    var before := HooksAt(chains, slot);
    var after := chains[slot := Chain(original, before + [h])];
    forall s, id
      ensures HasId(HooksAt(after, s), id) <==> (id == nextId && s == slot) || HasId(HooksAt(chains, s), id)
    {
      HasIdSnoc(before, h, id);
      assert HooksAt(after, s) == if s == slot then before + [h] else HooksAt(chains, s);
    }
  }

  lemma HasIdNone(id: int)
    ensures !HasId([], id)
  {
  }

  lemma WordsInstall(chains: Chains, got: map<int, int>, pristine: map<int, int>, slot: int, h: GotHook)
    requires Words(chains, got, pristine) && slot in got
    ensures var original := if slot in chains then chains[slot].original else got[slot];
      && original == pristine[slot]
      && Words(chains[slot := Chain(original, HooksAt(chains, slot) + [h])], got[slot := h.trampoline], pristine)
  {
  }

  lemma AllBoundRemove(chains: Chains, handlers: map<int, Handler>, after: map<int, Handler>, slot: int, k: int)
    requires AllBound(chains, handlers) && slot in chains && 0 <= k < |chains[slot].hooks|
    requires var h := chains[slot].hooks[k];
      forall a :: a in handlers && a != h.trampoline && a != h.after ==> a in after && after[a] == handlers[a]
    ensures AllBound(Removed(chains, slot, k), after)
  {
    hide Bound;
    var h := chains[slot].hooks[k];
    assert Bound(slot, h, handlers);
    ChainBoundWithout(slot, chains[slot].hooks, k, handlers, after);
    forall s | s in chains && s != slot ensures ChainBound(s, chains[s].hooks, after) {
      OtherChainBound(s, chains[s].hooks, h, slot, handlers, after);
    }
  }

  /** The chains once hook `k` of a slot is gone; the last hook takes the chain with it. */
  function Removed(chains: Chains, slot: int, k: int): Chains
    requires slot in chains && 0 <= k < |chains[slot].hooks|
  {
    var c := chains[slot];
    if |c.hooks| == 1 then chains - {slot} else chains[slot := Chain(c.original, Without(c.hooks, k))]
  }

  lemma ChainIsPristine(chains: Chains, got: map<int, int>, pristine: map<int, int>, slot: int)
    requires Words(chains, got, pristine) && slot in chains
    ensures slot in got && slot in pristine && chains[slot].original == pristine[slot] && chains[slot].hooks != []
  {
  }

  /** The one or two addresses a hook occupies. */
  function Trampolines(h: GotHook): set<int> { if h.after != 0 then {h.trampoline, h.after} else {h.trampoline} }

  /** The word of a slot under a given chain of hooks. */
  function WordOf(original: int, hooks: seq<GotHook>): int {
    if hooks == [] then original else hooks[|hooks| - 1].trampoline
  }

  lemma HasIdWithout(hooks: seq<GotHook>, k: int, id: int)
    requires 0 <= k < |hooks|
    ensures HasId(Without(hooks, k), id) ==> HasId(hooks, id)
  {
    if HasId(Without(hooks, k), id) {
      var j :| 0 <= j < |Without(hooks, k)| && Without(hooks, k)[j].id == id;
      assert hooks[if j < k then j else j + 1].id == id;
    }
  }

  lemma IdentifiedRemove(chains: Chains, nextId: int, saved: map<int, seq<int>>, slot: int, k: int)
    requires Identified(chains, nextId, saved) && slot in chains && 0 <= k < |chains[slot].hooks|
    ensures Identified(Removed(chains, slot, k), nextId, saved)
  {
    hide HasId;
    var after := Removed(chains, slot, k);
    forall s, id | HasId(HooksAt(after, s), id) ensures HasId(HooksAt(chains, s), id) {
      HasIdWithout(chains[slot].hooks, k, id);
      HasIdNone(id);
    }
  }

  lemma WordsRemove(chains: Chains, got: map<int, int>, pristine: map<int, int>, slot: int, k: int)
    requires Words(chains, got, pristine) && slot in chains && 0 <= k < |chains[slot].hooks|
    ensures var word := WordOf(chains[slot].original, Without(chains[slot].hooks, k));
            Words(Removed(chains, slot, k), got[slot := word], pristine)
  {
  }

  /** What the manager keeps when hook `k` of a slot goes, and its trampolines with it. */
  lemma RemovingKeeps(chains: Chains, handlers: map<int, Handler>, nextId: int, saved: map<int, seq<int>>,
                      got: map<int, int>, pristine: map<int, int>, slot: int, k: int)
    requires AllBound(chains, handlers) && Identified(chains, nextId, saved) && Words(chains, got, pristine)
    requires slot in chains && 0 <= k < |chains[slot].hooks|
    ensures var c, h, hooks := chains[slot], chains[slot].hooks[k], Without(chains[slot].hooks, k);
      && ChainBound(slot, c.hooks, handlers) && Trampolines(h) <= handlers.Keys
      && slot in pristine && c.original == pristine[slot] && HooksAt(Removed(chains, slot, k), slot) == hooks
      && Removed(chains, slot, k) == (if hooks == [] then chains - {slot} else chains[slot := Chain(c.original, hooks)])
      && AllBound(Removed(chains, slot, k), handlers - Trampolines(h))
      && Identified(Removed(chains, slot, k), nextId, saved)
      && Words(Removed(chains, slot, k), got[slot := WordOf(c.original, hooks)], pristine)
  {
    hide Identified, HasId, Without, Removed;
    var h := chains[slot].hooks[k];
    assert Bound(slot, h, handlers);
    ChainIsPristine(chains, got, pristine, slot);
    AllBoundRemove(chains, handlers, handlers - Trampolines(h), slot, k);
    IdentifiedRemove(chains, nextId, saved, slot, k);
    WordsRemove(chains, got, pristine, slot, k);
    RemovedChains(chains, slot, k);
  }

  // ------------------------------------------------------------------ what a call does to the processor

  /** Program counter, link register and each hook's stack of saved return addresses. */
  datatype Cpu = Cpu(pc: int, lr: int, saved: map<int, seq<int>>)

  /** Hook `k` lets the call through, after putting its return side in the link register. */
  function Called(c: Chain, k: int, cpu: Cpu): Cpu
    requires 0 <= k < |c.hooks| && c.hooks[k].id in cpu.saved
  {
    var h := c.hooks[k];
    if h.after != 0 then Cpu(Target(c, k), h.after, cpu.saved[h.id := cpu.saved[h.id] + [cpu.lr]])
    else cpu.(pc := Target(c, k))
  }

  /** The return side gives back the link register its call side saved last. */
  function Returned(id: int, cpu: Cpu): Cpu
    requires id in cpu.saved && cpu.saved[id] != []
  {
    var stack := cpu.saved[id];
    cpu.(lr := stack[|stack| - 1], saved := cpu.saved[id := stack[..|stack| - 1]])
  }

  /** The trap's handlers once a hook's sides have been bound; all others as before. */
  function WithHook(handlers: map<int, Handler>, slot: int, h: GotHook): map<int, Handler> {
    (if h.after != 0 then handlers[h.after := AfterCall(slot, h.id)] else handlers)[h.trampoline := OnCall(slot, h.id)]
  }

  /** Every trampoline address but possibly `free` has a handler. */
  ghost predicate AllTaken(handlers: map<int, Handler>, free: int) {
    forall imm :: 1 <= imm <= MAX_SLOTS ==> Address(imm) in handlers || Address(imm) == free
  }

  class HookManager {
    const trap: SvcTrap<Handler>
    var gotHooks: Chains
    var got: map<int, int>
    var saved: map<int, seq<int>>
    var lr: int
    var pc: int
    var nextId: int
    /** The import words as they were before any hook. */
    ghost var pristine: map<int, int>

    ghost predicate Valid()
      reads this, trap
    {
      && trap.Valid()
      && AllBound(gotHooks, trap.handlers)
      && Identified(gotHooks, nextId, saved)
      && Words(gotHooks, got, pristine)
      && nextId >= 0
    }

    constructor (slots: SvcTrap<Handler>, words: map<int, int>)
      requires slots.Valid()
      ensures Valid() && trap == slots && gotHooks == map[] && got == words && pristine == words && nextId == 0
    {
      trap, gotHooks, got, saved, lr, pc, nextId, pristine := slots, map[], words, map[], 0, 0, 0, words;
    }

    method Install(slot: int, post: bool) returns (r: Option<GotHook>)
      requires Valid() && slot in got
      modifies this`gotHooks, this`got, this`saved, this`nextId, trap
      ensures Valid()
      ensures r == None ==>
                && gotHooks == old(gotHooks) && got == old(got) && saved == old(saved)
                && trap.handlers == old(trap.handlers)
      // It fails only for want of trampolines: with a return side, when at most one slot is free.
      ensures r == None ==> exists free :: AllTaken(old(trap.handlers), free) && (!post ==> free in old(trap.handlers))
      ensures r.Some? ==>
                var h := r.value;
                && h.id == old(nextId) && nextId == h.id + 1 && (h.after != 0 <==> post)
                && h.trampoline !in old(trap.handlers) && (post ==> h.after !in old(trap.handlers))
                && gotHooks == old(gotHooks)[slot := Chain(pristine[slot], HooksAt(old(gotHooks), slot) + [h])]
                && got == old(got)[slot := h.trampoline]
                && saved == old(saved)[h.id := []]
                && trap.handlers == WithHook(old(trap.handlers), slot, h)
    {
      hide AllBound, Identified, Words, HasId, FreeListed, Meant, AllWritten;
      ghost var handlers := trap.handlers;
      var chain := if slot in gotHooks then gotHooks[slot] else Chain(got[slot], []);
      var after := 0;
      if post {
        var a := trap.AllocSlot(AfterCall(slot, nextId));
        if a == None {
          assert AllTaken(handlers, Address(1));
          return None;
        }
        after := a.value;
      }
      var t := trap.AllocSlot(OnCall(slot, nextId));
      if t == None {
        assert AllTaken(handlers, if post then after else Address(1));
        if after != 0 {
          var _ := trap.FreeSlot(after);
        }
        assert trap.handlers == handlers;
        return None;
      }
      var installed := GotHook(nextId, t.value, after);
      AllBoundGrows(gotHooks, handlers, trap.handlers);
      IdentifiedInstall(gotHooks, nextId, saved, slot, chain.original, installed);
      AllBoundInstall(gotHooks, trap.handlers, slot, chain.original, installed);
      WordsInstall(gotHooks, got, pristine, slot, installed);
      got := got[slot := t.value];
      gotHooks := gotHooks[slot := Chain(chain.original, chain.hooks + [installed])];
      saved := saved[nextId := []];
      r := Some(installed);
      nextId := nextId + 1;
    }

    method Remove(slot: int, h: GotHook, ghost k: int)
      requires Valid() && slot in gotHooks && 0 <= k < |gotHooks[slot].hooks| && gotHooks[slot].hooks[k] == h
      modifies this`gotHooks, this`got, trap
      ensures Valid()
      // The chain loses hook `k` and keeps the others in order; a chain that loses its last hook goes.
      ensures var was, left := old(gotHooks[slot].hooks), if slot in gotHooks then gotHooks[slot].hooks else [];
        && |left| == |was| - 1
        && (forall j :: 0 <= j < k ==> left[j] == was[j]) && (forall j :: k <= j < |left| ==> left[j] == was[j + 1])
        && gotHooks == (if left == [] then old(gotHooks) - {slot}
                        else old(gotHooks)[slot := Chain(pristine[slot], left)])
        // Control reaches the newest hook left, or what the slot held before all hooking.
        && got == old(got)[slot := if left == [] then pristine[slot] else left[|left| - 1].trampoline]
      ensures trap.handlers ==
        old(trap.handlers) - (if h.after != 0 then {h.trampoline, h.after} else {h.trampoline})
    {
      hide Identified, HasId, Without, AllBound, Words, HooksAt, FreeListed, Meant, AllWritten;
      RemovingKeeps(gotHooks, trap.handlers, nextId, saved, got, pristine, slot, k);
      WithoutAt(gotHooks[slot].hooks, k);
      var chain := gotHooks[slot];
      var at := IndexOf(chain.hooks, h);
      ValueIsIdentity(slot, chain.hooks, trap.handlers, at, k);
      hide ChainBound, Bound, SameValue;
      var hooks := Without(chain.hooks, at);
      got := got[slot := WordOf(chain.original, hooks)];
      FreeTrampolines(h);
      if hooks == [] {
        gotHooks := gotHooks - {slot};
      } else {
        gotHooks := gotHooks[slot := Chain(chain.original, hooks)];
      }
    }

    method FreeTrampolines(h: GotHook)
      requires trap.Valid() && Trampolines(h) <= trap.handlers.Keys
      modifies trap
      ensures trap.Valid() && trap.handlers == old(trap.handlers) - Trampolines(h)
    {
      assert h.trampoline in trap.handlers && (h.after != 0 ==> h.after in trap.handlers);
      var freed := trap.FreeSlot(h.trampoline);
      if h.after != 0 {
        freed := trap.FreeSlot(h.after);
      }
    }

    ghost function Now(): Cpu
      reads this
    {
      Cpu(pc, lr, saved)
    }

    /** `on_handler`: the hook's own decision, then the jump to the next older hook or the original. */
    method OnHandler(slot: int, h: GotHook, decision: Decision, ghost k: int) returns (ok: bool)
      requires Valid() && slot in gotHooks && 0 <= k < |gotHooks[slot].hooks| && gotHooks[slot].hooks[k] == h
      modifies this`pc, this`lr, this`saved
      ensures Valid()
      ensures ok <==> decision != Invalid
      ensures HasSaved(gotHooks[slot], k, old(saved))
      ensures Now() == if decision == CallOriginal then Called(gotHooks[slot], k, old(Now())) else old(Now())
      ensures decision == CallOriginal ==>
                && pc == (if k == 0 then gotHooks[slot].original else gotHooks[slot].hooks[k - 1].trampoline)
                && lr == (if h.after == 0 then old(lr) else h.after)
                && saved == (if h.after == 0 then old(saved) else old(saved)[h.id := old(saved)[h.id] + [old(lr)]])
    {
      hide Words, AllBound;
      var chain := gotHooks[slot];
      assert ChainBound(slot, chain.hooks, trap.handlers) by { ChainIsBound(gotHooks, trap.handlers, slot); }
      assert HasId(HooksAt(gotHooks, slot), h.id);
      if decision == CallOriginal {
        if h.after != 0 {
          saved := saved[h.id := saved[h.id] + [lr]];
          lr := h.after;
        }
        var at := IndexOf(chain.hooks, h);
        ValueIsIdentity(slot, chain.hooks, trap.handlers, at, k);
        pc := if at != 0 then chain.hooks[at - 1].trampoline else chain.original;
      }
      ok := decision != Invalid;
    }

    /** `after_handler`: restores the link register even when the callback raises. */
    method AfterHandler(h: GotHook) returns (ok: bool)
      requires Valid() && h.id in saved
      modifies this`lr, this`saved
      ensures Valid()
      ensures ok <==> old(saved)[h.id] != []
      ensures Now() == if ok then Returned(h.id, old(Now())) else old(Now())
      // The inverse of the call side: what it saved last comes back, and no other hook's stack changes.
      ensures forall stack, value {:trigger stack + [value]} :: old(saved)[h.id] == stack + [value] ==>
                ok && lr == value && pc == old(pc) && saved == old(saved)[h.id := stack]
    {
      hide Words, AllBound;
      if saved[h.id] == [] {
        return false;
      }
      var stack := saved[h.id];
      saved := saved[h.id := stack[..|stack| - 1]];
      lr := stack[|stack| - 1];
      return true;
    }
  }

  ghost predicate HasSaved(c: Chain, k: int, saved: map<int, seq<int>>) {
    0 <= k < |c.hooks| && c.hooks[k].id in saved
  }

  lemma ChainIsBound(chains: Chains, handlers: map<int, Handler>, slot: int)
    requires AllBound(chains, handlers) && slot in chains
    ensures ChainBound(slot, chains[slot].hooks, handlers)
  {
  }

  /** What goes when hook `k` goes: that hook, and no other; the rest stay in order. */
  lemma WithoutAt(hooks: seq<GotHook>, k: int)
    requires 0 <= k < |hooks|
    ensures var rest := Without(hooks, k);
      && |rest| == |hooks| - 1
      && (forall j :: 0 <= j < k ==> rest[j] == hooks[j]) && (forall j :: k <= j < |rest| ==> rest[j] == hooks[j + 1])
  {
  }

  lemma RemovedChains(chains: Chains, slot: int, k: int)
    requires slot in chains && 0 <= k < |chains[slot].hooks|
    ensures var hooks := Without(chains[slot].hooks, k);
      && Removed(chains, slot, k)
         == (if hooks == [] then chains - {slot} else chains[slot := Chain(chains[slot].original, hooks)])
      && HooksAt(Removed(chains, slot, k), slot) == hooks
  {
  }
}
