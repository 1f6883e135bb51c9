/** The link_map list a debugger walks: rebuilt as one run of nodes, linked both ways. */
module LinkMap {
  import opened Bytes
  import opened Common

  const CAPACITY := 512

  /** Load bias, name pointer and dynamic section of one loaded image. */
  datatype Node = Node(addr: int, name: int, ld: int)

  predicate Packable(n: Node, ptr: nat) {
    0 <= n.addr < Capacity(ptr) && 0 <= n.name < Capacity(ptr) && 0 <= n.ld < Capacity(ptr)
  }

  function Address(pool: int, ptr: nat, i: nat): int { pool + Offset(i, 5 * ptr) }

  /** The five words of node `i`: its fields, then the next and the previous node, 0 at the ends. */
  function NodeWords(nodes: seq<Node>, pool: int, ptr: nat, i: nat): (r: seq<int>)
    requires i < |nodes|
    ensures |r| == 5
  {
    [nodes[i].addr, nodes[i].name, nodes[i].ld,
     if i + 1 < |nodes| then Address(pool, ptr, i + 1) else 0, if i > 0 then Address(pool, ptr, i - 1) else 0]
  }

  function NodeBytes(nodes: seq<Node>, pool: int, ptr: nat, i: nat): (r: seq<Byte>)
    requires i < |nodes|
    ensures |r| == 5 * ptr
  {
    RowsLength(WordRows(NodeWords(nodes, pool, ptr, i), ptr), ptr, 5);
    Rows(WordRows(NodeWords(nodes, pool, ptr, i), ptr), 5)
  }

  /** Every node is in its place; `m` starts at address `pool`. */
  ghost predicate Listed(m: seq<Byte>, nodes: seq<Node>, pool: int, ptr: nat) {
    forall i :: 0 <= i < |nodes| ==> Holds(m, Offset(i, 5 * ptr), NodeBytes(nodes, pool, ptr, i))
  }

  /** The list in order: the main program, the modules that fit, the synthetic libraries, the linker. */
  function NodesOf(main: Node, modules: seq<Node>, images: seq<Node>, linker: Node): (r: seq<Node>)
    requires |images| + 2 <= CAPACITY
    ensures 2 <= |r| <= CAPACITY && r[0] == main && r[|r| - 1] == linker
    ensures forall n :: n in images ==> n in r
  {
    var room := CAPACITY - 2 - |images|;
    [main] + (if |modules| > room then modules[..room] else modules) + images + [linker]
  }

  /** The indices, in order, of loaded modules with an image: all of them, or the first `room`. */
  ghost predicate Chosen(loaded: seq<Node>, picks: seq<nat>, room: nat) {
    && |picks| <= room
    && (forall k :: 0 <= k < |picks| ==> picks[k] < |loaded| && loaded[picks[k]].addr != 0)
    && (forall j, k :: 0 <= j < k < |picks| ==> picks[j] < picks[k])
    && (forall i :: 0 <= i < |loaded| && loaded[i].addr != 0 ==>
          i in picks || (|picks| == room && forall k :: 0 <= k < |picks| ==> picks[k] < i))
  }

  /** The modules that have an image, among the first `n` loaded. */
  function Placed(loaded: seq<Node>, n: nat): seq<Node>
    requires n <= |loaded|
  {
    if n == 0 then [] else Placed(loaded, n - 1) + (if loaded[n - 1].addr != 0 then [loaded[n - 1]] else [])
  }

  ghost predicate Picked(loaded: seq<Node>, n: nat, picks: seq<nat>, nodes: seq<Node>) {
    && |picks| == |nodes| && n <= |loaded|
    && (forall k :: 0 <= k < |picks| ==> picks[k] < n && loaded[picks[k]].addr != 0 && nodes[k] == loaded[picks[k]])
    && (forall j, k :: 0 <= j < k < |picks| ==> picks[j] < picks[k])
    && (forall i :: 0 <= i < n && loaded[i].addr != 0 ==> i in picks)
  }

  lemma PickedStep(loaded: seq<Node>, n: nat, picks: seq<nat>, nodes: seq<Node>)
    requires n < |loaded| && Picked(loaded, n, picks, nodes)
    ensures loaded[n].addr == 0 ==> Picked(loaded, n + 1, picks, nodes)
    ensures loaded[n].addr != 0 ==> Picked(loaded, n + 1, picks + [n], nodes + [loaded[n]])
  {
    var more := picks + [n];
    assert more[|picks|] == n && forall i :: i in picks ==> i in more;
  }

  lemma {:induction false} PlacedArePicked(loaded: seq<Node>, n: nat) returns (picks: seq<nat>)
    requires n <= |loaded|
    ensures Picked(loaded, n, picks, Placed(loaded, n))
  {
    if n == 0 {
      picks := [];
    } else {
      hide Picked;
      picks := PlacedArePicked(loaded, n - 1);
      PickedStep(loaded, n - 1, picks, Placed(loaded, n - 1));
      if loaded[n - 1].addr != 0 {
        picks := picks + [n - 1];
      }
    }
  }

  /** The first picks that fit are chosen. */
  lemma FirstChosen(loaded: seq<Node>, picks: seq<nat>, nodes: seq<Node>, room: nat)
    requires Picked(loaded, |loaded|, picks, nodes)
    ensures |picks| <= room ==> Chosen(loaded, picks, room)
    ensures |picks| > room ==> Chosen(loaded, picks[..room], room)
  {
    if |picks| > room {
      var some := picks[..room];
      forall i | 0 <= i < |loaded| && loaded[i].addr != 0
        ensures i in some || forall k :: 0 <= k < room ==> some[k] < i
      {
        var j :| 0 <= j < |picks| && picks[j] == i;
        if j < room {
          assert some[j] == i;
        }
      }
    }
  }

  /** The chosen modules are what the picks name. */
  ghost predicate Match(loaded: seq<Node>, picks: seq<nat>, nodes: seq<Node>) {
    |picks| == |nodes| && forall k :: 0 <= k < |picks| ==> picks[k] < |loaded| && nodes[k] == loaded[picks[k]]
  }

  lemma FirstMatch(loaded: seq<Node>, picks: seq<nat>, nodes: seq<Node>, room: nat)
    requires Picked(loaded, |loaded|, picks, nodes)
    ensures Match(loaded, picks, nodes) && (|picks| > room ==> Match(loaded, picks[..room], nodes[..room]))
  {
  }

  /** The main program, the loaded modules named by `picks`, the synthetic libraries, the linker. */
  ghost predicate InOrder(nodes: seq<Node>, main: Node, loaded: seq<Node>, picks: seq<nat>, images: seq<Node>,
                          linker: Node)
  {
    var n := |picks|;
    && |nodes| == n + |images| + 2 && nodes[0] == main && nodes[n + |images| + 1] == linker
    && (forall k :: 0 <= k < n ==> picks[k] < |loaded| && nodes[1 + k] == loaded[picks[k]])
    && (forall k :: 0 <= k < |images| ==> nodes[1 + n + k] == images[k])
  }

  lemma FourParts(main: Node, loaded: seq<Node>, picks: seq<nat>, modules: seq<Node>, images: seq<Node>, linker: Node)
    requires Match(loaded, picks, modules)
    ensures InOrder([main] + modules + images + [linker], main, loaded, picks, images, linker)
  {
  }

  /**
   * The list starts with the main program and ends with the synthetic libraries and the linker. Between them are the
   * loaded modules that have an image, in load order; when they do not all fit, as many of the first as do.
   */
  lemma NodesAre(main: Node, loaded: seq<Node>, images: seq<Node>, linker: Node) returns (picks: seq<nat>)
    requires |images| + 2 <= CAPACITY
    ensures Chosen(loaded, picks, CAPACITY - 2 - |images|)
    ensures InOrder(NodesOf(main, Placed(loaded, |loaded|), images, linker), main, loaded, picks, images, linker)
  {
    var room, placed := CAPACITY - 2 - |images|, Placed(loaded, |loaded|);
    picks := PlacedArePicked(loaded, |loaded|);
    FirstChosen(loaded, picks, placed, room);
    FirstMatch(loaded, picks, placed, room);
    assert |picks| == |placed|;
    hide Placed, Chosen, Match, Picked, InOrder;
    if |picks| > room {
      picks := picks[..room];
    }
    FourParts(main, loaded, picks, if |placed| > room then placed[..room] else placed, images, linker);
  }

  method Rebuild(memory: seq<Byte>, pool: int, ptr: nat, main: Node, loaded: seq<Node>, images: seq<Node>, linker: Node)
    returns (m: seq<Byte>, count: nat, ghost picks: seq<nat>)
    requires |images| + 2 <= CAPACITY && |memory| >= Offset(CAPACITY, 5 * ptr)
    ensures |m| == |memory|
    ensures var nodes := NodesOf(main, Placed(loaded, |loaded|), images, linker);
            Listed(m, nodes, pool, ptr) && count == |nodes| && SameFrom(memory, m, Offset(count, 5 * ptr))
    ensures Chosen(loaded, picks, CAPACITY - 2 - |images|) && count == |picks| + |images| + 2
    ensures InOrder(NodesOf(main, Placed(loaded, |loaded|), images, linker), main, loaded, picks, images, linker)
  {
    picks := NodesAre(main, loaded, images, linker);
    hide Holds, Write, Offset, SameFrom, NodeBytes;
    var modules: seq<Node> := [];
    for i := 0 to |loaded|
      invariant modules == Placed(loaded, i)
    {
      if loaded[i].addr != 0 {
        modules := modules + [loaded[i]];
      }
    }
    hide Placed, NodesOf, Chosen;
    var nodes := NodesOf(main, modules, images, linker);
    count := |nodes|;
    m := memory;
    OffsetGrows(count, CAPACITY, 5 * ptr);
    SameFromSelf(m, Offset(count, 5 * ptr));
    for i := 0 to count
      invariant |m| == |memory| && SameFrom(memory, m, Offset(count, 5 * ptr))
      invariant forall j :: 0 <= j < i ==> Holds(m, Offset(j, 5 * ptr), NodeBytes(nodes, pool, ptr, j))
    {
      AddNode(memory, m, nodes, pool, ptr, i);
      m := Write(m, Offset(i, 5 * ptr), NodeBytes(nodes, pool, ptr, i));
    }
  }

  /** Writing node `i` keeps the nodes before it. */
  lemma AddNode(start: seq<Byte>, m: seq<Byte>, nodes: seq<Node>, pool: int, ptr: nat, i: nat)
    requires i < |nodes| && SameFrom(start, m, Offset(|nodes|, 5 * ptr))
    requires forall j :: 0 <= j < i ==> Holds(m, Offset(j, 5 * ptr), NodeBytes(nodes, pool, ptr, j))
    ensures Fits(m, Offset(i, 5 * ptr), 5 * ptr)
    ensures var w := Write(m, Offset(i, 5 * ptr), NodeBytes(nodes, pool, ptr, i));
      && SameFrom(start, w, Offset(|nodes|, 5 * ptr))
      && forall j :: 0 <= j < i + 1 ==> Holds(w, Offset(j, 5 * ptr), NodeBytes(nodes, pool, ptr, j))
  {
    hide Holds, Write, Offset, NodeBytes;
    var at, row := Offset(i, 5 * ptr), NodeBytes(nodes, pool, ptr, i);
    OffsetGrows(i + 1, |nodes|, 5 * ptr);
    OffsetStep(i, 5 * ptr);
    Blit(m, at, row);
    SameFromWrite(start, m, at, row, Offset(|nodes|, 5 * ptr));
    forall j | 0 <= j < i
      ensures Holds(Write(m, at, row), Offset(j, 5 * ptr), NodeBytes(nodes, pool, ptr, j))
    {
      OffsetStep(j, 5 * ptr);
      OffsetGrows(j + 1, i, 5 * ptr);
    }
  }

  lemma {:induction false} OffsetGrows(k: nat, n: nat, size: nat)
    requires k <= n
    ensures Offset(k, size) <= Offset(n, size)
  {
    if k < n {
      OffsetGrows(k, n - 1, size);
      OffsetStep(n - 1, size);
    }
  }

  // ------------------------------------------------------------------ walking the list

  /** The first three words of the node at offset `o`. */
  function NodeRead(m: seq<Byte>, o: int, ptr: nat): Node {
    Node(Word(m, o + Offset(0, ptr), ptr), Word(m, o + Offset(1, ptr), ptr), Word(m, o + Offset(2, ptr), ptr))
  }

  /** At most `left` nodes, following the link in word `link` of each node until a null address. */
  function Walk(m: seq<Byte>, pool: int, ptr: nat, link: nat, at: int, left: nat): seq<Node>
    decreases left
  {
    if at == 0 || left == 0 then []
    else
      var o := at - pool;
      [NodeRead(m, o, ptr)] + Walk(m, pool, ptr, link, Word(m, o + Offset(link, ptr), ptr), left - 1)
  }

  ghost predicate Walkable(m: seq<Byte>, nodes: seq<Node>, pool: int, ptr: nat) {
    && Listed(m, nodes, pool, ptr) && |nodes| <= CAPACITY && (forall n :: n in nodes ==> Packable(n, ptr))
    && ptr > 0 && 0 < pool && Address(pool, ptr, CAPACITY) <= Capacity(ptr)
  }

  lemma WordsFit(nodes: seq<Node>, pool: int, ptr: nat, i: nat)
    requires i < |nodes| <= CAPACITY && Packable(nodes[i], ptr)
    requires ptr > 0 && 0 < pool && Address(pool, ptr, CAPACITY) <= Capacity(ptr)
    ensures forall w :: w in NodeWords(nodes, pool, ptr, i) ==> 0 <= w < Capacity(ptr)
  {
    hide Address, Capacity;
    InPool(pool, ptr, i + 1);
    InPool(pool, ptr, if i > 0 then i - 1 else 0);
  }

  lemma NodeWord(m: seq<Byte>, nodes: seq<Node>, pool: int, ptr: nat, i: nat, k: nat)
    requires Walkable(m, nodes, pool, ptr) && i < |nodes| && k < 5
    ensures Word(m, Offset(i, 5 * ptr) + Offset(k, ptr), ptr) == NodeWords(nodes, pool, ptr, i)[k]
  {
    hide Word, Offset, Holds, Capacity, WordRows, Rows, NodeWords;
    assert Holds(m, Offset(i, 5 * ptr), NodeBytes(nodes, pool, ptr, i));
    var ws := NodeWords(nodes, pool, ptr, i);
    WordsFit(nodes, pool, ptr, i);
    WordAt(m, Offset(i, 5 * ptr), ws, ptr, k);
    assert ws[k] in ws;
    SmallMod(ws[k], Capacity(ptr));
  }

  lemma FirstOffsets(size: nat)
    ensures Offset(0, size) == 0 && Offset(1, size) == size && Offset(2, size) == 2 * size
  {
  }

  /** What a debugger reads at node `i`. */
  lemma NodeReads(m: seq<Byte>, nodes: seq<Node>, pool: int, ptr: nat, i: nat)
    requires Walkable(m, nodes, pool, ptr) && i < |nodes|
    ensures var o := Offset(i, 5 * ptr);
      && NodeRead(m, o, ptr) == nodes[i]
      && Word(m, o, ptr) == nodes[i].addr && Word(m, o + ptr, ptr) == nodes[i].name
      && Word(m, o + 2 * ptr, ptr) == nodes[i].ld
      && Word(m, o + Offset(3, ptr), ptr) == (if i + 1 < |nodes| then Address(pool, ptr, i + 1) else 0)
      && Word(m, o + Offset(4, ptr), ptr) == (if i > 0 then Address(pool, ptr, i - 1) else 0)
  {
    hide Word, Offset, Walkable, Address, Capacity;
    assert Offset(0, ptr) == 0 && Offset(1, ptr) == ptr && Offset(2, ptr) == 2 * ptr by { FirstOffsets(ptr); }
    NodeWord(m, nodes, pool, ptr, i, 0);
    NodeWord(m, nodes, pool, ptr, i, 1);
    NodeWord(m, nodes, pool, ptr, i, 2);
    NodeWord(m, nodes, pool, ptr, i, 3);
    NodeWord(m, nodes, pool, ptr, i, 4);
  }

  /** Following l_next from node `i` gives the rest of the list, and stops. */
  lemma {:induction false} NextWalk(m: seq<Byte>, nodes: seq<Node>, pool: int, ptr: nat, i: nat, left: nat)
    requires Walkable(m, nodes, pool, ptr) && i < |nodes| && left >= |nodes| - i
    ensures Walk(m, pool, ptr, 3, Address(pool, ptr, i), left) == nodes[i..]
    decreases |nodes| - i
  {
    hide Word, Offset, Capacity, Listed;
    NodeReads(m, nodes, pool, ptr, i);
    InPool(pool, ptr, i);
    assert nodes[i..] == [nodes[i]] + nodes[i + 1..];
    if i + 1 < |nodes| {
      NextWalk(m, nodes, pool, ptr, i + 1, left - 1);
    }
  }

  function Reversed(s: seq<Node>): seq<Node>
    decreases |s|
  {
    if s == [] then [] else [s[|s| - 1]] + Reversed(s[..|s| - 1])
  }

  /** Following l_prev from node `i` gives the nodes before it backwards, and stops. */
  lemma {:induction false} PreviousWalk(m: seq<Byte>, nodes: seq<Node>, pool: int, ptr: nat, i: nat, left: nat)
    requires Walkable(m, nodes, pool, ptr) && i < |nodes| && left >= i + 1
    ensures Walk(m, pool, ptr, 4, Address(pool, ptr, i), left) == Reversed(nodes[..i + 1])
    decreases i
  {
    hide Word, Offset, Capacity, Listed;
    NodeReads(m, nodes, pool, ptr, i);
    InPool(pool, ptr, i);
    assert nodes[..i + 1][..i] == nodes[..i];
    if i > 0 {
      PreviousWalk(m, nodes, pool, ptr, i - 1, left - 1);
    }
  }

  lemma InPool(pool: int, ptr: nat, i: nat)
    requires i <= CAPACITY && 0 < pool && Address(pool, ptr, CAPACITY) <= Capacity(ptr)
    ensures 0 < Address(pool, ptr, i) && (i < CAPACITY && ptr > 0 ==> Address(pool, ptr, i) < Capacity(ptr))
  {
    hide Offset, Capacity;
    OffsetGrows(i, CAPACITY, 5 * ptr);
    if i < CAPACITY {
      OffsetStep(i, 5 * ptr);
      OffsetGrows(i + 1, CAPACITY, 5 * ptr);
    }
  }
}
