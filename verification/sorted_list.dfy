/** The doubly-linked sorted list of SortedList.java.

    Java object references become indices into an arena: a sequence of
    nodes that only ever grows. `new Node` appends to the arena; a node that
    is unlinked (remove) or dropped (clear) stays in the arena, unreachable,
    as the garbage Java would collect.

    The list is tied to an abstract sequence by walking its links:
    `Spine` is the sequence of node indices met going head-to-tail along
    `next`, and `Elements` the values stored in them. `Valid` is the class
    invariant, and every operation is proved against the pointer-free
    reference functions of the module Sequences.
 */
module SortedLists {
  import opened Sequences
  import opened Wrappers

  /** A node reference: an arena index, or Java's null. */
  datatype Link = Null | Ref(index: nat)

  datatype Node = Node(value: int, next: Link, prev: Link)

  datatype SortedList = SortedList(arena: seq<Node>, head: Link, tail: Link, size: int)

  /** The exceptions get, _getEnd and _move throw (IllegalArgumentException
      in both cases); OutOfRange carries the index and size the message reports. */
  datatype ListError = OutOfRange(index: int, size: int) | IllegalArgument

  // ---------------------------------------------------------------------
  // Link walks and the abstraction
  // ---------------------------------------------------------------------

  /** The node a walk reaches next: `next` going forward, `prev` going back. */
  function Step(node: Node, forward: bool): Link
  {
    if forward then node.next else node.prev
  }

  /** The arena indices visited by following links from `cur` until null.
      `fuel` bounds the walk; the walks below use the arena length, which a
      well-formed list never needs in full. */
  function Walk(arena: seq<Node>, cur: Link, forward: bool, fuel: nat): (w: seq<nat>)
    ensures |w| <= fuel
    ensures forall k :: 0 <= k < |w| ==> w[k] < |arena|
    decreases fuel
  {
    if fuel == 0 then []
    else match cur
      case Null => []
      case Ref(i) =>
        if i < |arena| then [i] + Walk(arena, Step(arena[i], forward), forward, fuel - 1)
        else []
  }

  /** The values stored at the given arena indices. */
  function Values(arena: seq<Node>, w: seq<nat>): (vs: seq<int>)
    requires forall k :: 0 <= k < |w| ==> w[k] < |arena|
    ensures |vs| == |w|
    ensures forall k :: 0 <= k < |w| ==> vs[k] == arena[w[k]].value
  {
    seq(|w|, k requires 0 <= k < |w| => arena[w[k]].value)
  }

  /** The nodes of the list in forward order (the loop of toString). */
  function Spine(l: SortedList): seq<nat>
  {
    Walk(l.arena, l.head, true, |l.arena|)
  }

  /** The elements head to tail: what toString and the first half of
      toInternalString list. */
  function Elements(l: SortedList): seq<int>
  {
    Values(l.arena, Spine(l))
  }

  /** The elements tail to head: the second half of toInternalString. */
  function BackwardElements(l: SortedList): seq<int>
  {
    Values(l.arena, Walk(l.arena, l.tail, false, |l.arena|))
  }

  /** The k-th node of a spine as a link, null off either end. */
  function At(sp: seq<nat>, k: int): Link
  {
    if 0 <= k < |sp| then Ref(sp[k]) else Null
  }

  /** Every index of `sp` is a node of the arena. */
  ghost predicate Allocated(arena: seq<Node>, sp: seq<nat>)
  {
    forall k :: 0 <= k < |sp| ==> sp[k] < |arena|
  }

  /** Each node of `sp` has the chain neighbours as its next and prev, null
      at the ends. */
  ghost predicate ChainLinks(arena: seq<Node>, sp: seq<nat>)
    requires Allocated(arena, sp)
  {
    && (forall k {:trigger arena[sp[k]]} :: 0 <= k < |sp| - 1 ==> arena[sp[k]].next == Ref(sp[k + 1]))
    && (forall k {:trigger arena[sp[k]]} :: 0 < k < |sp| ==> arena[sp[k]].prev == Ref(sp[k - 1]))
    && (|sp| > 0 ==> arena[sp[|sp| - 1]].next == Null && arena[sp[0]].prev == Null)
  }

  /** The links of `l` form exactly the chain `sp`: allocated nodes, head
      and tail at its ends, every next and prev pointing at the chain
      neighbour (so the links are symmetric), and `size` counting the
      chain. That no node occurs twice follows,
      by ChainDistinct. */
  ghost predicate Linked(l: SortedList, sp: seq<nat>)
  {
    && |sp| == l.size
    && |sp| <= |l.arena|
    && Allocated(l.arena, sp)
    && l.head == At(sp, 0)
    && l.tail == At(sp, |sp| - 1)
    && ChainLinks(l.arena, sp)
  }

  /** The class invariant: the forward walk is a well-linked chain and its
      elements are in non-decreasing order. */
  ghost predicate Valid(l: SortedList)
  {
    Linked(l, Spine(l)) && Sorted(Elements(l))
  }

  /** Conversely, nodes that each link to their neighbours in `sp` form
      the chain `sp`. */
  lemma ChainFromSteps(arena: seq<Node>, sp: seq<nat>)
    requires Allocated(arena, sp)
    requires forall j :: 0 <= j < |sp| ==> arena[sp[j]].next == At(sp, j + 1) && arena[sp[j]].prev == At(sp, j - 1)
    ensures ChainLinks(arena, sp)
  {
  }

  /** No node occurs twice in `sp`. */
  ghost predicate Distinct(sp: seq<nat>)
  {
    forall i, j :: 0 <= i < j < |sp| ==> sp[i] != sp[j]
  }

  /** The links of the k-th node of a chain, as links. */
  lemma ChainStep(arena: seq<Node>, sp: seq<nat>, k: nat)
    requires Allocated(arena, sp) && ChainLinks(arena, sp) && k < |sp|
    ensures arena[sp[k]].next == At(sp, k + 1) && arena[sp[k]].prev == At(sp, k - 1)
  {
  }

  /** Two positions of a chain hold different nodes: following next from
      both in step, the later one reaches the last node, whose next is null,
      while the earlier one still has a successor. */
  lemma {:induction false} ChainNoRepeat(arena: seq<Node>, sp: seq<nat>, i: nat, j: nat)
    requires Allocated(arena, sp) && ChainLinks(arena, sp)
    requires i < j < |sp|
    ensures sp[i] != sp[j]
    decreases |sp| - j
  {
    ChainStep(arena, sp, i);
    ChainStep(arena, sp, j);
    if j < |sp| - 1 {
      ChainNoRepeat(arena, sp, i + 1, j + 1);
    }
  }

  /** The nodes of a chain are distinct. */
  lemma ChainDistinct(arena: seq<Node>, sp: seq<nat>)
    requires Allocated(arena, sp) && ChainLinks(arena, sp)
    ensures Distinct(sp)
  {
    forall i, j | 0 <= i < j < |sp| ensures sp[i] != sp[j] {
      ChainNoRepeat(arena, sp, i, j);
    }
  }

  /** Walking forward from the k-th node of a chain visits the rest of it. */
  lemma {:induction false} WalkForward(l: SortedList, sp: seq<nat>, k: nat, fuel: nat)
    requires Linked(l, sp)
    requires k <= |sp| && |sp| - k <= fuel
    ensures Walk(l.arena, At(sp, k), true, fuel) == sp[k..]
    decreases |sp| - k
  {
    if k < |sp| {
      ChainStep(l.arena, sp, k);
      WalkForward(l, sp, k + 1, fuel - 1);
    }
  }

  /** Walking backward from the k-th node of a chain visits its first k+1
      nodes in reverse. */
  lemma {:induction false} WalkBackward(l: SortedList, sp: seq<nat>, k: int, fuel: nat)
    requires Linked(l, sp)
    requires -1 <= k < |sp| && k + 1 <= fuel
    ensures Walk(l.arena, At(sp, k), false, fuel) == Reverse(sp[..k + 1])
    decreases k + 1
  {
    if k >= 0 {
      ChainStep(l.arena, sp, k);
      WalkBackward(l, sp, k - 1, fuel - 1);
      assert sp[..k + 1][..k] == sp[..k];
    }
  }

  /** A chain determines the spine: the forward walk finds exactly it. */
  lemma LinkedSpine(l: SortedList, sp: seq<nat>)
    requires Linked(l, sp)
    ensures Spine(l) == sp
  {
    WalkForward(l, sp, 0, |l.arena|);
  }

  /** A sorted chain makes a valid list whose spine it is. */
  lemma ValidFromChain(l: SortedList, sp: seq<nat>)
    requires Linked(l, sp)
    requires Sorted(Values(l.arena, sp))
    ensures Valid(l) && Spine(l) == sp && Elements(l) == Values(l.arena, sp)
  {
    LinkedSpine(l, sp);
  }

  /** The backward walk is the reverse of the forward walk. */
  lemma BackwardIsReverse(l: SortedList)
    requires Valid(l)
    ensures BackwardElements(l) == Reverse(Elements(l))
  {
    var sp := Spine(l);
    WalkBackward(l, sp, |sp| - 1, |l.arena|);
    assert sp[..|sp|] == sp;
  }

  // ---------------------------------------------------------------------
  // Construction, size and clear
  // ---------------------------------------------------------------------

  /** `new SortedList()`: no nodes, no head or tail, size 0. */
  function Empty(): (l: SortedList)
    ensures Valid(l) && Elements(l) == [] && Size(l) == 0
    ensures l.head == Null && l.tail == Null
  {
    SortedList([], Null, Null, 0)
  }

  /** `size()`: the counter, which on a valid list counts the elements. */
  function Size(l: SortedList): (n: int)
    ensures Valid(l) ==> n == |Elements(l)|
  {
    l.size
  }

  /** `clear()`: drops head and tail and zeroes the counter; the nodes stay
      in the arena, unreachable. */
  function Clear(l: SortedList): (r: SortedList)
    ensures Valid(r) && Elements(r) == [] && Size(r) == 0
    ensures r.head == Null && r.tail == Null
  {
    var r := SortedList(l.arena, Null, Null, 0);
    assert Linked(r, []);
    r
  }

  // ---------------------------------------------------------------------
  // Traversal primitives: _getEnd and Node._move
  // ---------------------------------------------------------------------

  /** `_getEnd(d)`: head for 1, tail for -1, otherwise an IllegalArgument. */
  function GetEnd(l: SortedList, d: int): (r: Result<Link, ListError>)
    ensures r.Success? <==> d == 1 || d == -1
    ensures Valid(l) && d == 1 ==> r.value == At(Spine(l), 0)
    ensures Valid(l) && d == -1 ==> r.value == At(Spine(l), |Spine(l)| - 1)
  {
    if d != 1 && d != -1 then Failure(IllegalArgument)
    else Success(if d == 1 then l.head else l.tail)
  }

  /** `Node._move(delta)`: the successor for 1, the predecessor for -1,
      otherwise an IllegalArgument. */
  function Move(arena: seq<Node>, i: nat, delta: int): (r: Result<Link, ListError>)
    requires i < |arena|
    ensures r.Success? <==> delta == 1 || delta == -1
  {
    if delta != 1 && delta != -1 then Failure(IllegalArgument)
    else Success(Step(arena[i], delta == 1))
  }

  /** Moving from the k-th node of the chain reaches the (k+delta)-th. */
  lemma MoveAlongChain(l: SortedList, sp: seq<nat>, k: nat, delta: int)
    requires Linked(l, sp)
    requires k < |sp| && (delta == 1 || delta == -1)
    ensures Move(l.arena, sp[k], delta) == Success(At(sp, k + delta))
  {
    ChainStep(l.arena, sp, k);
  }

  // ---------------------------------------------------------------------
  // get
  // ---------------------------------------------------------------------

  /** `get(index)`: fails with OutOfRange outside [0, size); otherwise walks
      from the head for indices below (size+1)/2 and from the tail, with the
      flipped index size-index-1, for the rest, and returns the element at
      `index` of the forward order either way. */
  method Get(l: SortedList, index: int) returns (r: Result<int, ListError>)
    requires Valid(l)
    ensures !(0 <= index < |Elements(l)|) <==> r.Failure?
    ensures !(0 <= index < |Elements(l)|) ==> r.error == OutOfRange(index, |Elements(l)|)
    ensures 0 <= index < |Elements(l)| ==> r == Success(Elements(l)[index])
  {
    if index < 0 || index >= l.size {
      return Failure(OutOfRange(index, l.size));
    }
    var v := Fetch(l, Spine(l), index);
    return Success(v);
  }

  /** The walk of `get` for an index in range: from the head for indices
      below (size+1)/2, otherwise from the tail with the flipped index
      size-index-1; either way it reaches the index-th node of the chain. */
  method Fetch(l: SortedList, ghost sp: seq<nat>, index: int) returns (v: int)
    requires Linked(l, sp) && 0 <= index < |sp|
    ensures v == l.arena[sp[index]].value
  {
    var delta, steps := 1, index;
    if index >= (l.size + 1) / 2 {
      delta, steps := -1, l.size - index - 1;
    }
    var end := GetEnd(l, delta);
    var cur := Advance(l, sp, if delta == 1 then 0 else |sp| - 1, end.value, delta, steps);
    return l.arena[cur.index].value;
  }

  /** The position `steps` moves in direction `delta` away from `start`. */
  function Shift(start: int, steps: int, delta: int): int
  {
    if delta == 1 then start + steps else start - steps
  }

  /** The loop of `get`: `steps` moves in direction `delta` from the node at
      position `start` of the chain reach position Shift(start, steps, delta). */
  method Advance(l: SortedList, ghost sp: seq<nat>, ghost start: int, from: Link, delta: int, steps: int)
      returns (cur: Link)
    requires Linked(l, sp)
    requires delta == 1 || delta == -1
    requires 0 <= start < |sp| && from == At(sp, start)
    requires 0 <= Shift(start, steps, delta) < |sp| && 0 <= steps
    ensures cur == At(sp, Shift(start, steps, delta))
  {
    cur := from;
    var i := 0;
    ghost var p := start;
    while i < steps
      invariant 0 <= i <= steps
      invariant p == Shift(start, i, delta)
      invariant cur == At(sp, p)
    {
      MoveAlongChain(l, sp, p, delta);
      var moved := Move(l.arena, cur.index, delta);
      cur := moved.value;
      i, p := i + 1, p + delta;
    }
  }

  // ---------------------------------------------------------------------
  // Forward scans: contains, and the searches of add and remove
  // ---------------------------------------------------------------------

  /** The loop of `contains` from `cur`: true on the first value equal to `item`. */
  function ContainsFrom(arena: seq<Node>, cur: Link, item: int, fuel: nat): (b: bool)
    ensures b <==> item in Values(arena, Walk(arena, cur, true, fuel))
    decreases fuel
  {
    if fuel == 0 then false
    else match cur
      case Null => false
      case Ref(i) =>
        if i < |arena| then
          ValuesFirst(arena, i, fuel);
          arena[i].value == item || ContainsFrom(arena, arena[i].next, item, fuel - 1)
        else false
  }

  /** The values met walking forward from an allocated node: its own,
      then those met from its successor. */
  lemma ValuesFirst(arena: seq<Node>, i: nat, fuel: nat)
    requires i < |arena| && fuel > 0
    ensures Values(arena, Walk(arena, Ref(i), true, fuel))
            == [arena[i].value] + Values(arena, Walk(arena, arena[i].next, true, fuel - 1))
  {
    var w := Walk(arena, Ref(i), true, fuel);
    assert w[1..] == Walk(arena, arena[i].next, true, fuel - 1);
  }

  /** `contains(item)`: whether some element equals `item`. */
  function Contains(l: SortedList, item: int): (b: bool)
    ensures b <==> item in Elements(l)
  {
    ContainsFrom(l.arena, l.head, item, |l.arena|)
  }

  /** The scan loops of `add` and `remove` from `cur`: the first node whose
      value the probe stops on, or null when the walk ends without one. */
  function Find(arena: seq<Node>, cur: Link, item: int, probe: Probe, fuel: nat): (r: Link)
    ensures var w := Walk(arena, cur, true, fuel);
            var k := FirstHit(Values(arena, w), item, probe);
            r == if k < |w| then Ref(w[k]) else Null
    decreases fuel
  {
    if fuel == 0 then Null
    else match cur
      case Null => Null
      case Ref(i) =>
        if i < |arena| then
          if Hits(probe, item, arena[i].value) then cur
          else
            var w := Walk(arena, cur, true, fuel);
            var vs := Values(arena, w);
            assert vs[1..] == Values(arena, w[1..]);
            assert FirstHit(vs, item, probe) == 1 + FirstHit(vs[1..], item, probe);
            Find(arena, arena[i].next, item, probe, fuel - 1)
        else Null
  }

  // ---------------------------------------------------------------------
  // add and remove
  // ---------------------------------------------------------------------

  /** The two arenas hold the same nodes up to links: relinking never
      changes a stored value. */
  predicate SameValues(a: seq<Node>, b: seq<Node>)
  {
    |a| == |b| && forall j :: 0 <= j < |a| ==> a[j].value == b[j].value
  }

  /** Node i with its next link replaced. */
  function WithNext(arena: seq<Node>, i: nat, link: Link): (r: seq<Node>)
    requires i < |arena|
    ensures SameValues(r, arena)
  {
    arena[i := arena[i].(next := link)]
  }

  /** Node i with its prev link replaced. */
  function WithPrev(arena: seq<Node>, i: nat, link: Link): (r: seq<Node>)
    requires i < |arena|
    ensures SameValues(r, arena)
  {
    arena[i := arena[i].(prev := link)]
  }

  /** The links of node h point into the arena. */
  predicate LinksAllocated(arena: seq<Node>, h: nat)
  {
    && h < |arena|
    && (arena[h].prev.Ref? ==> arena[h].prev.index < |arena|)
    && (arena[h].next.Ref? ==> arena[h].next.index < |arena|)
  }

  /** The neighbours of a node on a chain are allocated. */
  lemma ChainLinksAllocated(l: SortedList, sp: seq<nat>, k: nat)
    requires Linked(l, sp) && k < |sp|
    ensures LinksAllocated(l.arena, sp[k])
  {
    ChainStep(l.arena, sp, k);
  }

  /** The fast path of `add`: the new node n becomes the tail. */
  function LinkAfterTail(l: SortedList, arena: seq<Node>, n: nat, t: nat): (r: SortedList)
    requires t < n < |arena|
    ensures SameValues(r.arena, arena)
  {
    SortedList(WithNext(WithPrev(arena, n, Ref(t)), t, Ref(n)), l.head, Ref(n), l.size + 1)
  }

  /** The scan path of `add`: the new node n goes immediately before h. */
  function LinkBefore(l: SortedList, arena: seq<Node>, n: nat, h: nat): (r: SortedList)
    requires LinksAllocated(arena, h) && n < |arena|
    ensures SameValues(r.arena, arena)
  {
    var prev := arena[h].prev;
    var a := WithPrev(WithNext(arena, n, Ref(h)), n, prev);
    var a' := if prev.Ref? then WithNext(a, prev.index, Ref(n)) else a;
    var head := if prev.Ref? then l.head else Ref(n);
    SortedList(WithPrev(a', h, Ref(n)), head, l.tail, l.size + 1)
  }

  /** `add(item)`. The new node is allocated first, at arena index
      |l.arena|. An empty list gets it as head and tail; an item not smaller
      than the tail's value is linked after the tail; otherwise the scan
      from the head splices it before the first node whose value is not
      smaller than the item. The counter is incremented on every path. */
  function Add(l: SortedList, item: int): (r: SortedList)
    requires Valid(l)
    ensures r.size == l.size + 1
    ensures |r.arena| == |l.arena| + 1
  {
    var n := |l.arena|;
    var arena := l.arena + [Node(item, Null, Null)];
    if l.size == 0 then
      SortedList(arena, Ref(n), Ref(n), l.size + 1)
    else
      ChainLinksAllocated(l, Spine(l), l.size - 1);
      var t := l.tail.index;
      if item >= l.arena[t].value then LinkAfterTail(l, arena, n, t)
      else
        match Find(l.arena, l.head, item, AtLeast, |l.arena|)
        // the scan cannot fall off the end, as the tail's value exceeds the item
        case Null => l.(arena := arena, size := l.size + 1)
        case Ref(h) =>
          FoundOnChain(l, item, AtLeast);
          LinkBefore(l, arena, n, h)
  }

  /** The scans of `add` and `remove` stop at the node holding the first
      element the probe stops on. */
  lemma FoundOnChain(l: SortedList, item: int, probe: Probe)
    requires Valid(l)
    ensures var k := FirstHit(Elements(l), item, probe);
            Find(l.arena, l.head, item, probe, |l.arena|) == At(Spine(l), k)
    ensures var r := Find(l.arena, l.head, item, probe, |l.arena|);
            r.Ref? ==> LinksAllocated(l.arena, r.index)
  {
    var k := FirstHit(Elements(l), item, probe);
    if k < |Spine(l)| {
      ChainLinksAllocated(l, Spine(l), k);
    }
  }

  /** `remove`'s unlinking of node h, whose neighbours are joined. */
  function Unlink(l: SortedList, h: nat): (r: SortedList)
    requires LinksAllocated(l.arena, h)
    ensures SameValues(r.arena, l.arena)
  {
    var prev, next := l.arena[h].prev, l.arena[h].next;
    var a := if prev.Ref? then WithNext(l.arena, prev.index, next) else l.arena;
    var head := if prev.Ref? then l.head else next;
    var a' := if next.Ref? then WithPrev(a, next.index, prev) else a;
    var tail := if next.Ref? then l.tail else prev;
    SortedList(a', head, tail, l.size - 1)
  }

  /** `remove(item)`. The scan from the head finds the first node whose
      value equals the item; it is unlinked (head or tail moving past it at
      an end) and the counter decremented. Without a match nothing changes. */
  function Remove(l: SortedList, item: int): (r: SortedList)
    requires Valid(l)
    ensures |r.arena| == |l.arena|
    ensures r == l || r.size == l.size - 1
  {
    match Find(l.arena, l.head, item, EqualTo, |l.arena|)
    case Null => l
    case Ref(h) =>
      FoundOnChain(l, item, EqualTo);
      Unlink(l, h)
  }
}
