/** Correctness of the link surgery in `add` and `remove`: both keep the
    class invariant, put or take exactly the node the source describes, and
    change the elements exactly as the reference functions of Sequences do.
 */
module SortedListProofs {
  import opened Sequences
  import opened SortedLists
  import opened Wrappers

  // ---------------------------------------------------------------------
  // add
  // ---------------------------------------------------------------------

  /** Adding to an empty list makes the new node both head and tail. */
  lemma AddToEmptyLinks(l: SortedList, x: int)
    requires Valid(l) && l.size == 0
    ensures Linked(Add(l, x), [|l.arena|])
    ensures Values(Add(l, x).arena, [|l.arena|]) == [x]
  {
  }

  /** Arena a' is arena a with fresh node n spliced into the chain `sp`
      before position k (k == |sp| appends): n links to its new neighbours,
      they link back to n, and every other node of a is unchanged. */
  ghost predicate SplicedIn(a: seq<Node>, a': seq<Node>, sp: seq<nat>, n: nat, k: nat)
  {
    && k <= |sp| && |a| <= n < |a'|
    && Allocated(a, sp) && ChainLinks(a, sp)
    && a'[n].next == At(sp, k) && a'[n].prev == At(sp, k - 1)
    && (k < |sp| ==> a'[sp[k]].prev == Ref(n) && a'[sp[k]].next == a[sp[k]].next)
    && (k > 0 ==> a'[sp[k - 1]].next == Ref(n) && a'[sp[k - 1]].prev == a[sp[k - 1]].prev)
    && forall i :: 0 <= i < |a| && (k == |sp| || i != sp[k]) && (k == 0 || i != sp[k - 1]) ==> a'[i] == a[i]
  }

  /** A node of the spliced chain away from the splice keeps its links,
      which still point at its neighbours. */
  lemma SplicedStepFar(a: seq<Node>, a': seq<Node>, sp: seq<nat>, n: nat, k: nat, j: nat)
    requires SplicedIn(a, a', sp, n, k) && Distinct(sp) && j <= |sp|
    requires j + 1 < k || k + 1 < j
    ensures var sp' := InsertAt<nat>(sp, k, n);
            && sp'[j] < |a'|
            && a'[sp'[j]].next == At(sp', j + 1)
            && a'[sp'[j]].prev == At(sp', j - 1)
  {
    var sp' := InsertAt<nat>(sp, k, n);
    if j < k {
      assert sp'[j] == sp[j] && sp'[j + 1] == sp[j + 1];
      assert k == |sp| || sp[j] != sp[k];
      assert sp[j] != sp[k - 1];
      ChainStep(a, sp, j);
    } else {
      assert sp'[j] == sp[j - 1] && sp'[j - 1] == sp[j - 2];
      assert sp[j - 1] != sp[k];
      assert k == 0 || sp[j - 1] != sp[k - 1];
      ChainStep(a, sp, j - 1);
    }
  }

  /** Node j of the spliced chain links to its neighbours. */
  lemma SplicedStep(a: seq<Node>, a': seq<Node>, sp: seq<nat>, n: nat, k: nat, j: nat)
    requires SplicedIn(a, a', sp, n, k) && Distinct(sp) && j <= |sp|
    ensures var sp' := InsertAt<nat>(sp, k, n);
            && sp'[j] < |a'|
            && a'[sp'[j]].next == At(sp', j + 1)
            && a'[sp'[j]].prev == At(sp', j - 1)
  {
    var sp' := InsertAt<nat>(sp, k, n);
    if j + 1 == k {
      assert sp'[j] == sp[j];
      ChainStep(a, sp, j);
    } else if j == k {
      assert sp'[j] == n;
    } else if j == k + 1 {
      assert sp'[j] == sp[k];
      ChainStep(a, sp, k);
    } else {
      SplicedStepFar(a, a', sp, n, k, j);
    }
  }

  /** The spliced chain is a chain of the new arena. */
  lemma SpliceLinks(a: seq<Node>, a': seq<Node>, sp: seq<nat>, n: nat, k: nat)
    requires SplicedIn(a, a', sp, n, k)
    ensures Allocated(a', InsertAt<nat>(sp, k, n))
    ensures ChainLinks(a', InsertAt<nat>(sp, k, n))
  {
    ChainDistinct(a, sp);
    var sp' := InsertAt<nat>(sp, k, n);
    forall j | 0 <= j < |sp'|
      ensures sp'[j] < |a'| && a'[sp'[j]].next == At(sp', j + 1) && a'[sp'[j]].prev == At(sp', j - 1)
    {
      SplicedStep(a, a', sp, n, k, j);
    }
    ChainFromSteps(a', sp');
  }

  /** A list whose arena has fresh node n spliced into the chain `sp` at
      position k, with head and tail moved to n when it lands at an end,
      is linked along the spliced chain. */
  lemma SplicedChain(l: SortedList, r: SortedList, sp: seq<nat>, n: nat, k: nat)
    requires Linked(l, sp) && SplicedIn(l.arena, r.arena, sp, n, k)
    requires |r.arena| == |l.arena| + 1 && r.size == l.size + 1
    requires r.head == if k == 0 then Ref(n) else l.head
    requires r.tail == if k == |sp| then Ref(n) else l.tail
    ensures Linked(r, InsertAt<nat>(sp, k, n))
  {
    SpliceLinks(l.arena, r.arena, sp, n, k);
    var sp' := InsertAt<nat>(sp, k, n);
    assert k < |sp| ==> sp'[|sp'| - 1] == sp[|sp| - 1];
    assert k > 0 ==> sp'[0] == sp[0];
  }

  /** The fast path links fresh node n after the tail t. */
  lemma AppendArena(l: SortedList, sp: seq<nat>, x: int)
    requires Linked(l, sp) && |sp| > 0
    ensures var n := |l.arena|;
            var r := LinkAfterTail(l, l.arena + [Node(x, Null, Null)], n, sp[|sp| - 1]);
            && SplicedIn(l.arena, r.arena, sp, n, |sp|)
            && r.head == l.head && r.tail == Ref(n) && r.size == l.size + 1
  {
    var n, t := |l.arena|, sp[|sp| - 1];
    var r := LinkAfterTail(l, l.arena + [Node(x, Null, Null)], n, t);
    ChainStep(l.arena, sp, |sp| - 1);
    assert r.arena[t] == l.arena[t].(next := Ref(n));
    assert r.arena[n] == Node(x, Null, Ref(t));
  }

  /** The fast path: an item not smaller than the tail's value is linked
      after the tail, and every other node keeps its links. */
  lemma AddAtTailLinks(l: SortedList, x: int)
    requires Valid(l) && l.size > 0
    requires Elements(l)[l.size - 1] <= x
    ensures Linked(Add(l, x), InsertAt<nat>(Spine(l), |Spine(l)|, |l.arena|))
    ensures Values(Add(l, x).arena, InsertAt<nat>(Spine(l), |Spine(l)|, |l.arena|)) == Elements(l) + [x]
  {
    var sp, n := Spine(l), |l.arena|;
    var r := LinkAfterTail(l, l.arena + [Node(x, Null, Null)], n, sp[|sp| - 1]);
    assert Add(l, x) == r;
    AppendArena(l, sp, x);
    SplicedChain(l, r, sp, n, |sp|);
    ValuesInsertAt(l.arena, r.arena, sp, n, |sp|);
    assert InsertAt(Elements(l), |sp|, x) == Elements(l) + [x];
  }

  /** Linking a fresh node n before the k-th node of a chain splices it
      into the arena there, making it the head when k is 0. */
  lemma InsertArena(l: SortedList, sp: seq<nat>, x: int, k: nat)
    requires Linked(l, sp) && k < |sp|
    requires LinksAllocated(l.arena, sp[k])
    ensures var n := |l.arena|;
            var r := LinkBefore(l, l.arena + [Node(x, Null, Null)], n, sp[k]);
            && SplicedIn(l.arena, r.arena, sp, n, k)
            && r.head == (if k == 0 then Ref(n) else l.head) && r.tail == l.tail && r.size == l.size + 1
  {
    var n, h := |l.arena|, sp[k];
    var r := LinkBefore(l, l.arena + [Node(x, Null, Null)], n, h);
    ChainDistinct(l.arena, sp);
    ChainStep(l.arena, sp, k);
    if k > 0 {
      assert sp[k - 1] != h;
      assert r.arena[sp[k - 1]] == l.arena[sp[k - 1]].(next := Ref(n));
    }
    assert r.arena[h] == l.arena[h].(prev := Ref(n));
    assert r.arena[n] == Node(x, Ref(h), At(sp, k - 1));
  }

  /** On the scan path `add` splices before the node holding the first
      element not smaller than the item, which exists as the tail's value
      exceeds the item. */
  lemma AddScanCase(l: SortedList, x: int)
    requires Valid(l) && l.size > 0
    requires x < Elements(l)[l.size - 1]
    ensures var k := FirstHit(Elements(l), x, AtLeast);
            && k < |Spine(l)|
            && LinksAllocated(l.arena, Spine(l)[k])
            && Add(l, x) == LinkBefore(l, l.arena + [Node(x, Null, Null)], |l.arena|, Spine(l)[k])
  {
    var sp, s := Spine(l), Elements(l);
    var k := FirstHit(s, x, AtLeast);
    assert Hits(AtLeast, x, s[|s| - 1]);
    FoundOnChain(l, x, AtLeast);
    ChainLinksAllocated(l, sp, k);
    ChainStep(l.arena, sp, |sp| - 1);
  }

  /** The values along a chain with a node spliced in. */
  lemma ValuesInsertAt(a: seq<Node>, a': seq<Node>, sp: seq<nat>, n: nat, k: nat)
    requires |a| <= n < |a'| && k <= |sp|
    requires forall i :: 0 <= i < |a| ==> a'[i].value == a[i].value
    requires Allocated(a, sp)
    ensures Allocated(a', InsertAt<nat>(sp, k, n))
    ensures var s := Values(a, sp);
            Values(a', InsertAt<nat>(sp, k, n)) == InsertAt(s, k, a'[n].value)
  {
  }

  /** An arena that is `a` with a fresh node holding x appended, up to
      links, holds a's values and then x. */
  lemma FreshValues(a: seq<Node>, a': seq<Node>, x: int)
    requires SameValues(a', a + [Node(x, Null, Null)])
    ensures forall i :: 0 <= i < |a| ==> a'[i].value == a[i].value
    ensures a'[|a|].value == x
  {
    assert forall i :: 0 <= i < |a| ==> (a + [Node(x, Null, Null)])[i] == a[i];
  }

  /** A list whose arena splices the item into the sorted chain `sp` at
      position k, with head and tail adjusted, is valid along the spliced
      chain and holds the old values with the item inserted at k. */
  lemma SplicedList(l: SortedList, r: SortedList, sp: seq<nat>, x: int, k: nat)
    requires Linked(l, sp) && SplicedIn(l.arena, r.arena, sp, |l.arena|, k)
    requires forall i :: 0 <= i < |l.arena| ==> r.arena[i].value == l.arena[i].value
    requires r.arena[|l.arena|].value == x
    requires |r.arena| == |l.arena| + 1 && r.size == l.size + 1
    requires r.head == (if k == 0 then Ref(|l.arena|) else l.head)
    requires r.tail == (if k == |sp| then Ref(|l.arena|) else l.tail)
    ensures Linked(r, InsertAt<nat>(sp, k, |l.arena|))
    ensures Values(r.arena, InsertAt<nat>(sp, k, |l.arena|)) == InsertAt(Values(l.arena, sp), k, x)
  {
    SplicedChain(l, r, sp, |l.arena|, k);
    ValuesInsertAt(l.arena, r.arena, sp, |l.arena|, k);
  }

  /** The scan path: the item goes immediately before the first node whose
      value is not smaller than it; every other node keeps its place. */
  lemma AddBefore(l: SortedList, x: int)
    requires Valid(l) && l.size > 0
    requires x < Elements(l)[l.size - 1]
    ensures var k := FirstHit(Elements(l), x, AtLeast);
            k < |Spine(l)| && Spine(Add(l, x)) == InsertAt<nat>(Spine(l), k, |l.arena|)
    ensures Valid(Add(l, x))
    ensures Elements(Add(l, x)) == InsertSorted(Elements(l), x)
  {
    var s := Elements(l);
    var k := FirstHit(s, x, AtLeast);
    AddScanCase(l, x);
    InsertArena(l, Spine(l), x, k);
    InsertSortedSplit(s, x);
    InsertSortedKeepsOrder(s, x);
    FreshValues(l.arena, Add(l, x).arena, x);
    SplicedList(l, Add(l, x), Spine(l), x, k);
    ValidFromChain(Add(l, x), InsertAt<nat>(Spine(l), k, |l.arena|));
  }

  /** `add` keeps the class invariant, puts the item where InsertSorted
      does, so the elements gain exactly one copy of it, and counts it. */
  lemma AddCorrect(l: SortedList, x: int)
    requires Valid(l)
    ensures Valid(Add(l, x))
    ensures Elements(Add(l, x)) == InsertSorted(Elements(l), x)
    ensures multiset(Elements(Add(l, x))) == multiset(Elements(l)) + multiset{x}
    ensures Size(Add(l, x)) == Size(l) + 1
  {
    var s, n := Elements(l), |l.arena|;
    InsertSortedCounts(s, x);
    if l.size == 0 {
      AddToEmptyLinks(l, x);
      ValidFromChain(Add(l, x), [n]);
    } else if s[l.size - 1] <= x {
      AddAtTailLinks(l, x);
      InsertSortedAtEnd(s, x);
      InsertSortedKeepsOrder(s, x);
      ValidFromChain(Add(l, x), InsertAt<nat>(Spine(l), |Spine(l)|, n));
    } else {
      AddBefore(l, x);
    }
  }

  /** The O(1) fast path: an item not smaller than every element becomes
      the new tail and the last element. */
  lemma AddAtEnd(l: SortedList, x: int)
    requires Valid(l)
    requires forall i :: 0 <= i < |Elements(l)| ==> Elements(l)[i] <= x
    ensures Add(l, x).tail == Ref(|l.arena|)
    ensures Elements(Add(l, x)) == Elements(l) + [x]
  {
    var s, n := Elements(l), |l.arena|;
    AddCorrect(l, x);
    if l.size == 0 {
      AddToEmptyLinks(l, x);
    } else {
      AddAtTailLinks(l, x);
      InsertSortedAtEnd(s, x);
    }
  }

  /** An item not above the first element becomes the new head and the
      first element, unless it is not below the last one either: then
      every element equals it and the fast path appends it at the tail. */
  lemma AddAtFront(l: SortedList, x: int)
    requires Valid(l)
    requires |Elements(l)| == 0 || (x <= Elements(l)[0] && x < Elements(l)[|Elements(l)| - 1])
    ensures Add(l, x).head == Ref(|l.arena|)
    ensures Elements(Add(l, x)) == [x] + Elements(l)
  {
    var s, n := Elements(l), |l.arena|;
    AddCorrect(l, x);
    if l.size == 0 {
      AddToEmptyLinks(l, x);
    } else {
      AddBefore(l, x);
      assert FirstHit(s, x, AtLeast) == 0;
      InsertSortedSplit(s, x);
      assert InsertAt(s, 0, x) == [x] + s;
    }
  }

  // ---------------------------------------------------------------------
  // remove
  // ---------------------------------------------------------------------

  /** Arena a' is arena a with the k-th node of chain `sp` unlinked: its
      neighbours are joined to each other and every other node is
      unchanged. */
  ghost predicate CutOut(a: seq<Node>, a': seq<Node>, sp: seq<nat>, k: nat)
  {
    && k < |sp| && |a'| == |a|
    && Allocated(a, sp) && ChainLinks(a, sp)
    && (k > 0 ==> a'[sp[k - 1]] == a[sp[k - 1]].(next := At(sp, k + 1)))
    && (k + 1 < |sp| ==> a'[sp[k + 1]] == a[sp[k + 1]].(prev := At(sp, k - 1)))
    && forall i :: 0 <= i < |a| && (k == 0 || i != sp[k - 1]) && (k + 1 == |sp| || i != sp[k + 1]) ==> a'[i] == a[i]
  }

  /** A node of the shortened chain away from the cut keeps its links,
      which still point at its neighbours. */
  lemma CutStepFar(a: seq<Node>, a': seq<Node>, sp: seq<nat>, k: nat, j: nat)
    requires CutOut(a, a', sp, k) && Distinct(sp) && j < |sp| - 1
    requires j + 1 < k || k < j
    ensures var sp' := DeleteAt<nat>(sp, k);
            && sp'[j] < |a'|
            && a'[sp'[j]].next == At(sp', j + 1)
            && a'[sp'[j]].prev == At(sp', j - 1)
  {
    var sp' := DeleteAt<nat>(sp, k);
    if j < k {
      assert sp'[j] == sp[j] && sp'[j + 1] == sp[j + 1];
      assert sp[j] != sp[k - 1];
      assert k + 1 == |sp| || sp[j] != sp[k + 1];
      ChainStep(a, sp, j);
    } else {
      assert sp'[j] == sp[j + 1] && sp'[j - 1] == sp[j];
      assert sp[j + 1] != sp[k + 1];
      assert k == 0 || sp[j + 1] != sp[k - 1];
      ChainStep(a, sp, j + 1);
    }
  }

  /** Node j of the shortened chain links to its neighbours. */
  lemma CutStep(a: seq<Node>, a': seq<Node>, sp: seq<nat>, k: nat, j: nat)
    requires CutOut(a, a', sp, k) && Distinct(sp) && j < |sp| - 1
    ensures var sp' := DeleteAt<nat>(sp, k);
            && sp'[j] < |a'|
            && a'[sp'[j]].next == At(sp', j + 1)
            && a'[sp'[j]].prev == At(sp', j - 1)
  {
    var sp' := DeleteAt<nat>(sp, k);
    if j + 1 == k {
      assert sp'[j] == sp[j];
      assert k + 1 == |sp| || sp[j] != sp[k + 1];
      ChainStep(a, sp, j);
    } else if j == k {
      assert sp'[j] == sp[k + 1];
      assert k == 0 || sp[k + 1] != sp[k - 1];
      ChainStep(a, sp, k + 1);
    } else {
      CutStepFar(a, a', sp, k, j);
    }
  }

  /** The chain without its k-th node is a chain of the new arena. */
  lemma CutLinks(a: seq<Node>, a': seq<Node>, sp: seq<nat>, k: nat)
    requires CutOut(a, a', sp, k)
    ensures Allocated(a', DeleteAt<nat>(sp, k))
    ensures ChainLinks(a', DeleteAt<nat>(sp, k))
  {
    ChainDistinct(a, sp);
    var sp' := DeleteAt<nat>(sp, k);
    forall j | 0 <= j < |sp'|
      ensures sp'[j] < |a'| && a'[sp'[j]].next == At(sp', j + 1) && a'[sp'[j]].prev == At(sp', j - 1)
    {
      CutStep(a, a', sp, k, j);
    }
    ChainFromSteps(a', sp');
  }

  /** Unlinking the k-th node of a chain joins its neighbours and leaves
      every other node alone. */
  lemma UnlinkArena(l: SortedList, sp: seq<nat>, k: nat)
    requires Linked(l, sp) && k < |sp|
    requires LinksAllocated(l.arena, sp[k])
    ensures CutOut(l.arena, Unlink(l, sp[k]).arena, sp, k)
  {
    var r := Unlink(l, sp[k]);
    ChainDistinct(l.arena, sp);
    ChainStep(l.arena, sp, k);
    if k > 0 {
      ChainStep(l.arena, sp, k - 1);
      assert r.arena[sp[k - 1]] == l.arena[sp[k - 1]].(next := At(sp, k + 1));
    }
    if k + 1 < |sp| {
      ChainStep(l.arena, sp, k + 1);
      assert k == 0 || sp[k + 1] != sp[k - 1];
      assert r.arena[sp[k + 1]] == l.arena[sp[k + 1]].(prev := At(sp, k - 1));
    }
  }

  /** Unlinking the k-th node of a chain removes it from the chain; head
      and tail move past it when it is at an end. */
  lemma UnlinkChain(l: SortedList, sp: seq<nat>, k: nat)
    requires Linked(l, sp) && k < |sp|
    requires LinksAllocated(l.arena, sp[k])
    ensures Linked(Unlink(l, sp[k]), DeleteAt<nat>(sp, k))
  {
    var r := Unlink(l, sp[k]);
    UnlinkArena(l, sp, k);
    CutLinks(l.arena, r.arena, sp, k);
    ChainStep(l.arena, sp, k);
  }

  /** The values along a chain with one node cut out. */
  lemma ValuesDeleteAt(a: seq<Node>, a': seq<Node>, sp: seq<nat>, k: nat)
    requires SameValues(a', a) && k < |sp|
    requires Allocated(a, sp)
    ensures Allocated(a', DeleteAt<nat>(sp, k))
    ensures Values(a', DeleteAt<nat>(sp, k)) == DeleteAt(Values(a, sp), k)
  {
  }

  /** `remove` keeps the class invariant and drops the first element equal
      to the item, as RemoveFirst does; the counter drops by one exactly
      when the item was present, and nothing changes otherwise. */
  lemma RemoveCorrect(l: SortedList, x: int)
    requires Valid(l)
    ensures Valid(Remove(l, x))
    ensures Elements(Remove(l, x)) == RemoveFirst(Elements(l), x)
    ensures multiset(Elements(Remove(l, x))) == multiset(Elements(l)) - multiset{x}
    ensures x in Elements(l) ==> Size(Remove(l, x)) == Size(l) - 1
    ensures x !in Elements(l) ==> Remove(l, x) == l
  {
    var sp, s := Spine(l), Elements(l);
    var k := FirstHit(s, x, EqualTo);
    FoundOnChain(l, x, EqualTo);
    RemoveFirstSplit(s, x);
    RemoveFirstCounts(s, x);
    if k < |s| {
      ChainLinksAllocated(l, sp, k);
      var r := Unlink(l, sp[k]);
      assert Remove(l, x) == r;
      UnlinkChain(l, sp, k);
      ValuesDeleteAt(l.arena, r.arena, sp, k);
      RemoveFirstKeepsOrder(s, x);
      ValidFromChain(r, DeleteAt<nat>(sp, k));
    } else {
      assert x !in s;
    }
  }

  // ---------------------------------------------------------------------
  // add, contains and remove together
  // ---------------------------------------------------------------------

  /** Removing an item right after adding it restores the elements and
      the size, whether or not the item was already present. */
  lemma RemoveAfterAdd(l: SortedList, x: int)
    requires Valid(l)
    ensures Valid(Add(l, x)) && Valid(Remove(Add(l, x), x))
    ensures Valid(Add(l, x)) && Elements(Remove(Add(l, x), x)) == Elements(l)
    ensures Valid(Add(l, x)) && Size(Remove(Add(l, x), x)) == Size(l)
  {
    AddCorrect(l, x);
    var l' := Add(l, x);
    RemoveCorrect(l', x);
    RemoveAfterInsert(Elements(l), x);
    assert x in multiset(Elements(l'));
  }

  /** An added item is contained afterwards. */
  lemma ContainsAfterAdd(l: SortedList, x: int)
    requires Valid(l)
    ensures Contains(Add(l, x), x)
    ensures Valid(Add(l, x)) && Contains(Remove(Add(l, x), x), x) == Contains(l, x)
  {
    RemoveAfterAdd(l, x);
    AddCorrect(l, x);
    assert x in multiset(Elements(Add(l, x)));
  }

  /** A valid list extended by `add` is valid, with the item inserted. */
  lemma AddStep(l: SortedList, x: int, s: seq<int>)
    requires Valid(l) && Elements(l) == s
    ensures Valid(Add(l, x)) && Elements(Add(l, x)) == InsertSorted(s, x)
  {
    AddCorrect(l, x);
  }

  /** The lists of the worked run after adding 5, then 1, then 3. */
  function ScenarioOne(): SortedList
  {
    AddStep(Empty(), 5, []);
    Add(Empty(), 5)
  }

  function ScenarioTwo(): SortedList
  {
    ScenarioOneAdds();
    Add(ScenarioOne(), 1)
  }

  function ScenarioList(): SortedList
  {
    ScenarioTwoAdds();
    Add(ScenarioTwo(), 3)
  }

  /** Adding 5 to an empty list gives the elements 5. */
  lemma ScenarioOneAdds()
    ensures Valid(ScenarioOne()) && Elements(ScenarioOne()) == [5]
  {
    AddStep(Empty(), 5, []);
  }

  /** Adding 1 next gives 1, 5: the item goes in front of the head. */
  lemma ScenarioTwoAdds()
    ensures Valid(ScenarioTwo()) && Elements(ScenarioTwo()) == [1, 5]
  {
    ScenarioOneAdds();
    AddStep(ScenarioOne(), 1, [5]);
  }

  /** Adding 3 last gives 1, 3, 5: the item goes between the two. */
  lemma ScenarioAdds()
    ensures Valid(ScenarioList()) && Elements(ScenarioList()) == [1, 3, 5]
  {
    ScenarioTwoAdds();
    ThirdAdd(ScenarioTwo(), ScenarioList());
  }

  /** Adding 3 to a valid list holding 1, 5 puts it between them. */
  lemma ThirdAdd(l: SortedList, r: SortedList)
    requires Valid(l) && Elements(l) == [1, 5]
    requires r == Add(l, 3)
    ensures Valid(r) && Elements(r) == [1, 3, 5]
  {
    AddStep(l, 3, [1, 5]);
    assert InsertSorted([1, 5], 3) == [1, 3, 5];
  }

  /** Removing 1 from that list leaves 3, 5. */
  lemma ScenarioRemove()
    ensures Valid(ScenarioList())
    ensures Valid(Remove(ScenarioList(), 1)) && Elements(Remove(ScenarioList(), 1)) == [3, 5]
  {
    ScenarioAdds();
    RemoveCorrect(ScenarioList(), 1);
    assert RemoveFirst([1, 3, 5], 1) == [3, 5];
  }

  /** A worked run: into an empty list add 5, 1 and 3, read index 1,
      remove 1, and probe with contains and an index past the end. */
  method Scenario() returns (three: Result<int, ListError>, past: Result<int, ListError>,
                             has3: bool, has99: bool, before: seq<int>, after: seq<int>,
                             sizeBefore: int, sizeAfter: int)
    ensures before == [1, 3, 5] && sizeBefore == 3 && three == Success(3)
    ensures after == [3, 5] && sizeAfter == 2 && has3 && !has99
    ensures past == Failure(OutOfRange(5, 2))
  {
    ScenarioAdds();
    ScenarioRemove();
    var l := ScenarioList();
    before := Elements(l);
    sizeBefore := Size(l);
    three := Get(l, 1);
    l := Remove(l, 1);
    after := Elements(l);
    sizeAfter := Size(l);
    has3 := Contains(l, 3);
    has99 := Contains(l, 99);
    past := Get(l, 5);
  }
}
