/**
 The owning list: an engine with the per-node policy and the `Dealloc`
 destructor, so destroying the list releases every node it holds. It is the
 only list that builds itself from a sequence of values, allocating one node
 per value.
 */
module List {
  import opened LlItem
  import opened Chains
  import InnerList

  datatype List = List(list: InnerList.InnerList)

  /** Every owning list destroys its nodes one by one with `Dealloc`. */
  ghost predicate Owning(l: List)
  {
    l.list.dropMethod == InnerList.Each(InnerList.Dealloc)
  }

  function From(first: Addr): List
  {
    List(InnerList.DropEach(first, InnerList.Dealloc))
  }

  function New(): List
  {
    List(InnerList.DropEach(Null, InnerList.Dealloc))
  }

  /** `From` adopts the chain of `first` whole: iterating the new list
      yields that chain, and destroying it calls `Dealloc` on each of its
      nodes in order. */
  lemma FromAdoptsChain(h: Heap, first: Addr, s: seq<Addr>)
    requires IsChain(h, first, s)
    ensures Owning(From(first)) && From(first).list.head == first
    ensures InnerList.Positioned(h, From(first).list, s)
    ensures InnerList.Run(h, From(first).list, |s| + 1, s).1 == InnerList.Yields(s) + [None]
    ensures InnerList.Destroyed(From(first).list, s) == s
  {
    InnerList.IterYieldsChain(h, From(first).list, s);
  }

  /** A new list is empty and owning, and its first step yields nothing. */
  lemma NewIsEmpty(h: Heap)
    ensures Owning(New()) && New().list.head == Null
    ensures InnerList.Next(h, New().list).1 == None
    ensures InnerList.Destroyed(New().list, []) == []
  {
  }

  function Head(l: List): Addr
  {
    InnerList.Head(l.list)
  }

  method Add(h: Heap, l: List, elem: Addr, ghost es: seq<Addr>, ghost ls: seq<Addr>)
      returns (h': Heap, l': List)
    requires IsChain(h, l.list.head, ls)
    requires l.list.head != Null ==> elem != Null && IsChain(h, elem, es) && Disjoint(es, ls)
    ensures Owning(l) ==> Owning(l')
    ensures l'.list.head == elem && l'.list.current == l.list.current
    ensures IsChain(h, elem, es) && Disjoint(es, ls) ==> IsChain(h', Head(l'), es + ls)
    ensures (h', l'.list) == InnerList.AddSpec(h, l.list, elem, es)
  {
    var inner;
    h', inner := InnerList.Add(h, l.list, elem, es, ls);
    l' := List(inner);
  }

  method Combine(h: Heap, l: List, other: List, ghost os: seq<Addr>, ghost ls: seq<Addr>)
      returns (h': Heap, l': List)
    requires IsChain(h, l.list.head, ls) && IsChain(h, other.list.head, os)
    requires l.list.dropMethod.First? == other.list.dropMethod.First?
    requires l.list.head != Null ==> other.list.head != Null
    requires Disjoint(os, ls)
    ensures Owning(l) ==> Owning(l')
    ensures IsChain(h', Head(l'), os + ls)
    ensures (h', l'.list) == InnerList.AddSpec(h, l.list, other.list.head, os)
  {
    var inner;
    h', inner := InnerList.Combine(h, l.list, other.list, os, ls);
    l' := List(inner);
  }

  function Next(h: Heap, l: List): (r: (List, Option<Addr>))
    requires l.list.head != Null && l.list.current != Null ==> l.list.current in h
    ensures r.0.list == InnerList.Next(h, l.list).0 && r.1 == InnerList.Next(h, l.list).1
  {
    var (inner, item) := InnerList.Next(h, l.list);
    (List(inner), item)
  }

  /** Destroying an owning list calls `Dealloc` once on every node, in chain
      order, and leaves none of them allocated. */
  method Drop(h: Heap, l: List, ghost s: seq<Addr>) returns (log: seq<Addr>, h': Heap)
    requires Owning(l) && IsChain(h, l.list.head, s)
    ensures log == s && NoDup(log)
    ensures forall a :: a in h' <==> a in h && a !in s
  {
    log, h' := InnerList.Drop(h, l.list, s);
  }

  /** The addresses of the values of `s`. */
  function Vals(h: Heap, s: seq<Addr>): (r: seq<string>)
    requires forall i :: 0 <= i < |s| ==> s[i] in h
    ensures |r| == |s|
    ensures forall i :: 0 <= i < |s| ==> r[i] == h[s[i]].val
  {
    if s == [] then [] else [h[s[0]].val] + Vals(h, s[1..])
  }

  /** One step of the vector build: a fresh node at `a` holding `v`, with a
      null link, prepended to the list. No earlier node changes. */
  method Push(h: Heap, l: List, a: Addr, v: string, ghost ls: seq<Addr>) returns (h': Heap, l': List)
    requires Owning(l) && IsChain(h, Head(l), ls)
    requires a != Null && a !in h
    ensures Owning(l') && l'.list.current == l.list.current
    ensures IsChain(h', Head(l'), [a] + ls)
    ensures a in h' && h'[a].val == v
    ensures forall x :: x in h' <==> x in h || x == a
    ensures forall x :: x in h ==> h'[x] == h[x]
  {
    ChainNodes(h, Head(l), ls);
    var h1 := h[a := Node(Null, v)];
    ChainFrame(h, h1, Head(l), ls);
    assert IsChain(h1, a, [a]);
    h', l' := Add(h1, l, a, [a], ls);
  }

  /** Builds an owning list from `elems`: each value goes into its own fresh
      node, taken from `allocs` (the allocator's answers, one distinct
      unused address per value), and is prepended in vector order. The head
      is therefore the last value and the chain is the vector reversed. */
  method FromVec(h: Heap, elems: seq<string>, allocs: seq<Addr>) returns (h': Heap, l: List)
    requires |allocs| == |elems|
    requires forall i :: 0 <= i < |allocs| ==> allocs[i] != Null && allocs[i] !in h
    requires NoDup(allocs)
    ensures Owning(l) && l.list.current == Null
    ensures IsChain(h', Head(l), Reverse(allocs))
    ensures forall i :: 0 <= i < |allocs| ==> allocs[i] in h' && h'[allocs[i]].val == elems[i]
    ensures forall a :: a in h' ==> a in h || a in allocs
    ensures forall a :: a in h ==> a in h' && h'[a] == h[a]
    ensures forall i :: 0 <= i < |elems| ==> Reverse(allocs)[i] in h'
    ensures Vals(h', Reverse(allocs)) == Reverse(elems)
  {
    h' := h;
    l := New();
    var i := 0;
    while i < |elems|
      invariant 0 <= i <= |elems|
      invariant Owning(l) && l.list.current == Null
      invariant IsChain(h', Head(l), Reverse(allocs[..i]))
      invariant forall j :: 0 <= j < i ==> allocs[j] in h' && h'[allocs[j]].val == elems[j]
      invariant forall a :: a in h' ==> a in h || a in allocs[..i]
      invariant forall a :: a in h ==> a in h' && h'[a] == h[a]
    {
      var a := allocs[i];
      PrefixStep(allocs, i);
      ReverseSnoc(allocs[..i], a);
      ghost var before := h';
      h', l := Push(h', l, a, elems[i], Reverse(allocs[..i]));
      forall j | 0 <= j < i + 1 ensures allocs[j] in h' && h'[allocs[j]].val == elems[j] {
        if j < i {
          assert allocs[j] in before && h'[allocs[j]] == before[allocs[j]];
        }
      }
      i := i + 1;
    }
    assert allocs[..i] == allocs;
    ValsReversed(h', elems, allocs);
  }

  /** Growing a prefix of distinct addresses by one adds a new address. */
  lemma PrefixStep(allocs: seq<Addr>, i: int)
    requires NoDup(allocs) && 0 <= i < |allocs|
    ensures allocs[i] !in allocs[..i]
    ensures allocs[..i + 1] == allocs[..i] + [allocs[i]]
    ensures forall x :: x in allocs[..i + 1] <==> x in allocs[..i] || x == allocs[i]
  {
    forall j | 0 <= j < i ensures allocs[j] != allocs[i] { assert allocs[j] != allocs[i]; }
    assert allocs[..i + 1] == allocs[..i] + [allocs[i]];
  }

  /** Nodes holding `elems` at `allocs`, read in reverse address order, hold
      the values in reverse order. */
  lemma ValsReversed(h: Heap, elems: seq<string>, allocs: seq<Addr>)
    requires |allocs| == |elems|
    requires forall i :: 0 <= i < |allocs| ==> allocs[i] in h && h[allocs[i]].val == elems[i]
    ensures forall i :: 0 <= i < |elems| ==> Reverse(allocs)[i] in h
    ensures Vals(h, Reverse(allocs)) == Reverse(elems)
  {
    forall j | 0 <= j < |elems| ensures Reverse(allocs)[j] in h && h[Reverse(allocs)[j]].val == Reverse(elems)[j] {
      ReverseIndex(allocs, j);
      ReverseIndex(elems, j);
    }
  }

  /** Iterating a list built from `elems` yields the values in reverse
      vector order, one node per value. */
  lemma FromVecIteratesReversed(h: Heap, l: List, elems: seq<string>, allocs: seq<Addr>)
    requires |allocs| == |elems| && l.list.current == Null
    requires IsChain(h, l.list.head, Reverse(allocs))
    requires forall i :: 0 <= i < |allocs| ==> allocs[i] in h && h[allocs[i]].val == elems[i]
    ensures InnerList.Positioned(h, l.list, Reverse(allocs))
    ensures InnerList.Run(h, l.list, |elems| + 1, Reverse(allocs)).1
         == InnerList.Yields(Reverse(allocs)) + [None]
    ensures forall i :: 0 <= i < |elems| ==> Reverse(allocs)[i] in h
    ensures Vals(h, Reverse(allocs)) == Reverse(elems)
  {
    InnerList.IterYieldsChain(h, l.list, Reverse(allocs));
    ValsReversed(h, elems, allocs);
  }

  /** Two single nodes added to a new list are iterated newest first: the
      second, then the first, then nothing. */
  lemma AddTwoIteratesNewestFirst(h: Heap, a: Addr, b: Addr)
    requires a != Null && b != Null && a != b
    requires a in h && b in h && h[a].next == Null && h[b].next == Null
    ensures var (h1, l1) := InnerList.AddSpec(h, New().list, a, [a]);
            IsChain(h1, b, [b]) &&
            var (h2, l2) := InnerList.AddSpec(h1, l1, b, [b]);
            && IsChain(h2, l2.head, [b, a])
            && InnerList.Positioned(h2, l2, [b, a])
            && InnerList.Run(h2, l2, 3, [b, a]).1 == [Some(b), Some(a), None]
  {
    var (h1, l1) := InnerList.AddSpec(h, New().list, a, [a]);
    assert IsChain(h1, b, [b]);
    var (h2, l2) := InnerList.AddSpec(h1, l1, b, [b]);
    assert IsChain(h2, l2.head, [b, a]) by {
      assert IsChain(h2, a, [a]);
    }
    InnerList.IterYieldsChain(h2, l2, [b, a]);
    assert InnerList.Yields([b, a]) + [None] == [Some(b), Some(a), None];
  }

  /** Adding while an iteration is under way: the iteration carries on from
      its cursor, ends, and the next pass starts at the newest head. Nodes 1
      to 5 hold "first" to "fifth"; each line is one statement of the test,
      as the engine state it produces. */
  lemma MultipleIterations()
    ensures var p := InnerList.Each(InnerList.Dealloc);
            var h0 := map[1 := Node(Null, "first"), 2 := Node(Null, "second"), 3 := Node(Null, "third"),
                          4 := Node(Null, "fourth"), 5 := Node(Null, "fifth")];
            var h2 := h0[2 := Node(1, "second")];
            var h3 := h2[3 := Node(2, "third")];
            var h4 := h3[4 := Node(3, "fourth")];
            var h5 := h4[5 := Node(4, "fifth")];
            && IsChain(h0, 1, [1]) && IsChain(h0, 2, [2])
            && InnerList.AddSpec(h0, New().list, 1, [1]) == (h0, InnerList.InnerList(1, Null, p))
            && InnerList.AddSpec(h0, InnerList.InnerList(1, Null, p), 2, [2]) == (h2, InnerList.InnerList(2, Null, p))
            && InnerList.Next(h2, InnerList.InnerList(2, Null, p)) == (InnerList.InnerList(2, 2, p), Some(2))
            && IsChain(h2, 3, [3])
            && InnerList.AddSpec(h2, InnerList.InnerList(2, 2, p), 3, [3]) == (h3, InnerList.InnerList(3, 2, p))
            && InnerList.Next(h3, InnerList.InnerList(3, 2, p)) == (InnerList.InnerList(3, 1, p), Some(1))
            && IsChain(h3, 4, [4])
            && InnerList.AddSpec(h3, InnerList.InnerList(3, 1, p), 4, [4]) == (h4, InnerList.InnerList(4, 1, p))
            && InnerList.Next(h4, InnerList.InnerList(4, 1, p)) == (InnerList.InnerList(4, Null, p), None)
            && IsChain(h4, 5, [5])
            && InnerList.AddSpec(h4, InnerList.InnerList(4, Null, p), 5, [5]) == (h5, InnerList.InnerList(5, Null, p))
  {
  }

  /** The last statement of the same test: after the fifth add, the whole
      list iterates from the newest node to the oldest, then ends. */
  lemma MultipleIterationsFinalPass()
    ensures var p := InnerList.Each(InnerList.Dealloc);
            var h5 := map[1 := Node(Null, "first"), 2 := Node(1, "second"), 3 := Node(2, "third"),
                          4 := Node(3, "fourth"), 5 := Node(4, "fifth")];
            && InnerList.Positioned(h5, InnerList.InnerList(5, Null, p), [5, 4, 3, 2, 1])
            && InnerList.Run(h5, InnerList.InnerList(5, Null, p), 6, [5, 4, 3, 2, 1]).1
               == InnerList.Yields([5, 4, 3, 2, 1]) + [None]
            && Vals(h5, [5, 4, 3, 2, 1]) == ["fifth", "fourth", "third", "second", "first"]
  {
    var p := InnerList.Each(InnerList.Dealloc);
    var h5 := map[1 := Node(Null, "first"), 2 := Node(1, "second"), 3 := Node(2, "third"),
                  4 := Node(3, "fourth"), 5 := Node(4, "fifth")];
    assert IsChain(h5, 5, [5, 4, 3, 2, 1]) by {
      assert IsChain(h5, 1, [1]);
      assert IsChain(h5, 2, [2, 1]);
      assert IsChain(h5, 3, [3, 2, 1]);
      assert IsChain(h5, 4, [4, 3, 2, 1]);
    }
    InnerList.IterYieldsChain(h5, InnerList.InnerList(5, Null, p), [5, 4, 3, 2, 1]);
  }
}
