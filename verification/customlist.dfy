/**
 The custom-destructor list: adopts nodes whose owner lies outside the
 system and destroys them with a caller-supplied function. Every constructor
 as written builds a head-only engine, including `DropEach`, whose
 documentation promises per-node destruction; `DropEachIntended` is that
 promised behaviour.
 */
module CustomList {
  import opened LlItem
  import opened Chains
  import InnerList

  datatype CustomList = CustomList(list: InnerList.InnerList)

  function From(first: Addr, drop: InnerList.DropFn): CustomList
  {
    CustomList(InnerList.New(first, drop))
  }

  function New(drop: InnerList.DropFn): CustomList
  {
    CustomList(InnerList.New(Null, drop))
  }

  /** As written: the same head-only engine as `From`. */
  function DropEach(first: Addr, drop: InnerList.DropFn): CustomList
  {
    CustomList(InnerList.New(first, drop))
  }

  /** The documented behaviour of `DropEach`: a per-node engine. */
  function DropEachIntended(first: Addr, drop: InnerList.DropFn): CustomList
  {
    CustomList(InnerList.DropEach(first, drop))
  }

  /** `From` adopts the chain of `first` with the caller's destructor as a
      head-only policy: destruction is one call on `first`, whatever the
      chain's length, and none for a null start. Iteration yields the chain. */
  lemma FromDestroysHeadOnly(h: Heap, first: Addr, drop: InnerList.DropFn, s: seq<Addr>)
    requires IsChain(h, first, s)
    ensures From(first, drop).list.dropMethod == InnerList.First(drop)
    ensures InnerList.Destroyed(From(first, drop).list, s) == if s == [] then [] else [s[0]]
    ensures InnerList.Positioned(h, From(first, drop).list, s)
    ensures InnerList.Run(h, From(first, drop).list, |s| + 1, s).1 == InnerList.Yields(s) + [None]
  {
    InnerList.IterYieldsChain(h, From(first, drop).list, s);
  }

  /** `New` is empty, head-only, and destroys nothing. */
  lemma NewIsEmpty(h: Heap, drop: InnerList.DropFn)
    ensures New(drop).list.dropMethod == InnerList.First(drop) && New(drop).list.head == Null
    ensures InnerList.Next(h, New(drop).list).1 == None
    ensures InnerList.Destroyed(New(drop).list, []) == []
  {
  }

  /** As written, `DropEach` destroys only the head: on a two-node chain the
      second node is never passed to the destructor. */
  lemma DropEachSkipsTail(drop: InnerList.DropFn)
    ensures var h := map[1 := Node(2, ""), 2 := Node(Null, "")];
            && IsChain(h, 1, [1, 2])
            && InnerList.Destroyed(DropEach(1, drop).list, [1, 2]) == [1]
            && 2 !in InnerList.Destroyed(DropEach(1, drop).list, [1, 2])
  {
    var h := map[1 := Node(2, ""), 2 := Node(Null, "")];
    assert IsChain(h, 2, [2]);
  }

  /** The corrected constructor destroys every node of the adopted chain
      once, head to tail. */
  lemma DropEachIntendedDestroysEach(h: Heap, first: Addr, drop: InnerList.DropFn, s: seq<Addr>)
    requires IsChain(h, first, s)
    ensures DropEachIntended(first, drop).list.dropMethod == InnerList.Each(drop)
    ensures InnerList.Destroyed(DropEachIntended(first, drop).list, s) == s
    ensures NoDup(InnerList.Destroyed(DropEachIntended(first, drop).list, s))
  {
    ChainNodes(h, first, s);
  }

  function Head(l: CustomList): Addr
  {
    InnerList.Head(l.list)
  }

  method Add(h: Heap, l: CustomList, elem: Addr, ghost es: seq<Addr>, ghost ls: seq<Addr>)
      returns (h': Heap, l': CustomList)
    requires IsChain(h, l.list.head, ls)
    requires l.list.head != Null ==> elem != Null && IsChain(h, elem, es) && Disjoint(es, ls)
    ensures l'.list.dropMethod == l.list.dropMethod
    ensures l'.list.head == elem && l'.list.current == l.list.current
    ensures IsChain(h, elem, es) && Disjoint(es, ls) ==> IsChain(h', Head(l'), es + ls)
    ensures (h', l'.list) == InnerList.AddSpec(h, l.list, elem, es)
  {
    var inner;
    h', inner := InnerList.Add(h, l.list, elem, es, ls);
    l' := CustomList(inner);
  }

  /** Consumes the donor: its chain moves to the front and only this list's
      head-only destructor remains, one call on the donor's head. */
  method Combine(h: Heap, l: CustomList, other: CustomList, ghost os: seq<Addr>, ghost ls: seq<Addr>)
      returns (h': Heap, l': CustomList)
    requires IsChain(h, l.list.head, ls) && IsChain(h, other.list.head, os)
    requires l.list.dropMethod.First? == other.list.dropMethod.First?
    requires l.list.head != Null ==> other.list.head != Null
    requires Disjoint(os, ls)
    ensures l'.list.dropMethod == l.list.dropMethod
    ensures IsChain(h', Head(l'), os + ls)
    ensures l.list.dropMethod.First? ==>
              InnerList.Destroyed(l'.list, os + ls) == if other.list.head == Null then [] else [other.list.head]
    ensures (h', l'.list) == InnerList.AddSpec(h, l.list, other.list.head, os)
  {
    var inner;
    h', inner := InnerList.Combine(h, l.list, other.list, os, ls);
    l' := CustomList(inner);
  }

  function Next(h: Heap, l: CustomList): (r: (CustomList, Option<Addr>))
    requires l.list.head != Null && l.list.current != Null ==> l.list.current in h
    ensures r.0.list == InnerList.Next(h, l.list).0 && r.1 == InnerList.Next(h, l.list).1
  {
    var (inner, item) := InnerList.Next(h, l.list);
    (CustomList(inner), item)
  }
}
