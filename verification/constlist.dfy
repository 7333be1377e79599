/**
 The transferring view: takes over an engine, with its destruction duty,
 and offers only `Head` and iteration. It has no operation that writes the
 heap, so its chain stays as it was handed over.
 */
module ConstList {
  import opened LlItem
  import opened Chains
  import InnerList
  import List
  import CustomList

  datatype ConstList = ConstList(list: InnerList.InnerList)

  /** Adopts a natively allocated chain: per-node policy with `Dealloc`. */
  function From(first: Addr): ConstList
  {
    ConstList(InnerList.DropEach(first, InnerList.Dealloc))
  }

  /** Takes the owning list's engine as it is. */
  function FromList(l: List.List): ConstList
  {
    ConstList(l.list)
  }

  /** Takes the custom-destructor list's engine as it is. */
  function FromCustom(l: CustomList.CustomList): ConstList
  {
    ConstList(l.list)
  }

  function Head(c: ConstList): Addr
  {
    InnerList.Head(c.list)
  }

  function Next(h: Heap, c: ConstList): (r: (ConstList, Option<Addr>))
    requires c.list.head != Null && c.list.current != Null ==> c.list.current in h
    ensures r.0.list == InnerList.Next(h, c.list).0 && r.1 == InnerList.Next(h, c.list).1
  {
    var (inner, item) := InnerList.Next(h, c.list);
    (ConstList(inner), item)
  }

  /** Adopting a raw chain gives a view that destroys each node with
      `Dealloc`, once, in chain order. */
  lemma FromDestroysEach(h: Heap, first: Addr, s: seq<Addr>)
    requires IsChain(h, first, s)
    ensures Head(From(first)) == first
    ensures From(first).list.dropMethod == InnerList.Each(InnerList.Dealloc)
    ensures InnerList.Destroyed(From(first).list, s) == s
    ensures NoDup(InnerList.Destroyed(From(first).list, s))
  {
    ChainNodes(h, first, s);
  }

  /** Taking over an owning list keeps its head, cursor and policy, so the
      view destroys exactly what the list would have, every node once; the
      donor is consumed and no second destruction exists. An iteration under
      way continues where it was. */
  lemma FromListTakesOver(h: Heap, l: List.List, s: seq<Addr>)
    requires List.Owning(l) && IsChain(h, l.list.head, s)
    ensures Head(FromList(l)) == List.Head(l)
    ensures FromList(l).list.current == l.list.current
    ensures InnerList.Destroyed(FromList(l).list, s) == s
    ensures forall a :: a in s ==> multiset(InnerList.Destroyed(FromList(l).list, s))[a] == 1
  {
    ChainNodes(h, l.list.head, s);
    forall a | a in s ensures multiset(s)[a] == 1 {
      NoDupOnce(s, a);
    }
  }

  /** Taking over a custom-destructor list keeps its head-only policy and
      its destructor: destruction stays one call on the head. */
  lemma FromCustomTakesOver(l: CustomList.CustomList, s: seq<Addr>)
    requires l.list.dropMethod.First?
    ensures Head(FromCustom(l)) == CustomList.Head(l)
    ensures FromCustom(l).list.dropMethod == l.list.dropMethod
    ensures FromCustom(l).list.current == l.list.current
    ensures InnerList.Destroyed(FromCustom(l).list, s) == if l.list.head == Null then [] else [l.list.head]
  {
  }

  /** `n` steps of iteration over the view. */
  ghost function Run(h: Heap, c: ConstList, n: nat, s: seq<Addr>): (ConstList, seq<Option<Addr>>)
    requires InnerList.Positioned(h, c.list, s)
    decreases n
  {
    if n == 0 then (c, [])
    else
      InnerList.NextPreserves(h, c.list, s);
      var step := Next(h, c);
      var rest := Run(h, step.0, n - 1, s);
      (rest.0, [step.1] + rest.1)
  }

  /** However long the view is iterated, its head, policy and chain are
      those it was built with, and it yields what the engine yields. */
  lemma {:induction false} ViewIsFrozen(h: Heap, c: ConstList, n: nat, s: seq<Addr>)
    requires InnerList.Positioned(h, c.list, s)
    ensures Head(Run(h, c, n, s).0) == Head(c)
    ensures Run(h, c, n, s).0.list.dropMethod == c.list.dropMethod
    ensures InnerList.Positioned(h, Run(h, c, n, s).0.list, s)
    ensures Run(h, c, n, s).0.list == InnerList.Run(h, c.list, n, s).0
    ensures Run(h, c, n, s).1 == InnerList.Run(h, c.list, n, s).1
    decreases n
  {
    if n > 0 {
      InnerList.NextPreserves(h, c.list, s);
      ViewIsFrozen(h, Next(h, c).0, n - 1, s);
    }
  }
}
