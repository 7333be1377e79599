/**
 The list engine: a head address, an iteration cursor and a destruction
 policy. It prepends chains (`Add`), absorbs another engine (`Combine`),
 destroys its chain under its policy (`Drop`) and iterates (`Next`).

 The engine's operations are pure: they take the heap and return the new
 heap and engine. A destructor call is recorded in a log; once called on a
 node, that node is gone from the heap, so nothing may read it afterwards.
 */
module InnerList {
  import opened LlItem
  import opened Chains

  /** The destructor function a policy holds. `Dealloc` is the closure the
      owning list and the transferring view install (run the element's
      teardown, then release its block); `Custom(id)` is a caller-supplied
      function. */
  datatype DropFn = Dealloc | Custom(id: nat)

  /** `First`: call the destructor once, on the head. `Each`: call it on every
      node, head to tail. */
  datatype DropType = First(drop: DropFn) | Each(drop: DropFn)

  datatype InnerList = InnerList(head: Addr, current: Addr, dropMethod: DropType)

  function Create(first: Addr, drop: DropType): InnerList
  {
    InnerList(first, Null, drop)
  }

  /** The head-only constructor. */
  function New(first: Addr, drop: DropFn): InnerList
  {
    Create(first, First(drop))
  }

  /** The per-node constructor. */
  function DropEach(first: Addr, drop: DropFn): InnerList
  {
    Create(first, Each(drop))
  }

  function Head(l: InnerList): Addr
  {
    l.head
  }

  /** The head is the chain's first node, or Null exactly when the chain is
      empty. */
  lemma HeadIsFirstNode(h: Heap, l: InnerList, s: seq<Addr>)
    requires IsChain(h, l.head, s)
    ensures Head(l) == Null <==> s == []
    ensures s != [] ==> Head(l) == s[0]
  {
  }

  // ---------------------------------------------------------------- add

  /** The state `Add` leaves behind, given the chain `es` that starts at
      `elem`: on an empty list only the head moves; otherwise the last node
      of `es` is linked to the old head. */
  ghost function AddSpec(h: Heap, l: InnerList, elem: Addr, es: seq<Addr>): (Heap, InnerList)
    requires l.head != Null ==> IsChain(h, elem, es) && es != []
  {
    if l.head == Null then (h, l.(head := elem))
    else
      ChainStep(h, elem, es, |es| - 1);
      (SetLink(h, es[|es| - 1], l.head), l.(head := elem))
  }

  /** Prepends the chain that starts at `elem`. `ls` is the current chain and
      `es` the chain of `elem`; the source dereferences `elem` whenever the
      list is non-empty, so then `elem` must be a non-null chain that shares
      no node with the list. */
  method Add(h: Heap, l: InnerList, elem: Addr, ghost es: seq<Addr>, ghost ls: seq<Addr>)
      returns (h': Heap, l': InnerList)
    requires IsChain(h, l.head, ls)
    requires l.head != Null ==> elem != Null && IsChain(h, elem, es) && Disjoint(es, ls)
    ensures l'.head == elem && l'.current == l.current && l'.dropMethod == l.dropMethod
    ensures l.head == Null ==> h' == h
    ensures IsChain(h, elem, es) && Disjoint(es, ls) ==> IsChain(h', l'.head, es + ls)
    ensures h'.Keys == h.Keys
    ensures forall a :: a in h ==> h'[a].val == h[a].val
    ensures l.head != Null ==> es != [] && es[|es| - 1] in h
    ensures l.head != Null ==> GetNext(h'[es[|es| - 1]]) == l.head
    ensures l.head != Null ==> forall a :: a in h && a != es[|es| - 1] ==> h'[a] == h[a]
    ensures (h', l') == AddSpec(h, l, elem, es)
  {
    h' := h;
    if l.head != Null {
      var last := elem;
      ghost var k := 0;
      while GetNext(h[last]) != Null
        invariant 0 <= k < |es|
        invariant last == es[k]
        invariant IsChain(h, last, es[k..])
        decreases |es| - k
      {
        last := GetNext(h[last]);
        k := k + 1;
      }
      assert k == |es| - 1 by {
        assert IsChain(h, GetNext(h[last]), es[k + 1..]);
      }
      h' := SetLink(h, last, l.head);
      ChainSplice(h, elem, es, l.head, ls);
      ChainNodes(h, elem, es);
    } else {
      assert es + ls == es;
    }
    l' := l.(head := elem);
  }

  // ---------------------------------------------------------------- combine

  /** Splices the donor's chain `os` in front of this list's chain `ls`. The
      donor is consumed and never destroyed: only the receiving engine is
      left to destroy the nodes. The source demands compatible policies, and
      it dereferences the donor's head whenever this list is non-empty. */
  method Combine(h: Heap, l: InnerList, other: InnerList, ghost os: seq<Addr>, ghost ls: seq<Addr>)
      returns (h': Heap, l': InnerList)
    requires IsChain(h, l.head, ls) && IsChain(h, other.head, os)
    requires l.dropMethod.First? == other.dropMethod.First?
    requires l.head != Null ==> other.head != Null
    requires Disjoint(os, ls)
    ensures IsChain(h', l'.head, os + ls)
    ensures l'.current == l.current && l'.dropMethod == l.dropMethod
    ensures (h', l') == AddSpec(h, l, other.head, os)
  {
    h', l' := Add(h, l, Head(other), os, ls);
  }

  /** `AddSpec` splices: with `elem` heading a chain `es` disjoint from the
      list's chain `ls`, the new head starts the chain `es + ls`. */
  lemma AddSpecSplices(h: Heap, l: InnerList, elem: Addr, es: seq<Addr>, ls: seq<Addr>)
    requires IsChain(h, l.head, ls) && IsChain(h, elem, es)
    requires l.head != Null ==> elem != Null
    requires Disjoint(es, ls)
    ensures AddSpec(h, l, elem, es).1 == l.(head := elem)
    ensures IsChain(AddSpec(h, l, elem, es).0, elem, es + ls)
  {
    if l.head != Null {
      ChainSplice(h, elem, es, l.head, ls);
    } else {
      assert es + ls == es;
    }
  }

  /** After a combine, an iteration from the reset cursor yields the donor's
      nodes first, then this list's. */
  lemma CombineIteratesDonorFirst(h: Heap, l: InnerList, other: InnerList, os: seq<Addr>, ls: seq<Addr>)
    requires IsChain(h, l.head, ls) && IsChain(h, other.head, os)
    requires l.head != Null ==> other.head != Null
    requires Disjoint(os, ls)
    requires l.current == Null
    ensures Positioned(AddSpec(h, l, other.head, os).0, AddSpec(h, l, other.head, os).1, os + ls)
    ensures Run(AddSpec(h, l, other.head, os).0, AddSpec(h, l, other.head, os).1, |os + ls| + 1, os + ls)
         == (AddSpec(h, l, other.head, os).1, Yields(os + ls) + [None])
  {
    AddSpecSplices(h, l, other.head, os, ls);
    IterYieldsChain(AddSpec(h, l, other.head, os).0, AddSpec(h, l, other.head, os).1, os + ls);
  }

  /** Under the per-node policy, destroying the combined list calls the
      destructor exactly once on every node of both chains and on nothing
      else. */
  lemma CombineDestroysEachOnce(h: Heap, l: InnerList, other: InnerList, os: seq<Addr>, ls: seq<Addr>)
    requires IsChain(h, l.head, ls) && IsChain(h, other.head, os)
    requires l.dropMethod.Each?
    requires l.head != Null ==> other.head != Null
    requires Disjoint(os, ls)
    ensures forall a :: a in os || a in ls ==> multiset(Destroyed(AddSpec(h, l, other.head, os).1, os + ls))[a] == 1
    ensures forall a :: a in Destroyed(AddSpec(h, l, other.head, os).1, os + ls) ==> a in os || a in ls
  {
    AddSpecSplices(h, l, other.head, os, ls);
    ChainNodes(AddSpec(h, l, other.head, os).0, other.head, os + ls);
    forall a | a in os || a in ls ensures multiset(os + ls)[a] == 1 {
      NoDupOnce(os + ls, a);
    }
  }

  /** Adding the donor's head with `Add` and then letting both engines be
      destroyed, which `Combine` avoids by consuming the donor, destroys the
      donor's first node twice. */
  lemma NaiveAddDestroysTwice(h: Heap, l: InnerList, other: InnerList, os: seq<Addr>, ls: seq<Addr>)
    requires IsChain(h, l.head, ls) && IsChain(h, other.head, os)
    requires l.dropMethod.Each? && other.dropMethod.Each?
    requires other.head != Null
    requires Disjoint(os, ls)
    ensures var (h', l') := AddSpec(h, l, other.head, os);
            multiset(Destroyed(l', os + ls) + Destroyed(other, os))[other.head] == 2
  {
    ChainNodes(h, l.head, ls);
    ChainNodes(h, other.head, os);
    NoDupConcat(os, ls);
    assert other.head in os;
    NoDupOnce(os, other.head);
    NoDupOnce(os + ls, other.head);
    var l' := AddSpec(h, l, other.head, os).1;
    assert Destroyed(l', os + ls) == os + ls;
  }

  // ---------------------------------------------------------------- drop

  /** The destructor calls the policy makes, for the chain `s` of the head:
      one call on the head under `First` (none on an empty list), one call per
      node in chain order under `Each`. */
  ghost function Destroyed(l: InnerList, s: seq<Addr>): seq<Addr>
  {
    match l.dropMethod
    case First(_) => if l.head == Null then [] else [l.head]
    case Each(_) => s
  }

  /** Runs the engine's destruction. `log` lists the addresses passed to the
      policy's destructor, in call order; each call invalidates its node, so
      the returned heap lacks every destroyed node. Under `Each` the loop
      reads a node's successor before destroying it, which the verifier
      checks: a read of a destroyed node would be a read outside the heap. */
  method Drop(h: Heap, l: InnerList, ghost s: seq<Addr>) returns (log: seq<Addr>, h': Heap)
    requires l.dropMethod.Each? ==> IsChain(h, l.head, s)
    ensures log == Destroyed(l, s)
    ensures l.dropMethod.First? ==> |log| <= 1 && (l.head != Null <==> log == [l.head])
    ensures l.dropMethod.Each? ==> |log| == |s| && NoDup(log)
    ensures forall a :: a in h' <==> a in h && a !in log
    ensures forall a :: a in h' ==> h'[a] == h[a]
  {
    match l.dropMethod
    case First(_) =>
      if l.head != Null {
        log := [l.head];
        h' := h - {l.head};
      } else {
        log := [];
        h' := h;
      }
    case Each(_) =>
      var next := Head(l);
      log := [];
      h' := h;
      ghost var k := 0;
      while next != Null
        invariant 0 <= k <= |s|
        invariant log == s[..k]
        invariant IsChain(h', next, s[k..])
        invariant forall a :: a in h' <==> a in h && a !in log
        invariant forall a :: a in h' ==> h'[a] == h[a]
        decreases |s| - k
      {
        var tmp := next;
        ChainNodes(h', tmp, s[k..]);
        assert s[k..][1..] == s[k + 1..];
        next := GetNext(h'[next]);
        ChainFrame(h', h' - {tmp}, next, s[k + 1..]);
        h' := h' - {tmp};
        log := log + [tmp];
        assert s[..k + 1] == s[..k] + [s[k]];
        k := k + 1;
      }
      assert s[..k] == s;
      ChainNodes(h, l.head, s);
  }

  // ---------------------------------------------------------------- iteration

  /** One step of the cursor machine. On an empty list it yields nothing.
      A null cursor (not started, or just exhausted) moves to the head. Any
      other cursor follows its node's link; reaching Null yields nothing and
      leaves the cursor null, so the following step restarts at the head. */
  function Next(h: Heap, l: InnerList): (r: (InnerList, Option<Addr>))
    requires l.head != Null && l.current != Null ==> l.current in h
    ensures r.0.head == l.head && r.0.dropMethod == l.dropMethod
    ensures l.head == Null ==> r.1 == None
    ensures r.1.Some? ==> r.1.value != Null && r.1.value == r.0.current
    ensures l.head != Null && r.1 == None ==> r.0.current == Null
    ensures l.head != Null && l.current == Null ==> r.1 == Some(l.head)
  {
    if l.head == Null then (l, None)
    else if l.current == Null then
      var l' := l.(current := l.head);
      (l', Some(l'.current))
    else
      var l' := l.(current := GetNext(h[l.current]));
      if l'.current == Null then (l', None) else (l', Some(l'.current))
  }

  /** The cursor is reset or on a node of the chain `s`. */
  ghost predicate Positioned(h: Heap, l: InnerList, s: seq<Addr>)
  {
    IsChain(h, l.head, s) && (l.current == Null || l.current in s)
  }

  lemma NextPreserves(h: Heap, l: InnerList, s: seq<Addr>)
    requires Positioned(h, l, s)
    ensures l.current != Null ==> l.current in h
    ensures Positioned(h, Next(h, l).0, s)
  {
    ChainNodes(h, l.head, s);
    if l.current != Null {
      var k :| 0 <= k < |s| && s[k] == l.current;
      ChainStep(h, l.head, s, k);
    }
  }

  /** `n` steps of the cursor machine: the final engine and what each step
      yielded. */
  ghost function Run(h: Heap, l: InnerList, n: nat, s: seq<Addr>): (InnerList, seq<Option<Addr>>)
    requires Positioned(h, l, s)
    decreases n
  {
    if n == 0 then (l, [])
    else
      NextPreserves(h, l, s);
      var step := Next(h, l);
      var rest := Run(h, step.0, n - 1, s);
      (rest.0, [step.1] + rest.1)
  }

  /** The items yielded for the nodes `s`, in order. */
  function Yields(s: seq<Addr>): (r: seq<Option<Addr>>)
    ensures |r| == |s|
    ensures forall i :: 0 <= i < |s| ==> r[i] == Some(s[i])
  {
    if s == [] then [] else [Some(s[0])] + Yields(s[1..])
  }

  /** Iteration never changes the head or the policy, however long it runs,
      and keeps the cursor on the chain. */
  lemma {:induction false} RunKeepsList(h: Heap, l: InnerList, n: nat, s: seq<Addr>)
    requires Positioned(h, l, s)
    ensures Run(h, l, n, s).0.head == l.head
    ensures Run(h, l, n, s).0.dropMethod == l.dropMethod
    ensures Positioned(h, Run(h, l, n, s).0, s)
    ensures |Run(h, l, n, s).1| == n
    decreases n
  {
    if n > 0 {
      NextPreserves(h, l, s);
      RunKeepsList(h, Next(h, l).0, n - 1, s);
    }
  }

  /** Running `m + n` steps is running `m`, then `n` more. */
  lemma {:induction false} RunSplit(h: Heap, l: InnerList, m: nat, n: nat, s: seq<Addr>)
    requires Positioned(h, l, s)
    ensures Positioned(h, Run(h, l, m, s).0, s)
    ensures Run(h, l, m + n, s)
         == (Run(h, Run(h, l, m, s).0, n, s).0, Run(h, l, m, s).1 + Run(h, Run(h, l, m, s).0, n, s).1)
    decreases m
  {
    RunKeepsList(h, l, m, s);
    if m > 0 {
      NextPreserves(h, l, s);
      var step := Next(h, l);
      RunSplit(h, step.0, m - 1, n, s);
      var a := Run(h, step.0, m - 1, s);
      var b := Run(h, a.0, n, s);
      assert Run(h, step.0, (m - 1) + n, s) == (b.0, a.1 + b.1);
      assert Run(h, l, m, s) == (a.0, [step.1] + a.1);
      assert Run(h, l, m + n, s) == (b.0, [step.1] + (a.1 + b.1));
      assert [step.1] + (a.1 + b.1) == ([step.1] + a.1) + b.1;
    } else {
      assert Run(h, l, 0, s) == (l, []);
      assert [] + Run(h, l, n, s).1 == Run(h, l, n, s).1;
    }
  }

  /** From the cursor on node `k`, the remaining steps yield the nodes after
      `k` and then nothing, leaving the cursor null. */
  lemma {:induction false} IterFrom(h: Heap, l: InnerList, s: seq<Addr>, k: nat)
    requires IsChain(h, l.head, s)
    requires k < |s| && l.current == s[k]
    ensures Positioned(h, l, s)
    ensures Run(h, l, |s| - k, s) == (l.(current := Null), Yields(s[k + 1..]) + [None])
    decreases |s| - k
  {
    ChainStep(h, l.head, s, k);
    ChainNodes(h, l.head, s);
    var step := Next(h, l);
    NextPreserves(h, l, s);
    var rest := Run(h, step.0, |s| - k - 1, s);
    assert Run(h, l, |s| - k, s) == (rest.0, [step.1] + rest.1);
    assert l.head != Null by { assert s[0] in s; }
    if k + 1 < |s| {
      assert s[k + 1] in s;
      assert step == (l.(current := s[k + 1]), Some(s[k + 1]));
      IterFrom(h, step.0, s, k + 1);
      assert rest == (l.(current := Null), Yields(s[k + 2..]) + [None]);
      assert Yields(s[k + 1..]) == [Some(s[k + 1])] + Yields(s[k + 2..]) by {
        assert s[k + 1..][1..] == s[k + 2..];
      }
      assert [step.1] + rest.1 == Yields(s[k + 1..]) + [None];
    } else {
      assert step == (l.(current := Null), None);
      assert s[k + 1..] == [];
      assert rest == (l.(current := Null), []);
      assert [step.1] + rest.1 == Yields(s[k + 1..]) + [None];
    }
  }

  /** From a reset cursor, iteration yields the whole chain in order, then
      nothing, and is back in its starting state: an empty list yields
      nothing at once. */
  lemma IterYieldsChain(h: Heap, l: InnerList, s: seq<Addr>)
    requires IsChain(h, l.head, s) && l.current == Null
    ensures Positioned(h, l, s)
    ensures Run(h, l, |s| + 1, s) == (l, Yields(s) + [None])
  {
    var step := Next(h, l);
    NextPreserves(h, l, s);
    var rest := Run(h, step.0, |s|, s);
    assert Run(h, l, |s| + 1, s) == (rest.0, [step.1] + rest.1);
    if s != [] {
      assert step == (l.(current := s[0]), Some(s[0]));
      IterFrom(h, step.0, s, 0);
      assert step.0.(current := Null) == l;
      assert rest == (l, Yields(s[1..]) + [None]);
      assert Yields(s) == [Some(s[0])] + Yields(s[1..]);
      assert [step.1] + rest.1 == Yields(s) + [None];
    } else {
      assert step == (l, None);
      assert rest == (l, []);
      assert [step.1] + rest.1 == Yields(s) + [None];
    }
  }

  /** After exhausting the list, the next pass starts again at the head: two
      full passes yield the chain twice. */
  lemma IterRestarts(h: Heap, l: InnerList, s: seq<Addr>)
    requires IsChain(h, l.head, s) && l.current == Null
    ensures Positioned(h, l, s)
    ensures Run(h, l, 2 * (|s| + 1), s) == (l, Yields(s) + [None] + Yields(s) + [None])
  {
    IterYieldsChain(h, l, s);
    RunSplit(h, l, |s| + 1, |s| + 1, s);
    assert 2 * (|s| + 1) == (|s| + 1) + (|s| + 1);
    assert Yields(s) + [None] + (Yields(s) + [None]) == Yields(s) + [None] + Yields(s) + [None];
  }

  /** `Add` leaves the cursor where it was: an iteration under way yields the
      same next item as it would have without the `Add`. */
  lemma AddKeepsIteration(h: Heap, l: InnerList, elem: Addr, es: seq<Addr>, ls: seq<Addr>)
    requires Positioned(h, l, ls) && l.head != Null && l.current != Null
    requires elem != Null && IsChain(h, elem, es) && Disjoint(es, ls)
    ensures var (h', l') := AddSpec(h, l, elem, es);
            l'.current in h' && l.current in h && Next(h', l').1 == Next(h, l).1
  {
    ChainNodes(h, l.head, ls);
    ChainNodes(h, elem, es);
    assert l.current !in es;
  }
}
