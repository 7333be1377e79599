/**
 Chains over the abstract heap: `IsChain(h, a, s)` says that following the
 links from `a` visits exactly the distinct, non-null addresses `s`, in order,
 and then reaches `Null`. This is the list invariant that every engine
 operation assumes and preserves.
 */
module Chains {
  import opened LlItem

  ghost predicate IsChain(h: Heap, a: Addr, s: seq<Addr>)
    decreases |s|
  {
    if s == [] then a == Null
    else a == s[0] && a != Null && a in h && a !in s[1..] && IsChain(h, h[a].next, s[1..])
  }

  /** No address occurs twice. */
  ghost predicate NoDup(s: seq<Addr>)
  {
    forall i, j :: 0 <= i < j < |s| ==> s[i] != s[j]
  }

  ghost predicate Disjoint(s: seq<Addr>, t: seq<Addr>)
  {
    forall x :: x in s ==> x !in t
  }

  function Reverse<T>(s: seq<T>): (r: seq<T>)
    ensures |r| == |s|
  {
    if s == [] then [] else Reverse(s[1..]) + [s[0]]
  }

  lemma {:induction false} ReverseIndex<T>(s: seq<T>, i: int)
    requires 0 <= i < |s|
    ensures Reverse(s)[i] == s[|s| - 1 - i]
    decreases |s|
  {
    if i < |s| - 1 {
      ReverseIndex(s[1..], i);
    }
  }

  lemma {:induction false} ReverseSnoc<T>(s: seq<T>, x: T)
    ensures Reverse(s + [x]) == [x] + Reverse(s)
    decreases |s|
  {
    if s != [] {
      assert (s + [x])[1..] == s[1..] + [x];
      ReverseSnoc(s[1..], x);
    } else {
      assert s + [x] == [x];
    }
  }

  /** Every node of a chain is allocated, and a chain never revisits a node. */
  lemma {:induction false} ChainNodes(h: Heap, a: Addr, s: seq<Addr>)
    requires IsChain(h, a, s)
    ensures NoDup(s)
    ensures forall x :: x in s ==> x != Null && x in h
    decreases |s|
  {
    if s != [] {
      ChainNodes(h, h[a].next, s[1..]);
      assert forall x :: x in s ==> x == s[0] || x in s[1..];
      forall i, j | 0 <= i < j < |s| ensures s[i] != s[j] {
        if i > 0 {
          assert s[i] == s[1..][i - 1] && s[j] == s[1..][j - 1];
        } else {
          assert s[j] in s[1..];
        }
      }
    }
  }

  /** The node at position `k` links to position `k + 1`, or to Null after the
      last node: a chain is exactly what a walk along the links visits. */
  lemma {:induction false} ChainStep(h: Heap, a: Addr, s: seq<Addr>, k: int)
    requires IsChain(h, a, s)
    requires 0 <= k < |s|
    ensures s[k] in h
    ensures h[s[k]].next == (if k + 1 < |s| then s[k + 1] else Null)
    decreases |s|
  {
    if k > 0 {
      ChainStep(h, h[a].next, s[1..], k - 1);
    } else if |s| > 1 {
      assert IsChain(h, h[a].next, s[1..]);
    }
  }

  /** A chain survives any heap change that keeps its own nodes' links. */
  lemma {:induction false} ChainFrame(h: Heap, h': Heap, a: Addr, s: seq<Addr>)
    requires IsChain(h, a, s)
    requires forall x :: x in s ==> x in h && x in h' && h'[x].next == h[x].next
    ensures IsChain(h', a, s)
    decreases |s|
  {
    if s != [] {
      ChainFrame(h, h', h[a].next, s[1..]);
    }
  }

  /** Linking the last node of the chain `es` to the start `b` of the disjoint
      chain `ls` yields the chain `es + ls`. */
  lemma {:induction false} ChainSplice(h: Heap, a: Addr, es: seq<Addr>, b: Addr, ls: seq<Addr>)
    requires IsChain(h, a, es) && es != []
    requires IsChain(h, b, ls)
    requires Disjoint(es, ls)
    ensures es[|es| - 1] in h
    ensures IsChain(SetLink(h, es[|es| - 1], b), a, es + ls)
    decreases |es|
  {
    ChainNodes(h, a, es);
    ChainNodes(h, b, ls);
    var last := es[|es| - 1];
    var h' := SetLink(h, last, b);
    assert (es + ls)[1..] == es[1..] + ls;
    if |es| == 1 {
      ChainFrame(h, h', b, ls);
    } else {
      ChainSplice(h, h[a].next, es[1..], b, ls);
      assert es[1..][|es[1..]| - 1] == last;
      assert a != last by {
        assert es[0] != es[|es| - 1];
      }
    }
  }

  lemma NoDupConcat(s: seq<Addr>, t: seq<Addr>)
    requires NoDup(s) && NoDup(t) && Disjoint(s, t)
    ensures NoDup(s + t)
  {
    forall i, j | 0 <= i < j < |s + t| ensures (s + t)[i] != (s + t)[j] {
      if j >= |s| && i < |s| {
        assert (s + t)[i] in s && (s + t)[j] in t;
      }
    }
  }

  /** In a sequence without repetitions, each member occurs exactly once. */
  lemma {:induction false} NoDupOnce(s: seq<Addr>, x: Addr)
    requires NoDup(s)
    requires x in s
    ensures multiset(s)[x] == 1
    decreases |s|
  {
    assert s == [s[0]] + s[1..];
    if s[0] == x {
      assert x !in s[1..] by {
        forall j | 1 <= j < |s| ensures s[j] != x { assert s[0] != s[j]; }
      }
    } else {
      NoDupOnce(s[1..], x);
    }
  }
}
