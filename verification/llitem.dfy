/**
 The node capability: every node type that takes part in a list exposes the
 address of its successor (`GetNext`) and a way to install a new successor
 that hands back the previous one (`SetNext`). This is the behaviour that the
 `impl_LlItem!` macro generates for a struct with a `next` field.

 Addresses are natural numbers and `Null` (0) is the null pointer. Memory is
 an abstract heap from addresses to nodes.
 */
module LlItem {

  /** The conventional Some/None wrapper, the model of Rust's `Option`. */
  datatype Option<+T> = None | Some(value: T)

  type Addr = nat

  const Null: Addr := 0

  /** A node: its successor link and, standing for every other field of the
      concrete element type, a payload. */
  datatype Node = Node(next: Addr, val: string)

  type Heap = map<Addr, Node>

  /** The successor stored in the node's `next` field. */
  function GetNext(n: Node): Addr
  {
    n.next
  }

  /** Installs `next` as the successor. The second component is the previous
      successor, or None when the previous successor was null. */
  function SetNext(n: Node, next: Addr): (r: (Node, Option<Addr>))
    ensures GetNext(r.0) == next
    ensures r.0.val == n.val
    ensures r.1 == None <==> GetNext(n) == Null
    ensures r.1.Some? ==> r.1.value == GetNext(n)
  {
    var prev := n.next;
    var n' := n.(next := next);
    if prev != Null then (n', Some(prev)) else (n', None)
  }

  /** Undoing a `SetNext` with the value it returned restores the node, so
      the returned value is exactly the information the write destroyed. */
  lemma SetNextUndo(n: Node, next: Addr)
    ensures var (n', prev) := SetNext(n, next);
            SetNext(n', if prev.Some? then prev.value else Null).0 == n
  {
  }

  /** A second `SetNext` supersedes the first, and reports the first's value. */
  lemma SetNextTwice(n: Node, a: Addr, b: Addr)
    ensures SetNext(SetNext(n, a).0, b).0 == SetNext(n, b).0
    ensures SetNext(SetNext(n, a).0, b).1 == (if a == Null then None else Some(a))
  {
  }

  /** Writes the link of the node at `a` through `SetNext`; every other
      address keeps its node. */
  function SetLink(h: Heap, a: Addr, next: Addr): (h': Heap)
    requires a in h
    ensures h'.Keys == h.Keys
    ensures GetNext(h'[a]) == next && h'[a].val == h[a].val
    ensures forall b :: b in h && b != a ==> h'[b] == h[b]
  {
    h[a := SetNext(h[a], next).0]
  }
}
