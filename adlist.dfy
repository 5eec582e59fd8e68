/**
 * The generic doubly linked list (adlist): nodes linked both ways through
 * `prev` and `next`, a list header with `head`, `tail` and `len`, and an
 * iterator that walks the nodes from either end.
 *
 * The ghost field `nodes` of a list is the sequence of its nodes from head
 * to tail; `Valid()` ties the pointers to it, and `Values()` is the
 * sequence of values the list holds.
 */
module AdList {

  datatype Option<T> = None | Some(value: T)

  /** AL_START_HEAD and AL_START_TAIL: the two directions of an iterator. */
  const AL_START_HEAD: int := 0
  const AL_START_TAIL: int := 1

  /** listNode: one node, its value fixed when it is made. */
  class Node<T> {
    var prev: Node?<T>
    var next: Node?<T>
    const value: T

    constructor (v: T)
      ensures prev == null && next == null && value == v
    {
      prev := null;
      next := null;
      value := v;
    }
  }

  // ---------------------------------------------------------------------------
  // Sequences of nodes

  /** Nodes i and j of `ns`, i before j, are different nodes. */
  ghost predicate Apart<T>(ns: seq<Node<T>>, i: int, j: int)
  {
    0 <= i < j < |ns| && ns[i] != ns[j]
  }

  /** The nodes of `ns` are pairwise distinct. */
  ghost predicate Distinct<T>(ns: seq<Node<T>>)
  {
    forall i, j :: 0 <= i < j < |ns| ==> Apart(ns, i, j)
  }

  /** The position of `x` in `ns`. */
  ghost function IndexOf<T>(ns: seq<Node<T>>, x: Node<T>): (k: nat)
    requires x in ns
    ensures k < |ns| && ns[k] == x && x !in ns[..k]
  {
    if ns[0] == x then 0
    else
      assert x in ns[1..];
      var k := 1 + IndexOf(ns[1..], x);
      assert ns[..k] == [ns[0]] + ns[1..][..k - 1];
      k
  }

  /** In a sequence of distinct nodes a node is found at its only position. */
  lemma IndexOfDistinct<T>(ns: seq<Node<T>>, k: nat)
    requires Distinct(ns) && k < |ns|
    ensures IndexOf(ns, ns[k]) == k
  {
    var first := IndexOf(ns, ns[k]);
    assert first < k ==> Apart(ns, first, k);
  }

  function Reverse<T>(s: seq<T>): (r: seq<T>)
    ensures |r| == |s|
    ensures forall i :: 0 <= i < |s| ==> r[i] == s[|s| - 1 - i]
  {
    if s == [] then [] else Reverse(s[1..]) + [s[0]]
  }

  /**
   * The nodes an iterator positioned at `next` has still to return, in
   * order: from `next` to the tail when it walks from the head, from
   * `next` back to the head when it walks from the tail.
   */
  ghost function Pending<T>(ns: seq<Node<T>>, next: Node?<T>, direction: int): seq<Node<T>>
  {
    if next == null || next !in ns then []
    else
      var k := IndexOf(ns, next);
      if direction == AL_START_HEAD then ns[k..] else Reverse(ns[..k + 1])
  }

  /**
   * Deleting the node an iterator has just returned leaves what it has
   * still to return unchanged: walking from the head the iterator already
   * points at the successor, walking from the tail at the predecessor.
   */
  lemma {:induction false} DeleteKeepsPending<T>(ns: seq<Node<T>>, k: nat, next: Node?<T>, direction: int)
    requires Distinct(ns) && k < |ns|
    requires direction == AL_START_HEAD ==> next == if k + 1 < |ns| then ns[k + 1] else null
    requires direction != AL_START_HEAD ==> next == if k > 0 then ns[k - 1] else null
    ensures Pending(ns[..k] + ns[k + 1..], next, direction) == Pending(ns, next, direction)
  {
    var rest := ns[..k] + ns[k + 1..];
    if next != null {
      if direction == AL_START_HEAD {
        IndexOfDistinct(ns, k + 1);
        assert rest[k] == next;
        DistinctRemove(ns, k);
        IndexOfDistinct(rest, k);
        assert rest[k..] == ns[k + 1..];
      } else {
        IndexOfDistinct(ns, k - 1);
        assert rest[k - 1] == next;
        DistinctRemove(ns, k);
        IndexOfDistinct(rest, k - 1);
        assert rest[..k] == ns[..k];
      }
    }
  }

  lemma DistinctRemove<T>(ns: seq<Node<T>>, k: nat)
    requires Distinct(ns) && k < |ns|
    ensures Distinct(ns[..k] + ns[k + 1..])
  {
    var r := ns[..k] + ns[k + 1..];
    forall i, j | 0 <= i < j < |r| ensures Apart(r, i, j) {
      var i' := if i < k then i else i + 1;
      var j' := if j < k then j else j + 1;
      assert r[i] == ns[i'] && r[j] == ns[j'] && Apart(ns, i', j');
    }
  }

  /** The values held by a sequence of nodes. */
  ghost function ValuesOf<T>(ns: seq<Node<T>>): (s: seq<T>)
    ensures |s| == |ns| && forall i :: 0 <= i < |ns| ==> s[i] == ns[i].value
  {
    seq(|ns|, i requires 0 <= i < |ns| => ns[i].value)
  }

  lemma ValuesOfAppend<T>(a: seq<Node<T>>, b: seq<Node<T>>)
    ensures ValuesOf(a + b) == ValuesOf(a) + ValuesOf(b)
  {
  }

  // ---------------------------------------------------------------------------
  // Callbacks

  /**
   * The `match` callback of a list: with none set, a node matches a key
   * when its value is the key itself.
   */
  function Matches<T(==)>(matcher: Option<(T, T) -> bool>, v: T, key: T): bool
  {
    match matcher
    case Some(m) => m(v, key)
    case None => v == key
  }

  /**
   * The values listDup stores in the copy: each value passed through the
   * `dup` callback when one is set, or the value itself; None as soon as
   * the callback fails on one of them.
   */
  function Duplicated<T>(dup: Option<T -> Option<T>>, s: seq<T>): Option<seq<T>>
    decreases |s|
  {
    if s == [] then Some([])
    else
      match Duplicated(dup, s[..|s| - 1])
      case None => None
      case Some(r) =>
        match DupOne(dup, s[|s| - 1])
        case None => None
        case Some(v) => Some(r + [v])
  }

  function DupOne<T>(dup: Option<T -> Option<T>>, v: T): Option<T>
  {
    match dup
    case None => Some(v)
    case Some(f) => f(v)
  }

  /**
   * What Duplicated means: it fails exactly when the callback fails on some
   * value, and otherwise copies each value through the callback.
   */
  lemma {:induction false} DuplicatedSpec<T>(dup: Option<T -> Option<T>>, s: seq<T>)
    ensures Duplicated(dup, s).None? <==> exists i :: 0 <= i < |s| && DupOne(dup, s[i]).None?
    ensures Duplicated(dup, s).Some? ==>
      |Duplicated(dup, s).value| == |s| &&
      forall i :: 0 <= i < |s| ==> Some(Duplicated(dup, s).value[i]) == DupOne(dup, s[i])
    decreases |s|
  {
    if s != [] {
      var init := s[..|s| - 1];
      DuplicatedSpec(dup, init);
      if Duplicated(dup, s).None? && Duplicated(dup, init).None? {
        var i :| 0 <= i < |init| && DupOne(dup, init[i]).None?;
        assert s[i] == init[i];
      }
      if Duplicated(dup, s).Some? {
        forall i | 0 <= i < |s| ensures Some(Duplicated(dup, s).value[i]) == DupOne(dup, s[i]) {
          if i < |init| {
            assert s[i] == init[i];
          }
        }
      } else {
        forall i | 0 <= i < |init| && DupOne(dup, init[i]).None? ensures DupOne(dup, s[i]).None? {
          assert s[i] == init[i];
        }
      }
    }
  }

  /** Without a callback listDup copies the values unchanged. */
  lemma DuplicatedWithoutCallback<T>(s: seq<T>)
    ensures Duplicated(None, s) == Some(s)
  {
    DuplicatedSpec(None, s);
    assert Duplicated(None, s).value == s;
  }

  // ---------------------------------------------------------------------------
  // Links between the nodes of a sequence

  /** Node i + 1 of `ns` follows node i: they are linked both ways. */
  ghost predicate Follows<T>(ns: seq<Node<T>>, i: int)
    reads ns
  {
    0 <= i < |ns| - 1 && ns[i].next == ns[i + 1] && ns[i + 1].prev == ns[i]
  }

  /** Each node of `ns` and the next one are linked both ways. */
  ghost predicate Linked<T>(ns: seq<Node<T>>)
    reads ns
  {
    forall i :: 0 <= i < |ns| - 1 ==> Follows(ns, i)
  }

  /** As Linked, except perhaps for the pairs (i, i + 1) with lo <= i < hi. */
  ghost predicate LinkedBut<T>(ns: seq<Node<T>>, lo: int, hi: int)
    reads ns
  {
    forall i :: 0 <= i < |ns| - 1 && (i < lo || hi <= i) ==> Follows(ns, i)
  }

  /** A node linked in at `pos` of a sequence broken only there gives a linked sequence. */
  lemma InsertLinked<T>(ns: seq<Node<T>>, pos: nat, node: Node<T>)
    requires pos <= |ns| && LinkedBut(ns, pos - 1, pos)
    requires pos > 0 ==> node.prev == ns[pos - 1] && ns[pos - 1].next == node
    requires pos < |ns| ==> node.next == ns[pos] && ns[pos].prev == node
    ensures Linked(ns[..pos] + [node] + ns[pos..])
  {
    var r := ns[..pos] + [node] + ns[pos..];
    forall i | 0 <= i < |r| - 1 ensures Follows(r, i) {
      if i < pos - 1 {
        assert Follows(ns, i) && r[i] == ns[i] && r[i + 1] == ns[i + 1];
      } else if i > pos {
        assert Follows(ns, i - 1) && r[i] == ns[i - 1] && r[i + 1] == ns[i];
      }
    }
  }

  /** Node k taken out of a sequence broken only around it, its neighbours joined. */
  lemma RemoveLinked<T>(ns: seq<Node<T>>, k: nat)
    requires k < |ns| && LinkedBut(ns, k - 1, k + 1)
    requires 0 < k < |ns| - 1 ==> ns[k - 1].next == ns[k + 1] && ns[k + 1].prev == ns[k - 1]
    ensures Linked(ns[..k] + ns[k + 1..])
  {
    var r := ns[..k] + ns[k + 1..];
    forall i | 0 <= i < |r| - 1 ensures Follows(r, i) {
      if i < k - 1 {
        assert Follows(ns, i) && r[i] == ns[i] && r[i + 1] == ns[i + 1];
      } else if i >= k {
        assert Follows(ns, i + 1) && r[i] == ns[i + 1] && r[i + 1] == ns[i + 2];
      }
    }
  }

  /** Two linked sequences, the last of one linked to the first of the other. */
  lemma ConcatLinked<T>(a: seq<Node<T>>, b: seq<Node<T>>)
    requires Linked(a) && Linked(b)
    requires |a| > 0 && |b| > 0 ==> a[|a| - 1].next == b[0] && b[0].prev == a[|a| - 1]
    ensures Linked(a + b)
  {
    var r := a + b;
    forall i | 0 <= i < |r| - 1 ensures Follows(r, i) {
      if i < |a| - 1 {
        assert Follows(a, i) && r[i] == a[i] && r[i + 1] == a[i + 1];
      } else if i >= |a| {
        assert Follows(b, i - |a|) && r[i] == b[i - |a|] && r[i + 1] == b[i - |a| + 1];
      }
    }
  }

  lemma DistinctInsert<T>(ns: seq<Node<T>>, pos: nat, node: Node<T>)
    requires Distinct(ns) && pos <= |ns| && node !in ns
    ensures Distinct(ns[..pos] + [node] + ns[pos..])
  {
    var r := ns[..pos] + [node] + ns[pos..];
    forall i, j | 0 <= i < j < |r| ensures Apart(r, i, j) {
      if j < pos {
        assert r[i] == ns[i] && r[j] == ns[j] && Apart(ns, i, j);
      } else if j == pos {
        assert r[i] == ns[i];
      } else if i < pos {
        assert r[i] == ns[i] && r[j] == ns[j - 1] && Apart(ns, i, j - 1);
      } else if i == pos {
        assert r[j] == ns[j - 1];
      } else {
        assert r[i] == ns[i - 1] && r[j] == ns[j - 1] && Apart(ns, i - 1, j - 1);
      }
    }
  }

  lemma DistinctConcat<T>(a: seq<Node<T>>, b: seq<Node<T>>)
    requires Distinct(a) && Distinct(b)
    requires forall i, j :: 0 <= i < |a| && 0 <= j < |b| ==> a[i] != b[j]
    ensures Distinct(a + b)
  {
    var r := a + b;
    forall i, j | 0 <= i < j < |r| ensures Apart(r, i, j) {
      if j < |a| {
        assert r[i] == a[i] && r[j] == a[j] && Apart(a, i, j);
      } else if i < |a| {
        assert r[i] == a[i] && r[j] == b[j - |a|];
      } else {
        assert r[i] == b[i - |a|] && r[j] == b[j - |a|] && Apart(b, i - |a|, j - |a|);
      }
    }
  }

  lemma ValuesOfInsert<T>(ns: seq<Node<T>>, pos: nat, node: Node<T>)
    requires pos <= |ns|
    ensures ValuesOf(ns[..pos] + [node] + ns[pos..]) == ValuesOf(ns)[..pos] + [node.value] + ValuesOf(ns)[pos..]
  {
  }

  lemma ValuesOfRemove<T>(ns: seq<Node<T>>, k: nat)
    requires k < |ns|
    ensures ValuesOf(ns[..k] + ns[k + 1..]) == ValuesOf(ns)[..k] + ValuesOf(ns)[k + 1..]
  {
  }

  // ---------------------------------------------------------------------------
  // The list

  /** list: the header of a doubly linked list. */
  class List<T(==)> {
    var head: Node?<T>
    var tail: Node?<T>
    var len: nat
    ghost var nodes: seq<Node<T>>

    /**
     * `head` and `tail` are the first and last node (null when empty), the
     * end pointers are null, neighbours are linked both ways, the nodes are
     * distinct and `len` counts them.
     */
    ghost predicate Valid()
      reads this, nodes
    {
      && len == |nodes|
      && (|nodes| == 0 ==> head == null && tail == null)
      && (|nodes| > 0 ==>
            && head == nodes[0] && tail == nodes[|nodes| - 1]
            && nodes[0].prev == null && nodes[|nodes| - 1].next == null)
      && Linked(nodes)
      && Distinct(nodes)
    }

    /** The values of the list, head to tail. */
    ghost function Values(): (s: seq<T>)
      reads this
    {
      ValuesOf(nodes)
    }

    /** listCreate: an empty list. */
    constructor ()
      ensures Valid() && nodes == [] && Values() == []
      ensures head == null && tail == null && len == 0
    {
      head := null;
      tail := null;
      len := 0;
      nodes := [];
    }

    /**
     * listEmpty: drop every node, handing each value to the `free` callback
     * in order from the head; `freed` is the sequence of values handed over.
     */
    method Empty() returns (freed: seq<T>)
      requires Valid()
      modifies this
      ensures Valid() && nodes == [] && Values() == []
      ensures head == null && tail == null && len == 0
      ensures freed == old(Values())
    {
      var current := head;
      var n := len;
      freed := [];
      while n > 0
        invariant 0 <= n <= len
        invariant current == if len - n < |nodes| then nodes[len - n] else null
        invariant freed == Values()[..len - n]
      {
        assert len - n + 1 < |nodes| ==> Follows(nodes, len - n);
        var next := current.next;
        freed := freed + [current.value];
        current := next;
        n := n - 1;
      }
      assert Values()[..len] == Values();
      head, tail, len := null, null, 0;
      nodes := [];
    }

    /**
     * The common step of listAddNodeHead, listAddNodeTail and
     * listInsertNode once the new node is linked in: with the old nodes
     * broken only at `pos` and the new node linked there, the list holds
     * the new node at `pos`.
     */
    lemma LinkedIn(ns: seq<Node<T>>, pos: nat, node: Node<T>)
      requires Distinct(ns) && pos <= |ns| && node !in ns && LinkedBut(ns, pos - 1, pos)
      requires pos > 0 ==> node.prev == ns[pos - 1] && ns[pos - 1].next == node
      requires pos < |ns| ==> node.next == ns[pos] && ns[pos].prev == node
      requires pos == 0 ==> node.prev == null && head == node
      requires pos == |ns| ==> node.next == null && tail == node
      requires pos > 0 ==> ns[0].prev == null && head == ns[0]
      requires pos < |ns| ==> ns[|ns| - 1].next == null && tail == ns[|ns| - 1]
      requires nodes == ns[..pos] + [node] + ns[pos..] && len == |nodes|
      ensures Valid() && Values() == ValuesOf(ns)[..pos] + [node.value] + ValuesOf(ns)[pos..]
    {
      InsertLinked(ns, pos, node);
      DistinctInsert(ns, pos, node);
      ValuesOfInsert(ns, pos, node);
    }

    /** listAddNodeHead: a new node holding `value` becomes the head. */
    method AddNodeHead(value: T)
      requires Valid()
      modifies this, nodes
      ensures Valid() && len == old(len) + 1
      ensures |nodes| > 0 && fresh(nodes[0]) && nodes[1..] == old(nodes)
      ensures Values() == [value] + old(Values())
    {
      ghost var ns := nodes;
      var node := new Node(value);
      if len == 0 {
        head := node;
        tail := node;
      } else {
        node.next := head;
        head := node;
      }
      LinkNeighbours(node, 0);
      assert nodes[1..] == ns;
    }

    /** listAddNodeTail: a new node holding `value` becomes the tail. */
    method AddNodeTail(value: T)
      requires Valid()
      modifies this, nodes
      ensures Valid() && len == old(len) + 1
      ensures |nodes| > 0 && fresh(nodes[|nodes| - 1]) && nodes[..|nodes| - 1] == old(nodes)
      ensures Values() == old(Values()) + [value]
    {
      ghost var ns := nodes;
      var node := new Node(value);
      if len == 0 {
        head := node;
        tail := node;
      } else {
        node.prev := tail;
        tail := node;
      }
      LinkNeighbours(node, |ns|);
      assert nodes[..|nodes| - 1] == ns;
    }

    /**
     * listInsertNode: a new node holding `value` goes right after `oldNode`
     * when `after` is non-zero and right before it otherwise; the tail
     * (head) moves only when `oldNode` was the tail (head).
     */
    method InsertNode(oldNode: Node<T>, value: T, after: int)
      requires Valid() && oldNode in nodes
      modifies this, nodes
      ensures Valid() && len == old(len) + 1
      ensures var pos := if after != 0 then old(IndexOf(nodes, oldNode)) + 1 else old(IndexOf(nodes, oldNode));
        && |nodes| == old(|nodes|) + 1 && fresh(nodes[pos])
        && nodes == old(nodes)[..pos] + [nodes[pos]] + old(nodes)[pos..]
        && Values() == old(Values())[..pos] + [value] + old(Values())[pos..]
        && head == (if after == 0 && old(head) == oldNode then nodes[pos] else old(head))
        && tail == (if after != 0 && old(tail) == oldNode then nodes[pos] else old(tail))
    {
      ghost var ns := nodes;
      ghost var k := IndexOf(nodes, oldNode);
      ghost var pos := if after != 0 then k + 1 else k;
      ghost var left: Node?<T> := if pos > 0 then ns[pos - 1] else null;
      ghost var right: Node?<T> := if pos < |ns| then ns[pos] else null;
      assert k > 0 ==> Follows(ns, k - 1);
      assert k + 1 < |ns| ==> Follows(ns, k);
      var node := new Node(value);
      assert node !in ns;
      if after != 0 {
        node.prev := oldNode;
        node.next := oldNode.next;
        if tail == oldNode {
          tail := node;
        }
      } else {
        node.next := oldNode;
        node.prev := oldNode.prev;
        if head == oldNode {
          head := node;
        }
      }
      assert node.prev == left && node.next == right;
      LinkNeighbours(node, pos);
      assert old(Values()) == ValuesOf(ns) && old(IndexOf(nodes, oldNode)) == k;
      assert nodes[pos] == node;
      assert head == if after == 0 && old(head) == oldNode then node else old(head);
      assert tail == if after != 0 && old(tail) == oldNode then node else old(tail);
    }

    /**
     * The second half of listInsertNode: `node` already points at the
     * nodes that will be its neighbours (null past either end) and the
     * head or tail already names it where it becomes one; the neighbours
     * are pointed back at it and the list takes it at `pos`.
     */
    method LinkNeighbours(node: Node<T>, ghost pos: nat)
      requires Linked(nodes) && Distinct(nodes) && len == |nodes| && pos <= |nodes| && node !in nodes
      requires node.prev == (if pos > 0 then nodes[pos - 1] else null)
      requires node.next == (if pos < |nodes| then nodes[pos] else null)
      requires head == (if pos == 0 then node else nodes[0])
      requires tail == (if pos == |nodes| then node else nodes[|nodes| - 1])
      requires |nodes| > 0 ==> nodes[0].prev == null && nodes[|nodes| - 1].next == null
      modifies this, nodes
      ensures Valid() && nodes == old(nodes)[..pos] + [node] + old(nodes)[pos..]
      ensures Values() == old(Values())[..pos] + [node.value] + old(Values())[pos..]
      ensures head == old(head) && tail == old(tail) && len == old(len) + 1
    {
      ghost var ns := nodes;
      assert 0 < pos < |ns| ==> Apart(ns, 0, pos) && Apart(ns, pos - 1, |ns| - 1);
      if node.prev != null {
        node.prev.next := node;
      }
      if node.next != null {
        node.next.prev := node;
      }
      len := len + 1;
      nodes := ns[..pos] + [node] + ns[pos..];
      forall i | 0 <= i < |ns| - 1 && (i < pos - 1 || pos <= i)
        ensures ns[i].next == ns[i + 1] && ns[i + 1].prev == ns[i]
      {
        assert old(Follows(ns, i));
        assert pos > 0 ==> if i < pos - 1 then Apart(ns, i, pos - 1) else Apart(ns, pos - 1, i);
        assert pos < |ns| ==> if i + 1 < pos then Apart(ns, i + 1, pos) else Apart(ns, pos, i + 1);
      }
      assert LinkedBut(ns, pos - 1, pos);
      LinkedIn(ns, pos, node);
    }

    /** After the pointer updates of `DelNode`, the list without `ns[k]` is well formed. */
    lemma UnlinkedOut(ns: seq<Node<T>>, k: nat)
      requires Distinct(ns) && k < |ns| && LinkedBut(ns, k - 1, k + 1)
      requires 0 < k < |ns| - 1 ==> ns[k - 1].next == ns[k + 1] && ns[k + 1].prev == ns[k - 1]
      requires k == 0 ==> head == (if |ns| > 1 then ns[1] else null)
      requires k == |ns| - 1 ==> tail == (if k > 0 then ns[k - 1] else null)
      requires k > 0 ==> ns[0].prev == null && head == ns[0] && ns[k - 1].next == (if k < |ns| - 1 then ns[k + 1] else null)
      requires k < |ns| - 1 ==> ns[|ns| - 1].next == null && tail == ns[|ns| - 1] && ns[k + 1].prev == (if k > 0 then ns[k - 1] else null)
      requires nodes == ns[..k] + ns[k + 1..] && len == |nodes|
      ensures Valid() && Values() == ValuesOf(ns)[..k] + ValuesOf(ns)[k + 1..]
    {
      RemoveLinked(ns, k);
      DistinctRemove(ns, k);
      ValuesOfRemove(ns, k);
    }

    /**
     * listDelNode: unlink `node`; the others keep their order, and the head
     * (tail) moves to its successor (predecessor) when it was the head (tail).
     * `freed` is the value handed to the `free` callback.
     */
    method DelNode(node: Node<T>) returns (freed: T)
      requires Valid() && node in nodes
      modifies this, nodes
      ensures Valid() && len == old(len) - 1 && freed == node.value
      ensures var k := old(IndexOf(nodes, node));
        && nodes == old(nodes)[..k] + old(nodes)[k + 1..]
        && Values() == old(Values())[..k] + old(Values())[k + 1..]
      ensures head == if old(head) == node then old(node.next) else old(head)
      ensures tail == if old(tail) == node then old(node.prev) else old(tail)
    {
      ghost var ns := nodes;
      ghost var k := IndexOf(nodes, node);
      ghost var before, after := node.prev, node.next;
      assert k > 0 ==> Follows(ns, k - 1);
      assert k + 1 < |ns| ==> Follows(ns, k);
      assert before == if k > 0 then ns[k - 1] else null;
      assert after == if k < |ns| - 1 then ns[k + 1] else null;
      assert 0 < k < |ns| - 1 ==> Apart(ns, 0, k + 1) && Apart(ns, k - 1, |ns| - 1);
      if node.prev != null {
        node.prev.next := node.next;
      } else {
        head := node.next;
      }
      if node.next != null {
        node.next.prev := node.prev;
      } else {
        tail := node.prev;
      }
      freed := node.value;
      len := len - 1;
      nodes := ns[..k] + ns[k + 1..];
      forall i | 0 <= i < |ns| - 1 && (i < k - 1 || k + 1 <= i)
        ensures ns[i].next == ns[i + 1] && ns[i + 1].prev == ns[i]
      {
        assert old(Follows(ns, i));
        assert k > 0 ==> if i < k - 1 then Apart(ns, i, k - 1) else Apart(ns, k - 1, i);
        assert k + 1 < |ns| ==> if i + 1 < k + 1 then Apart(ns, i + 1, k + 1) else Apart(ns, k + 1, i + 1);
      }
      UnlinkedOut(ns, k);
      assert old(Values()) == ValuesOf(ns) && old(IndexOf(nodes, node)) == k;
      assert head == if old(head) == node then after else old(head);
      assert tail == if old(tail) == node then before else old(tail);
    }

    /** listRotate: the tail node moves to the head; a list of at most one node is left alone. */
    method Rotate()
      requires Valid()
      modifies this, nodes
      ensures Valid() && len == old(len)
      ensures old(len) <= 1 ==> nodes == old(nodes)
      ensures old(len) > 1 ==> nodes == [old(nodes)[old(len) - 1]] + old(nodes)[..old(len) - 1]
      ensures Values() == if old(len) <= 1 then old(Values())
                          else [old(Values())[old(len) - 1]] + old(Values())[..old(len) - 1]
    {
      var t := tail;
      if len <= 1 {
        return;
      }
      ghost var ns := nodes;
      ghost var init := ns[..|ns| - 1];
      assert Follows(ns, |ns| - 2);
      tail := t.prev;
      tail.next := null;
      head.prev := t;
      t.prev := null;
      t.next := head;
      head := t;
      nodes := [t] + init;
      assert Linked(init) by {
        forall i | 0 <= i < |init| - 1 ensures init[i].next == init[i + 1] && init[i + 1].prev == init[i] {
          assert old(Follows(ns, i)) && init[i] == ns[i] && init[i + 1] == ns[i + 1];
          assert Apart(ns, i, |ns| - 2) && Apart(ns, i, |ns| - 1) && Apart(ns, 0, i + 1) && Apart(ns, i + 1, |ns| - 1);
        }
      }
      ConcatLinked([t], init);
      assert ns == init + [t];
      DistinctRotate(ns);
      ValuesOfAppend(init, [t]);
      ValuesOfAppend([t], init);
    }

    /**
     * listJoin: append the nodes of `o` to this list and leave `o` empty
     * but valid.
     */
    method Join(o: List<T>)
      requires Valid() && o.Valid() && o != this
      requires forall i, j :: 0 <= i < |nodes| && 0 <= j < |o.nodes| ==> nodes[i] != o.nodes[j]
      modifies this, nodes, o, o.nodes
      ensures Valid() && o.Valid()
      ensures nodes == old(nodes) + old(o.nodes) && len == old(len) + old(o.len)
      ensures Values() == old(Values()) + old(o.Values())
      ensures o.nodes == [] && o.Values() == [] && o.head == null && o.tail == null && o.len == 0
    {
      Append(o);
      o.Forget();
    }

    /** The first half of listJoin: the nodes of `o` are linked in after the tail. */
    method Append(o: List<T>)
      requires Valid() && o.Valid() && o != this
      requires forall i, j :: 0 <= i < |nodes| && 0 <= j < |o.nodes| ==> nodes[i] != o.nodes[j]
      modifies this, nodes, o.nodes
      ensures Valid() && nodes == old(nodes) + old(o.nodes) && len == old(len) + old(o.len)
      ensures Values() == old(Values()) + old(o.Values())
    {
      ghost var a, b := nodes, o.nodes;
      if o.head != null {
        o.head.prev := tail;
      }
      if tail != null {
        tail.next := o.head;
      } else {
        head := o.head;
      }
      if o.tail != null {
        tail := o.tail;
      }
      len := len + o.len;
      nodes := nodes + o.nodes;
      assert Linked(a) by {
        forall i | 0 <= i < |a| - 1 ensures a[i].next == a[i + 1] && a[i + 1].prev == a[i] {
          assert old(Follows(a, i)) && Apart(a, i, |a| - 1) && (|b| > 0 ==> a[i + 1] != b[0]);
        }
      }
      assert Linked(b) by {
        forall i | 0 <= i < |b| - 1 ensures b[i].next == b[i + 1] && b[i + 1].prev == b[i] {
          assert old(Follows(b, i)) && Apart(b, 0, i + 1) && (|a| > 0 ==> b[i] != a[|a| - 1]);
        }
      }
      ConcatLinked(a, b);
      DistinctConcat(a, b);
      ValuesOfAppend(a, b);
    }

    /**
     * The second half of listJoin: the list lets go of its nodes, which
     * now belong to the other list, and is left empty.
     */
    method Forget()
      modifies this
      ensures Valid() && nodes == [] && Values() == []
      ensures head == null && tail == null && len == 0
    {
      head, tail, len := null, null, 0;
      nodes := [];
    }

    /**
     * listIndex: the node at `index` counting from the head when `index` is
     * non-negative, and from the tail when it is negative (-1 is the tail);
     * null when out of range.
     */
    method Index(index: int) returns (n: Node?<T>)
      requires Valid()
      ensures 0 <= index < len ==> n == nodes[index]
      ensures index < 0 && len + index >= 0 ==> n == nodes[len + index]
      ensures (index >= len || len + index < 0) ==> n == null
      ensures n != null ==> n.value == Values()[if index >= 0 then index else len + index]
    {
      if index < 0 {
        var k := -index - 1;
        n := tail;
        ghost var i: int := len - 1;
        while k != 0 && n != null
          invariant i == len - 1 - (-index - 1 - k) && 0 <= k <= -index - 1
          invariant n == if 0 <= i then nodes[i] else null
        {
          assert i > 0 ==> Follows(nodes, i - 1);
          k := k - 1;
          n := n.prev;
          i := i - 1;
        }
      } else {
        var k := index;
        n := head;
        ghost var i := 0;
        while k != 0 && n != null
          invariant i == index - k && 0 <= k <= index
          invariant n == if i < len then nodes[i] else null
        {
          assert i + 1 < len ==> Follows(nodes, i);
          k := k - 1;
          n := n.next;
          i := i + 1;
        }
      }
    }

    /**
     * listSearchKey: the first node from the head whose value matches
     * `key`, or null when none does.
     */
    method SearchKey(key: T, matcher: Option<(T, T) -> bool>) returns (node: Node?<T>)
      requires Valid()
      ensures node == null <==> forall i :: 0 <= i < len ==> !Matches(matcher, Values()[i], key)
      ensures node != null ==> exists k :: 0 <= k < len && node == nodes[k]
                                             && Matches(matcher, Values()[k], key)
                                             && forall i :: 0 <= i < k ==> !Matches(matcher, Values()[i], key)
    {
      node := head;
      ghost var i := 0;
      while node != null
        invariant 0 <= i <= len && node == if i < len then nodes[i] else null
        invariant forall j :: 0 <= j < i ==> !Matches(matcher, Values()[j], key)
        decreases len - i
      {
        if Matches(matcher, node.value, key) {
          assert Values()[i] == node.value;
          return;
        }
        assert i + 1 < len ==> Follows(nodes, i);
        node := node.next;
        i := i + 1;
      }
    }

    /**
     * listDup: a new list with the values passed through the `dup`
     * callback (or copied when none is set), or null when the callback
     * fails on a value. The original list is not modified.
     */
    method Dup(dup: Option<T -> Option<T>>) returns (copy: List?<T>)
      requires Valid()
      ensures copy == null <==> Duplicated(dup, Values()).None?
      ensures copy != null ==> fresh(copy) && copy.Valid() && Some(copy.Values()) == Duplicated(dup, Values())
      ensures copy != null ==> forall j :: 0 <= j < |copy.nodes| ==> fresh(copy.nodes[j])
    {
      ghost var ns, vs := nodes, Values();
      var c := new List();
      var node := head;
      ghost var i := 0;
      while node != null
        invariant 0 <= i <= |ns| && node == if i < |ns| then ns[i] else null
        invariant fresh(c) && c.Valid() && forall j :: 0 <= j < |c.nodes| ==> fresh(c.nodes[j])
        invariant Duplicated(dup, vs[..i]) == Some(c.Values())
        decreases |ns| - i
      {
        assert node.value == vs[i];
        assert i + 1 < |ns| ==> Follows(ns, i);
        assert node.next == if i + 1 < |ns| then ns[i + 1] else null;
        assert vs[..i + 1][..i] == vs[..i];
        var value;
        if dup.Some? {
          var r := dup.value(node.value);
          if r.None? {
            DuplicatedPrefix(dup, vs, i + 1);
            return null;
          }
          value := r.value;
        } else {
          value := node.value;
        }
        assert forall m :: m in c.nodes ==> fresh(m);
        c.AddNodeTail(value);
        node := node.next;
        i := i + 1;
      }
      assert vs[..i] == vs;
      copy := c;
    }
  }

  lemma DistinctRotate<T>(ns: seq<Node<T>>)
    requires Distinct(ns) && |ns| > 0
    ensures Distinct([ns[|ns| - 1]] + ns[..|ns| - 1])
  {
    var r := [ns[|ns| - 1]] + ns[..|ns| - 1];
    forall i, j | 0 <= i < j < |r| ensures Apart(r, i, j) {
      if i == 0 {
        assert r[j] == ns[j - 1] && Apart(ns, j - 1, |ns| - 1);
      } else {
        assert r[i] == ns[i - 1] && r[j] == ns[j - 1] && Apart(ns, i - 1, j - 1);
      }
    }
  }

  /** Once duplication fails on a prefix it fails on the whole sequence. */
  lemma {:induction false} DuplicatedPrefix<T>(dup: Option<T -> Option<T>>, s: seq<T>, k: nat)
    requires k <= |s| && Duplicated(dup, s[..k]).None?
    ensures Duplicated(dup, s).None?
    decreases |s| - k
  {
    if k < |s| {
      assert s[..k + 1][..k] == s[..k];
      DuplicatedPrefix(dup, s, k + 1);
    } else {
      assert s[..k] == s;
    }
  }

  /** listIter: the next node to return and the direction of the walk. */
  class ListIter<T(==)> {
    var next: Node?<T>
    var direction: int

    /** listGetIterator: an iterator at the head (AL_START_HEAD) or at the tail (any other direction). */
    constructor (l: List<T>, direction: int)
      requires l.Valid()
      ensures this.direction == direction
      ensures next == if direction == AL_START_HEAD then l.head else l.tail
      ensures Pending(l.nodes, next, direction) ==
        if direction == AL_START_HEAD then l.nodes else Reverse(l.nodes)
    {
      this.direction := direction;
      next := if direction == AL_START_HEAD then l.head else l.tail;
      new;
      StartPending(l, direction);
    }

    /** listRewind: back to the head, walking towards the tail. */
    method Rewind(l: List<T>)
      requires l.Valid()
      modifies this
      ensures direction == AL_START_HEAD && next == l.head
      ensures Pending(l.nodes, next, direction) == l.nodes
    {
      next := l.head;
      direction := AL_START_HEAD;
      StartPending(l, direction);
    }

    /** listRewindTail: back to the tail, walking towards the head. */
    method RewindTail(l: List<T>)
      requires l.Valid()
      modifies this
      ensures direction == AL_START_TAIL && next == l.tail
      ensures Pending(l.nodes, next, direction) == Reverse(l.nodes)
    {
      next := l.tail;
      direction := AL_START_TAIL;
      StartPending(l, direction);
    }

    /**
     * listNext: return the current node and step to its successor
     * (walking from the head) or predecessor (walking from the tail); null
     * once the walk is over.
     */
    method Next() returns (current: Node?<T>)
      modifies this
      ensures current == old(next) && direction == old(direction)
      ensures current == null ==> next == null
      ensures current != null ==> next == if direction == AL_START_HEAD then current.next else current.prev
    {
      current := next;
      if current != null {
        if direction == AL_START_HEAD {
          next := current.next;
        } else {
          next := current.prev;
        }
      }
    }
  }

  /** A fresh or rewound iterator has every node still to return. */
  lemma StartPending<T>(l: List<T>, direction: int)
    requires l.Valid()
    ensures Pending(l.nodes, if direction == AL_START_HEAD then l.head else l.tail, direction)
         == if direction == AL_START_HEAD then l.nodes else Reverse(l.nodes)
  {
    if |l.nodes| > 0 {
      IndexOfDistinct(l.nodes, 0);
      IndexOfDistinct(l.nodes, |l.nodes| - 1);
      assert l.nodes[..|l.nodes|] == l.nodes;
    }
  }

  /**
   * One step of listNext on a valid list returns the first pending node,
   * and the nodes still pending afterwards are the rest.
   */
  lemma NextStep<T>(l: List<T>, current: Node<T>, direction: int)
    requires l.Valid() && current in l.nodes
    ensures var after := if direction == AL_START_HEAD then current.next else current.prev;
      Pending(l.nodes, current, direction) == [current] + Pending(l.nodes, after, direction)
  {
    var ns := l.nodes;
    var k := IndexOf(ns, current);
    if direction == AL_START_HEAD {
      assert k + 1 < |ns| ==> Follows(ns, k);
      assert current.next == if k + 1 < |ns| then ns[k + 1] else null;
      PendingFromHead(ns, k);
    } else {
      assert k > 0 ==> Follows(ns, k - 1);
      assert current.prev == if k > 0 then ns[k - 1] else null;
      PendingFromTail(ns, k, direction);
    }
  }

  lemma PendingFromHead<T>(ns: seq<Node<T>>, k: nat)
    requires Distinct(ns) && k < |ns|
    ensures Pending(ns, ns[k], AL_START_HEAD)
         == [ns[k]] + Pending(ns, if k + 1 < |ns| then ns[k + 1] else null, AL_START_HEAD)
  {
    IndexOfDistinct(ns, k);
    if k + 1 < |ns| {
      IndexOfDistinct(ns, k + 1);
    }
    assert ns[k..] == [ns[k]] + ns[k + 1..];
  }

  lemma PendingFromTail<T>(ns: seq<Node<T>>, k: nat, direction: int)
    requires Distinct(ns) && k < |ns| && direction != AL_START_HEAD
    ensures Pending(ns, ns[k], direction)
         == [ns[k]] + Pending(ns, if k > 0 then ns[k - 1] else null, direction)
  {
    IndexOfDistinct(ns, k);
    if k > 0 {
      IndexOfDistinct(ns, k - 1);
      assert ns[..k + 1] == ns[..k] + [ns[k]];
    }
    assert Reverse(ns[..k + 1]) == [ns[k]] + Reverse(ns[..k]);
  }
}
