/**
 * The singly linked list behind the bounded history stack
 * (src/components/RadialTree/utils/Stack.js, class LinkedList).
 *
 * Every list keeps a ghost sequence `Nodes` of the nodes reachable from
 * `head`, in order; `Valid()` ties `head`, `tail` and the `next` fields
 * to it. The public view of a list is `Contents()`, the values of those
 * nodes.
 */
module LinkedLists {

  /** A node of the chain. The list code never writes `value`, only `next`. */
  class Node<T> {
    const value: T
    var next: Node?<T>

    constructor (value: T, next: Node?<T>)
      ensures this.value == value && this.next == next
    {
      this.value := value;
      this.next := next;
    }
  }

  /** The values held by a sequence of nodes, in the same order. */
  function Values<T>(nodes: seq<Node<T>>): seq<T>
  {
    seq(|nodes|, i requires 0 <= i < |nodes| => nodes[i].value)
  }

  ghost function NodeSet<T>(nodes: seq<Node<T>>): set<object>
  {
    set n | n in nodes
  }

  /** The node at position `i`; it names the positions `Distinct` speaks about. */
  ghost function At<T>(nodes: seq<Node<T>>, i: int): Node<T>
    requires 0 <= i < |nodes|
  {
    nodes[i]
  }

  /**
   * No node occurs twice in `nodes`. The positions are written through `At`
   * so that the fact is only used where a proof asks for it (`DistinctApart`).
   */
  ghost predicate Distinct<T>(nodes: seq<Node<T>>)
  {
    forall i, j :: 0 <= i < j < |nodes| ==> At(nodes, i) != At(nodes, j)
  }

  lemma DistinctApart<T>(nodes: seq<Node<T>>, a: int, b: int)
    requires Distinct(nodes) && 0 <= a < |nodes| && 0 <= b < |nodes| && a != b
    ensures nodes[a] != nodes[b]
  {
    if a < b {
      assert At(nodes, a) != At(nodes, b);
    } else {
      assert At(nodes, b) != At(nodes, a);
    }
  }

  lemma DistinctSlice<T>(nodes: seq<Node<T>>, a: int, b: int)
    requires Distinct(nodes) && 0 <= a <= b <= |nodes|
    ensures Distinct(nodes[a..b])
  {
    var s := nodes[a..b];
    forall i, j | 0 <= i < j < |s| ensures At(s, i) != At(s, j) {
      DistinctApart(nodes, a + i, a + j);
    }
  }

  lemma DistinctCons<T>(x: Node<T>, nodes: seq<Node<T>>)
    requires Distinct(nodes) && x !in nodes
    ensures Distinct([x] + nodes)
  {
    var s := [x] + nodes;
    forall i, j | 0 <= i < j < |s| ensures At(s, i) != At(s, j) {
      if 0 < i {
        DistinctApart(nodes, i - 1, j - 1);
      } else {
        assert s[j] == nodes[j - 1];
      }
    }
  }

  lemma DistinctSnoc<T>(nodes: seq<Node<T>>, x: Node<T>)
    requires Distinct(nodes) && x !in nodes
    ensures Distinct(nodes + [x])
  {
    var s := nodes + [x];
    forall i, j | 0 <= i < j < |s| ensures At(s, i) != At(s, j) {
      if j < |nodes| {
        DistinctApart(nodes, i, j);
      } else {
        assert s[i] == nodes[i];
      }
    }
  }

  /** The sequence `s` with every element equal to `v` removed, order kept. */
  function Without<T(==)>(s: seq<T>, v: T): seq<T>
  {
    if s == [] then []
    else Without(s[..|s| - 1], v) + (if s[|s| - 1] == v then [] else [s[|s| - 1]])
  }

  /** The nodes of `nodes` whose value is not `v`, order kept. */
  ghost function FilterNodes<T>(nodes: seq<Node<T>>, v: T): seq<Node<T>>
  {
    if nodes == [] then []
    else
      var last := nodes[|nodes| - 1];
      FilterNodes(nodes[..|nodes| - 1], v) + (if last.value == v then [] else [last])
  }

  /** The last node of `nodes` whose value is `v`, or null when there is none. */
  ghost function LastMatching<T>(nodes: seq<Node<T>>, v: T): Node?<T>
  {
    if nodes == [] then null
    else if nodes[|nodes| - 1].value == v then nodes[|nodes| - 1]
    else LastMatching(nodes[..|nodes| - 1], v)
  }

  lemma FilterNodesPrefix<T>(nodes: seq<Node<T>>, j: nat, v: T)
    requires j < |nodes|
    ensures FilterNodes(nodes[..j + 1], v) ==
      FilterNodes(nodes[..j], v) + (if nodes[j].value == v then [] else [nodes[j]])
    ensures LastMatching(nodes[..j + 1], v) ==
      if nodes[j].value == v then nodes[j] else LastMatching(nodes[..j], v)
  {
    assert nodes[..j + 1][..j] == nodes[..j];
  }

  /** Each node's `next` is the node after it in `nodes`. */
  ghost predicate Chained<T>(nodes: seq<Node<T>>)
    reads nodes
  {
    forall i :: 0 <= i < |nodes| - 1 ==> nodes[i].next == nodes[i + 1]
  }

  /**
   * `head` and `tail` delimit the chain `nodes`: both are null exactly when
   * `nodes` is empty, following `next` from `head` visits `nodes` in order
   * without repeating a node, and `tail` is the last node.
   */
  ghost predicate Shape<T>(head: Node?<T>, tail: Node?<T>, nodes: seq<Node<T>>)
    reads nodes
  {
    && (nodes == [] ==> head == null && tail == null)
    && (nodes != [] ==>
          && head == nodes[0]
          && tail == nodes[|nodes| - 1]
          && tail.next == null)
    && Chained(nodes)
    && Distinct(nodes)
  }

  /** Removing every `v` leaves no `v`, keeps every other element with its multiplicity. */
  lemma {:induction false} WithoutCounts<T>(s: seq<T>, v: T)
    ensures multiset(Without(s, v)) == multiset(s)[v := 0]
  {
    if s != [] {
      var p, x := s[..|s| - 1], s[|s| - 1];
      assert s == p + [x];
      WithoutCounts(p, v);
    }
  }

  /** `Without` changes nothing exactly when `v` does not occur. */
  lemma {:induction false} WithoutIdentity<T>(s: seq<T>, v: T)
    ensures Without(s, v) == s <==> v !in s
  {
    WithoutCounts(s, v);
    if v in s {
      assert multiset(s)[v] > 0;
      assert multiset(Without(s, v))[v] == 0;
    } else {
      WithoutOfAbsent(s, v);
    }
  }

  lemma {:induction false} WithoutOfAbsent<T>(s: seq<T>, v: T)
    requires v !in s
    ensures Without(s, v) == s
  {
    if s != [] {
      var p := s[..|s| - 1];
      assert s == p + [s[|s| - 1]];
      WithoutOfAbsent(p, v);
    }
  }

  lemma {:induction false} FilterNodesValues<T>(nodes: seq<Node<T>>, v: T)
    ensures Values(FilterNodes(nodes, v)) == Without(Values(nodes), v)
  {
    if nodes != [] {
      var p := nodes[..|nodes| - 1];
      assert Values(nodes)[..|nodes| - 1] == Values(p);
      FilterNodesValues(p, v);
    }
  }

  lemma {:induction false} FilterNodesSubset<T>(nodes: seq<Node<T>>, v: T)
    ensures forall n :: n in FilterNodes(nodes, v) ==> n in nodes && n.value != v
  {
    if nodes != [] {
      var p := nodes[..|nodes| - 1];
      FilterNodesSubset(p, v);
      assert forall n :: n in p ==> n in nodes;
    }
  }

  lemma {:induction false} FilterNodesDistinct<T>(nodes: seq<Node<T>>, v: T)
    requires Distinct(nodes)
    ensures Distinct(FilterNodes(nodes, v))
  {
    if nodes != [] {
      var last := |nodes| - 1;
      var p := nodes[..last];
      DistinctSlice(nodes, 0, last);
      FilterNodesDistinct(p, v);
      if nodes[last].value != v {
        FilterNodesSubset(p, v);
        assert nodes[last] !in FilterNodes(p, v) by {
          if nodes[last] in p {
            var k :| 0 <= k < last && p[k] == nodes[last];
            DistinctApart(nodes, k, last);
          }
        }
        DistinctSnoc(FilterNodes(p, v), nodes[last]);
        assert FilterNodes(nodes, v) == FilterNodes(p, v) + [nodes[last]];
      } else {
        assert FilterNodes(nodes, v) == FilterNodes(p, v);
      }
    }
  }

  lemma {:induction false} LastMatchingSpec<T>(nodes: seq<Node<T>>, v: T)
    ensures LastMatching(nodes, v) == null <==> v !in Values(nodes)
    ensures LastMatching(nodes, v) != null ==>
      exists i :: 0 <= i < |nodes| && nodes[i] == LastMatching(nodes, v) &&
        nodes[i].value == v && forall k :: i < k < |nodes| ==> nodes[k].value != v
  {
    if nodes != [] {
      var p := nodes[..|nodes| - 1];
      LastMatchingSpec(p, v);
      assert Values(nodes) == Values(p) + [nodes[|nodes| - 1].value];
    }
  }

  /** A node among the first `j` of a repetition-free `N` is none of the later ones. */
  lemma PrefixApart<T>(N: seq<Node<T>>, j: nat, x: Node<T>)
    requires j <= |N| && Distinct(N) && x in N[..j]
    ensures forall i :: j <= i < |N| ==> N[i] != x
  {
    var k :| 0 <= k < j && N[k] == x;
    forall i | j <= i < |N| ensures N[i] != x {
      DistinctApart(N, k, i);
    }
  }

  /** What putting `x` in front does to the values, the node set and the rest. */
  lemma ConsFacts<T>(x: Node<T>, nodes: seq<Node<T>>)
    ensures Values([x] + nodes) == [x.value] + Values(nodes)
    ensures NodeSet([x] + nodes) == {x} + NodeSet(nodes)
    ensures ([x] + nodes)[1..] == nodes
  {
    assert forall n :: n in [x] + nodes <==> n == x || n in nodes;
  }

  /** A node pointing at the head of a chain extends it at the front. */
  lemma ShapeCons<T>(x: Node<T>, head: Node?<T>, tail: Node?<T>, nodes: seq<Node<T>>)
    requires Shape(head, tail, nodes) && x.next == head && x !in nodes
    ensures Shape(x, if nodes == [] then x else tail, [x] + nodes)
  {
    var s := [x] + nodes;
    forall i | 0 <= i < |s| - 1 ensures s[i].next == s[i + 1] {
      if 0 < i {
        assert s[i] == nodes[i - 1] && s[i + 1] == nodes[i];
      }
    }
    DistinctCons(x, nodes);
  }

  /** Without its first node, a chain is the chain from that node's successor. */
  lemma ShapeRest<T>(head: Node<T>, tail: Node?<T>, nodes: seq<Node<T>>)
    requires Shape(head, tail, nodes)
    ensures Shape(head.next, if |nodes| == 1 then null else tail, nodes[1..])
  {
    var s := nodes[1..];
    forall i | 0 <= i < |s| - 1 ensures s[i].next == s[i + 1] {
      assert s[i] == nodes[i + 1] && s[i + 1] == nodes[i + 2];
    }
    DistinctSlice(nodes, 1, |nodes|);
    assert nodes[1..|nodes|] == s;
    if |nodes| > 1 {
      assert nodes[0].next == nodes[1] == s[0];
      assert s[|s| - 1] == nodes[|nodes| - 1];
    }
  }

  /** What removing the nodes holding `v` gives, stated on the node sequence. */
  lemma DeleteOutcome<T>(nodes: seq<Node<T>>, v: T)
    ensures NodeSet(FilterNodes(nodes, v)) <= NodeSet(nodes)
    ensures Values(FilterNodes(nodes, v)) == Without(Values(nodes), v)
    ensures LastMatching(nodes, v) == null <==> v !in Values(nodes)
    ensures LastMatching(nodes, v) != null ==>
      LastMatching(nodes, v).value == v && LastMatching(nodes, v) in nodes
  {
    FilterNodesSubset(nodes, v);
    FilterNodesValues(nodes, v);
    LastMatchingSpec(nodes, v);
  }

  /** A last node that is kept is the last of the kept nodes. */
  lemma FilterNodesLast<T>(nodes: seq<Node<T>>, v: T)
    ensures nodes != [] && nodes[|nodes| - 1].value != v ==>
      FilterNodes(nodes, v) != [] &&
      FilterNodes(nodes, v)[|FilterNodes(nodes, v)| - 1] == nodes[|nodes| - 1]
  {
  }

  /**
   * The state of the loop in `LinkedList.DeleteTail` standing on `nodes[k]`:
   * the chain is intact up to the penultimate node, which either still points
   * at the last node or has already been cut off it (and is where the loop stands).
   */
  ghost predicate TailSearch<T>(nodes: seq<Node<T>>, k: int)
    reads nodes
  {
    && 2 <= |nodes| && 0 <= k <= |nodes| - 2
    && (forall i :: 0 <= i < |nodes| - 2 ==> nodes[i].next == nodes[i + 1])
    && nodes[|nodes| - 1].next == null
    && (nodes[|nodes| - 2].next == nodes[|nodes| - 1] ||
        (nodes[|nodes| - 2].next == null && k == |nodes| - 2))
    && (nodes[k].next == null ==> k == |nodes| - 2)
  }

  lemma TailSearchStart<T>(head: Node?<T>, tail: Node?<T>, nodes: seq<Node<T>>)
    requires Shape(head, tail, nodes) && 2 <= |nodes|
    ensures TailSearch(nodes, 0)
  {
    assert nodes[0].next == nodes[1];
  }

  lemma TailSearchAdvance<T>(nodes: seq<Node<T>>, k: int)
    requires TailSearch(nodes, k) && nodes[k].next != null
    requires k + 1 < |nodes| && nodes[k + 1].next != null
    ensures TailSearch(nodes, k + 1)
  {
    if k + 2 < |nodes| - 1 {
      assert nodes[k + 1].next == nodes[k + 2];
    }
  }

  /** The node after the one the loop stands on, and whether it is the last. */
  lemma TailSearchNext<T>(nodes: seq<Node<T>>, k: int)
    requires TailSearch(nodes, k) && nodes[k].next != null
    ensures k + 1 < |nodes| && nodes[k].next == nodes[k + 1]
    ensures nodes[k + 1].next == null <==> k == |nodes| - 2
  {
    if k + 1 < |nodes| - 1 {
      assert nodes[k + 1].next == nodes[k + 2];
    }
  }

  /** When the loop stops, the penultimate node ends the shortened chain. */
  lemma TailCut<T>(nodes: seq<Node<T>>, k: int)
    requires TailSearch(nodes, k) && nodes[k].next == null && Distinct(nodes)
    ensures k == |nodes| - 2
    ensures Shape(nodes[0], nodes[k], nodes[..|nodes| - 1])
  {
    var s := nodes[..|nodes| - 1];
    forall i | 0 <= i < |s| - 1 ensures s[i].next == s[i + 1] {
      assert s[i] == nodes[i] && s[i + 1] == nodes[i + 1];
    }
    assert s[|s| - 1] == nodes[k];
    DistinctSlice(nodes, 0, |nodes| - 1);
  }

  /** `nodes` is a non-empty chain whose last node ends the list. */
  ghost predicate Linked<T>(nodes: seq<Node<T>>)
    reads nodes
  {
    nodes != [] && Chained(nodes) && nodes[|nodes| - 1].next == null
  }

  /**
   * The splice step of `LinkedList.Delete`: `p` ends `front` and the chain
   * goes on with `back`; the first node of `back` is unlinked by pointing
   * `p` past it.
   */
  method UnlinkNext<T>(p: Node<T>, ghost front: seq<Node<T>>, ghost back: seq<Node<T>>)
    requires front != [] && back != [] && front[|front| - 1] == p
    requires Linked(front + back) && Distinct(front + back)
    modifies p
    ensures Linked(front + back[1..])
  {
    ghost var chain := front + back;
    ghost var k := |front| - 1;
    assert chain[k] == p;
    assert p.next == chain[k + 1];
    assert k + 2 < |chain| ==> chain[k + 1].next == chain[k + 2];
    p.next := p.next.next;
    ghost var rest := front + back[1..];
    forall i | 0 <= i < |rest| - 1 ensures rest[i].next == rest[i + 1] {
      if i < k {
        DistinctApart(chain, i, k);
        assert rest[i] == chain[i] && rest[i + 1] == chain[i + 1];
      } else if i > k {
        DistinctApart(chain, i + 1, k);
        assert rest[i] == chain[i + 1] && rest[i + 1] == chain[i + 2];
      }
    }
    if |back| == 1 {
      assert rest[|rest| - 1] == p;
    } else {
      DistinctApart(chain, |chain| - 1, k);
      assert rest[|rest| - 1] == chain[|chain| - 1];
    }
  }

  /** The nodes of `N[..j]` that are kept, followed by the rest of `N`, repeat no node. */
  lemma KeptDistinct<T>(N: seq<Node<T>>, j: nat, v: T)
    requires j <= |N| && Distinct(N)
    ensures Distinct(FilterNodes(N[..j], v) + N[j..])
  {
    var kept := FilterNodes(N[..j], v);
    var all := kept + N[j..];
    DistinctSlice(N, 0, j);
    FilterNodesDistinct(N[..j], v);
    FilterNodesSubset(N[..j], v);
    forall a, b | 0 <= a < b < |all| ensures At(all, a) != At(all, b) {
      if b < |kept| {
        DistinctApart(kept, a, b);
        assert all[a] == kept[a] && all[b] == kept[b];
      } else if a < |kept| {
        assert all[a] == kept[a] && all[a] in N[..j];
        PrefixApart(N, j, all[a]);
        assert all[b] == N[j + b - |kept|];
      } else {
        DistinctApart(N, j + a - |kept|, j + b - |kept|);
        assert all[a] == N[j + a - |kept|] && all[b] == N[j + b - |kept|];
      }
    }
  }

  /** A suffix of a chain is a chain. */
  lemma LinkedSuffix<T>(nodes: seq<Node<T>>, h: nat)
    requires Linked(nodes) && h < |nodes|
    ensures Linked(nodes[h..])
  {
    var s := nodes[h..];
    forall i | 0 <= i < |s| - 1 ensures s[i].next == s[i + 1] {
      assert s[i] == nodes[h + i] && s[i + 1] == nodes[h + i + 1];
    }
  }

  /** Where a chain is cut in two, the last node of the front points at the first of the back. */
  lemma LinkedJoin<T>(front: seq<Node<T>>, back: seq<Node<T>>)
    requires front != [] && Linked(front + back)
    ensures front[|front| - 1].next == if back == [] then null else back[0]
  {
    var chain := front + back;
    assert chain[|front| - 1] == front[|front| - 1];
    if back != [] {
      assert chain[|front|] == back[0];
    }
  }

  /**
   * Bookkeeping of the splice loop in `UnlinkMatching`: after the first `j`
   * nodes of `N`, `kept` are the survivors and `deleted` the last node unlinked.
   */
  ghost predicate Progress<T>(N: seq<Node<T>>, j: nat, kept: seq<Node<T>>, deleted: Node?<T>, v: T)
  {
    && j <= |N|
    && kept == FilterNodes(N[..j], v) && kept != []
    && deleted == LastMatching(N[..j], v)
  }

  /** Before the splice loop: only `N[h]` has been visited beyond the dropped prefix. */
  lemma SpliceStart<T>(N: seq<Node<T>>, h: nat, v: T, deleted: Node?<T>)
    requires h < |N| && N[h].value != v && Linked(N[h..])
    requires FilterNodes(N[..h], v) == [] && deleted == LastMatching(N[..h], v)
    ensures Splicing(N, h + 1, [N[h]], N[h], deleted, v)
  {
    FilterNodesPrefix(N, h, v);
    assert [N[h]] + N[h + 1..] == N[h..];
  }

  /** When the last kept node ends the chain, every node of `N` has been visited. */
  lemma SpliceDone<T>(N: seq<Node<T>>, j: nat, kept: seq<Node<T>>, deleted: Node?<T>, v: T)
    requires Progress(N, j, kept, deleted, v) && Distinct(N)
    requires Linked(kept + N[j..]) && kept[|kept| - 1].next == null
    ensures Shape(kept[0], kept[|kept| - 1], FilterNodes(N, v))
    ensures deleted == LastMatching(N, v)
  {
    LinkedJoin(kept, N[j..]);
    assert j == |N|;
    assert N[..j] == N;
    assert kept + N[j..] == kept;
    FilterNodesDistinct(N, v);
  }

  /** One step of the splice loop, in both of its branches. */
  lemma ProgressStep<T>(N: seq<Node<T>>, j: nat, kept: seq<Node<T>>, deleted: Node?<T>, v: T)
    requires Progress(N, j, kept, deleted, v) && j < |N| && Distinct(N)
    ensures Distinct(kept + N[j..])
    ensures kept[|kept| - 1] in NodeSet(N)
    ensures N[j].value == v ==> Progress(N, j + 1, kept, N[j], v)
    ensures N[j].value != v ==>
      && Progress(N, j + 1, kept + [N[j]], deleted, v)
      && kept + [N[j]] + N[j + 1..] == kept + N[j..]
  {
    FilterNodesPrefix(N, j, v);
    KeptDistinct(N, j, v);
    FilterNodesSubset(N[..j], v);
    assert kept[|kept| - 1] in N[..j];
    if N[j].value != v {
      assert N[j..] == [N[j]] + N[j + 1..];
    }
  }

  /** The invariant of the splice loop in `UnlinkMatching`. */
  ghost predicate Splicing<T>(N: seq<Node<T>>, j: nat, kept: seq<Node<T>>, current: Node<T>,
                              deleted: Node?<T>, v: T)
    reads N, kept
  {
    && Progress(N, j, kept, deleted, v)
    && current == kept[|kept| - 1]
    && Linked(kept + N[j..])
  }

  /** One pass of the splice loop: unlinks the node after `current` if it matches, else moves on. */
  method SpliceStep<T(==)>(current: Node<T>, value: T, ghost N: seq<Node<T>>, ghost j: nat,
                           ghost kept: seq<Node<T>>, deleted: Node?<T>)
    returns (current': Node<T>, deleted': Node?<T>, ghost kept': seq<Node<T>>)
    requires Distinct(N) && Splicing(N, j, kept, current, deleted, value) && current.next != null
    modifies NodeSet(N)
    ensures j < |N| && Splicing(N, j + 1, kept', current', deleted', value)
    ensures kept'[0] == kept[0]
  {
    LinkedJoin(kept, N[j..]);
    assert j < |N| && current.next == N[j];
    ProgressStep(N, j, kept, deleted, value);
    assert N[j..][1..] == N[j + 1..];
    if current.next.value == value {
      deleted' := current.next;
      UnlinkNext(current, kept, N[j..]);
      current', kept' := current, kept;
    } else {
      current' := current.next;
      kept' := kept + [current'];
      deleted' := deleted;
    }
  }

  /**
   * The second loop of `LinkedList.Delete`: starting from `first`, a node
   * that does not hold `value`, unlinks every later node that does. Returns
   * the last node left in the chain and the last node unlinked (or
   * `deleted0` when none was).
   */
  method UnlinkMatching<T(==)>(first: Node<T>, value: T, ghost N: seq<Node<T>>, ghost h: nat,
                               deleted0: Node?<T>) returns (current: Node<T>, deleted: Node?<T>)
    requires h < |N| && N[h] == first && first.value != value && Distinct(N)
    requires Linked(N[h..])
    requires FilterNodes(N[..h], value) == [] && deleted0 == LastMatching(N[..h], value)
    modifies NodeSet(N)
    ensures Shape(first, current, FilterNodes(N, value))
    ensures deleted == LastMatching(N, value)
  {
    ghost var n := |N|;
    current, deleted := first, deleted0;
    ghost var j: nat := h + 1;
    ghost var kept := [current];
    SpliceStart(N, h, value, deleted0);
    while current.next != null
      invariant h < j <= n && Splicing(N, j, kept, current, deleted, value) && kept[0] == first
      decreases n - j
    {
      current, deleted, kept := SpliceStep(current, value, N, j, kept, deleted);
      j := j + 1;
    }
    SpliceDone(N, j, kept, deleted, value);
  }

  class LinkedList<T(==)> {
    var head: Node?<T>
    var tail: Node?<T>
    ghost var Nodes: seq<Node<T>>
    ghost var Repr: set<object>

    /**
     * The list invariant: `head` is null exactly when `tail` is, the chain
     * from `head` visits `Nodes` in order without repeating a node, and
     * `tail` is its last node.
     */
    ghost predicate Valid()
      reads this, Repr
      ensures Valid() ==> this in Repr
    {
      && this in Repr
      && Repr == {this} + NodeSet(Nodes)
      && Shape(head, tail, Nodes)
    }

    ghost function Contents(): seq<T>
      reads this
    {
      Values(Nodes)
    }

    constructor ()
      ensures Valid() && fresh(Repr)
      ensures Contents() == []
    {
      head := null;
      tail := null;
      Nodes := [];
      Repr := {this};
    }

    /** Adds `value` in front of the list. */
    method Prepend(value: T)
      requires Valid()
      modifies this
      ensures Valid() && fresh(Repr - old(Repr)) && old(Repr) <= Repr
      ensures Contents() == [value] + old(Contents())
      ensures |Nodes| == |old(Nodes)| + 1 && Nodes[1..] == old(Nodes) && fresh(head)
      ensures old(Nodes) == [] ==> tail == head
      ensures old(Nodes) != [] ==> tail == old(tail)
    {
      ghost var N := Nodes;
      assert this !in NodeSet(N);
      var newNode := new Node(value, head);
      ShapeCons(newNode, head, tail, N);
      ConsFacts(newNode, N);
      head := newNode;
      if tail == null {
        tail := newNode;
      }
      Nodes := [newNode] + N;
      Repr := {this} + NodeSet(Nodes);
    }

    /**
     * Removes every node whose value is `value` and returns the last node
     * removed, or null when no node was removed.
     */
    method Delete(value: T) returns (deleted: Node?<T>)
      requires Valid()
      modifies Repr
      ensures Valid() && Repr <= old(Repr)
      ensures Nodes == FilterNodes(old(Nodes), value)
      ensures Contents() == Without(old(Contents()), value)
      ensures deleted == LastMatching(old(Nodes), value)
      ensures deleted == null <==> value !in old(Contents())
      ensures deleted != null ==> deleted.value == value && deleted in old(Nodes)
      ensures old(tail) != null && old(tail).value != value ==> tail == old(tail)
    {
      ghost var N := Nodes;
      ghost var F := FilterNodes(N, value);
      if head == null {
        DeleteOutcome(N, value);
        return null;
      }
      ghost var h;
      deleted, h := DropLeading(value);
      var current := head;
      if current != null {
        assert this !in NodeSet(N);
        assert Linked(N) by { assert N[|N| - 1] == tail; }
        LinkedSuffix(N, h);
        current, deleted := UnlinkMatching(current, value, N, h, deleted);
      } else {
        assert N[..h] == N;
      }
      FilterNodesLast(N, value);
      // If the old tail matched, the last surviving node becomes the tail.
      if tail.value == value {
        tail := current;
      }
      assert Shape(head, tail, F);
      Nodes := F;
      Repr := {this} + NodeSet(Nodes);
      DeleteOutcome(N, value);
    }

    /**
     * The first loop of `Delete`: moves `head` past the run of nodes holding
     * `value` at the front, and returns the last of them (null if none).
     */
    method DropLeading(value: T) returns (deleted: Node?<T>, ghost h: nat)
      requires Valid()
      modifies this`head
      ensures h <= |Nodes| && head == if h < |Nodes| then Nodes[h] else null
      ensures h < |Nodes| ==> Nodes[h].value != value
      ensures FilterNodes(Nodes[..h], value) == [] && deleted == LastMatching(Nodes[..h], value)
    {
      ghost var N := Nodes;
      deleted := null;
      h := 0;
      while head != null && head.value == value
        invariant 0 <= h <= |N|
        invariant head == if h < |N| then N[h] else null
        invariant FilterNodes(N[..h], value) == []
        invariant deleted == LastMatching(N[..h], value)
        decreases |N| - h
      {
        FilterNodesPrefix(N, h, value);
        deleted := head;
        head := head.next;
        h := h + 1;
      }
    }

    /** Removes the last node and returns it, or null on an empty list. */
    method DeleteTail() returns (deleted: Node?<T>)
      requires Valid()
      modifies Repr
      ensures Valid() && Repr <= old(Repr)
      ensures deleted == old(tail)
      ensures Nodes == if old(Nodes) == [] then [] else old(Nodes)[..|old(Nodes)| - 1]
      ensures Contents() == if old(Contents()) == [] then [] else old(Contents())[..|old(Contents())| - 1]
      ensures deleted != null ==> deleted.value == old(Contents())[|old(Contents())| - 1]
    {
      deleted := tail;
      if |Nodes| > 1 {
        DistinctApart(Nodes, 0, |Nodes| - 1);
      }
      if head == tail {
        // Zero or one node.
        head := null;
        tail := null;
        Nodes := [];
        Repr := {this};
        return;
      }

      ghost var N := Nodes;
      ghost var n := |N|;
      ghost var penultimate := N[n - 2];
      assert this as object != penultimate;
      forall i | 0 <= i < n && i != n - 2 ensures N[i] != penultimate {
        DistinctApart(N, i, n - 2);
      }
      var current := head;
      ghost var k := 0;
      TailSearchStart(head, tail, N);
      while current.next != null
        invariant TailSearch(N, k) && current == N[k]
        modifies penultimate
        decreases if current.next == null then 0 else n - k
      {
        TailSearchNext(N, k);
        if current.next.next == null {
          current.next := null;
        } else {
          TailSearchAdvance(N, k);
          current := current.next;
          k := k + 1;
        }
      }
      TailCut(N, k);
      tail := current;
      Nodes := N[..n - 1];
      Repr := {this} + NodeSet(Nodes);
    }

    /** Removes the first node and returns it, or null on an empty list. */
    method DeleteHead() returns (deleted: Node?<T>)
      requires Valid()
      modifies this
      ensures Valid() && Repr <= old(Repr)
      ensures old(Nodes) == [] ==> deleted == null && Nodes == []
      ensures old(Nodes) != [] ==> deleted == old(head) && Nodes == old(Nodes)[1..]
      ensures Contents() == if old(Contents()) == [] then [] else old(Contents())[1..]
      ensures deleted != null ==> deleted.value == old(Contents())[0] && deleted.next == head
      ensures |old(Nodes)| == 1 ==> head == null && tail == null
    {
      if head == null {
        return null;
      }
      deleted := head;
      ShapeRest(head, tail, Nodes);
      if head.next != null {
        head := head.next;
      } else {
        head := null;
        tail := null;
      }
      Nodes := Nodes[1..];
      Repr := {this} + NodeSet(Nodes);
    }

    /** The nodes from head to tail, in a new sequence. */
    method ToArray() returns (nodes: seq<Node<T>>)
      requires Valid()
      ensures nodes == Nodes
      ensures Values(nodes) == Contents()
    {
      nodes := [];
      var current := head;
      ghost var i := 0;
      while current != null
        invariant 0 <= i <= |Nodes|
        invariant nodes == Nodes[..i]
        invariant current == if i < |Nodes| then Nodes[i] else null
        decreases |Nodes| - i
      {
        nodes := nodes + [current];
        current := current.next;
        i := i + 1;
      }
    }
  }
}
