/**
 * Neighbourhood selection of the force chart
 * (src/components/Chart/ForceChart/mixins/activateRelationMixins.js):
 * the nodes and links that stay highlighted when a node is activated.
 *
 * Nodes are compared by identity in the source (`===`); here they are
 * values of an equality type `N`. A link is its pair of endpoints. The
 * methods follow the source's `forEach` loops; the functions `RelatedNodes`
 * and `IncidentLinks` say what they compute, and the lemmas characterise
 * those functions independently of how they are computed.
 */
module ActivateRelation {
  import opened Wrappers

  datatype Link<N> = Link(source: N, target: N)

  /** The link touches `node` at one end or both. */
  predicate Incident<N(==)>(link: Link<N>, node: N)
  {
    link.source == node || link.target == node
  }

  /**
   * The endpoint a link contributes to the neighbours of `node`: the target
   * when `node` is the source (a loop from `node` to itself included), else
   * the source when `node` is the target.
   */
  function Opposite<N(==)>(link: Link<N>, node: N): Option<N>
  {
    if link.source == node then Some(link.target)
    else if link.target == node then Some(link.source)
    else None
  }

  /** The endpoints contributed by `links`, in link order, repetitions kept. */
  function Opposites<N(==)>(links: seq<Link<N>>, node: N): seq<N>
  {
    if links == [] then []
    else
      var rest := Opposites(links[..|links| - 1], node);
      match Opposite(links[|links| - 1], node)
      case Some(x) => rest + [x]
      case None => rest
  }

  /** The first occurrence of every element of `s`, in the order of `s`. */
  function Dedup<N(==)>(s: seq<N>): seq<N>
  {
    if s == [] then []
    else
      var d := Dedup(s[..|s| - 1]);
      if s[|s| - 1] in d then d else d + [s[|s| - 1]]
  }

  /** What `getRelatedNodes` returns: the distinct neighbours, then `node` itself. */
  function RelatedNodes<N(==)>(links: seq<Link<N>>, node: N): seq<N>
  {
    Dedup(Opposites(links, node)) + [node]
  }

  /** What `getRelatedLinks` returns: the links touching `node`, in order. */
  function IncidentLinks<N(==)>(links: seq<Link<N>>, node: N): seq<Link<N>>
  {
    if links == [] then []
    else
      var rest := IncidentLinks(links[..|links| - 1], node);
      if Incident(links[|links| - 1], node) then rest + [links[|links| - 1]] else rest
  }

  /** The positions of the links touching `node`, in increasing order. */
  function IncidentPositions<N(==)>(links: seq<Link<N>>, node: N): seq<int>
  {
    if links == [] then []
    else
      var rest := IncidentPositions(links[..|links| - 1], node);
      if Incident(links[|links| - 1], node) then rest + [|links| - 1] else rest
  }

  /** The index of the first occurrence of `x` in `s`. */
  function FirstIndex<N(==)>(s: seq<N>, x: N): (i: int)
    requires x in s
    ensures 0 <= i < |s| && s[i] == x
    ensures forall m :: 0 <= m < i ==> s[m] != x
  {
    if s[0] == x then 0 else FirstIndex(s[1..], x) + 1
  }

  /** The linear search `relatedNodes.find((v) => v === x)`. */
  method Find<N(==)>(s: seq<N>, x: N) returns (r: Option<N>)
    ensures r == None <==> x !in s
    ensures r.Some? ==> r.value == x
  {
    var i := 0;
    while i < |s|
      invariant 0 <= i <= |s| && x !in s[..i]
    {
      if s[i] == x {
        return Some(s[i]);
      }
      assert s[..i + 1] == s[..i] + [s[i]];
      i := i + 1;
    }
    assert s[..i] == s;
    return None;
  }

  /** `getRelatedNodes(node, links)`. */
  method GetRelatedNodes<N(==)>(node: N, links: seq<Link<N>>) returns (related: seq<N>)
    ensures related == RelatedNodes(links, node)
  {
    related := [];
    var i := 0;
    while i < |links|
      invariant 0 <= i <= |links|
      invariant related == Dedup(Opposites(links[..i], node))
    {
      var link := links[i];
      assert links[..i + 1][..i] == links[..i];
      if link.source == node {
        var found := Find(related, link.target);
        if found == None {
          related := related + [link.target];
        }
      } else if link.target == node {
        var found := Find(related, link.source);
        if found == None {
          related := related + [link.source];
        }
      }
      i := i + 1;
    }
    assert links[..i] == links;
    related := related + [node];
  }

  /** `getRelatedLinks(node, links)`. */
  method GetRelatedLinks<N(==)>(node: N, links: seq<Link<N>>) returns (related: seq<Link<N>>)
    ensures related == IncidentLinks(links, node)
  {
    related := [];
    var i := 0;
    while i < |links|
      invariant 0 <= i <= |links|
      invariant related == IncidentLinks(links[..i], node)
    {
      assert links[..i + 1][..i] == links[..i];
      if links[i].source == node || links[i].target == node {
        related := related + [links[i]];
      }
      i := i + 1;
    }
    assert links[..i] == links;
  }

  /** An endpoint is contributed exactly when some link contributes it. */
  lemma {:induction false} OppositesSpec<N>(links: seq<Link<N>>, node: N, x: N)
    ensures x in Opposites(links, node) <==>
      exists i :: 0 <= i < |links| && Opposite(links[i], node) == Some(x)
  {
    if links != [] {
      var p := links[..|links| - 1];
      OppositesSpec(p, node, x);
      if exists i :: 0 <= i < |links| && Opposite(links[i], node) == Some(x) {
        var i :| 0 <= i < |links| && Opposite(links[i], node) == Some(x);
        if i < |p| {
          assert p[i] == links[i];
        }
      }
      if exists i :: 0 <= i < |p| && Opposite(p[i], node) == Some(x) {
        var i :| 0 <= i < |p| && Opposite(p[i], node) == Some(x);
        assert links[i] == p[i];
      }
    }
  }

  /** Dedup keeps exactly the elements of its input. */
  lemma {:induction false} DedupElements<N>(s: seq<N>)
    ensures forall x :: x in Dedup(s) <==> x in s
    ensures forall i :: 0 <= i < |Dedup(s)| ==> Dedup(s)[i] in s
  {
    if s != [] {
      var p := s[..|s| - 1];
      DedupElements(p);
      assert s == p + [s[|s| - 1]];
    }
  }

  /** Dedup repeats no element. */
  lemma {:induction false} DedupDistinct<N>(s: seq<N>)
    ensures forall i, j :: 0 <= i < j < |Dedup(s)| ==> Dedup(s)[i] != Dedup(s)[j]
  {
    if s != [] {
      DedupDistinct(s[..|s| - 1]);
    }
  }

  /** Dedup lists the elements in the order of their first occurrence. */
  lemma {:induction false} DedupOrder<N>(s: seq<N>)
    ensures forall i, j :: 0 <= i < j < |Dedup(s)| ==>
      Dedup(s)[i] in s && Dedup(s)[j] in s &&
      FirstIndex(s, Dedup(s)[i]) < FirstIndex(s, Dedup(s)[j])
  {
    if s != [] {
      var p := s[..|s| - 1];
      var x := s[|s| - 1];
      var d := Dedup(p);
      DedupOrder(p);
      DedupElements(p);
      assert s == p + [x];
      var r := Dedup(s);
      forall i, j | 0 <= i < j < |Dedup(s)|
        ensures Dedup(s)[i] in s && Dedup(s)[j] in s &&
          FirstIndex(s, Dedup(s)[i]) < FirstIndex(s, Dedup(s)[j])
      {
        assert i < |d| && r[i] == d[i];
        FirstIndexPrefix(p, x, r[i]);
        if j < |d| {
          assert r[j] == d[j];
          FirstIndexPrefix(p, x, r[j]);
        } else {
          assert x !in p && r[j] == x;
          FirstIndexLast(p, x);
        }
      }
    } else {
      assert Dedup(s) == [];
    }
  }

  /** Appending leaves the first occurrence of an element already present. */
  lemma FirstIndexPrefix<N>(p: seq<N>, x: N, y: N)
    requires y in p
    ensures y in p + [x] && FirstIndex(p + [x], y) == FirstIndex(p, y)
  {
    assert (p + [x])[FirstIndex(p, y)] == y;
  }

  /** An element appended for the first time first occurs at the end. */
  lemma FirstIndexLast<N>(p: seq<N>, x: N)
    requires x !in p
    ensures x in p + [x] && FirstIndex(p + [x], x) == |p|
  {
    assert (p + [x])[|p|] == x;
  }

  /**
   * The last element of `getRelatedNodes` is `node`; every earlier one is
   * the far end of a link touching `node`; every such far end is present;
   * none is repeated; and they come in the order the links first show them.
   */
  lemma RelatedNodesSpec<N>(links: seq<Link<N>>, node: N)
    ensures var r := RelatedNodes(links, node);
      |r| >= 1 && r[|r| - 1] == node
    ensures var d := RelatedNodes(links, node)[..|RelatedNodes(links, node)| - 1];
      forall x :: x in d <==>
        exists i :: 0 <= i < |links| && Opposite(links[i], node) == Some(x)
    ensures var d := RelatedNodes(links, node)[..|RelatedNodes(links, node)| - 1];
      forall i, j :: 0 <= i < j < |d| ==> d[i] != d[j]
    ensures var d := RelatedNodes(links, node)[..|RelatedNodes(links, node)| - 1];
      forall i, j :: 0 <= i < j < |d| ==>
        d[i] in Opposites(links, node) && d[j] in Opposites(links, node) &&
        FirstIndex(Opposites(links, node), d[i]) < FirstIndex(Opposites(links, node), d[j])
  {
    var o := Opposites(links, node);
    var d := Dedup(o);
    assert RelatedNodes(links, node)[..|RelatedNodes(links, node)| - 1] == d;
    DedupElements(o);
    DedupDistinct(o);
    DedupOrder(o);
    forall x ensures x in d <==> exists i :: 0 <= i < |links| && Opposite(links[i], node) == Some(x) {
      OppositesSpec(links, node, x);
    }
  }

  /**
   * Completeness in the source's terms: the target of a link leaving `node`
   * and the source of a link entering it from elsewhere are both related.
   */
  lemma RelatedNodesComplete<N>(links: seq<Link<N>>, node: N, i: int)
    requires 0 <= i < |links|
    ensures links[i].source == node ==> links[i].target in RelatedNodes(links, node)
    ensures links[i].target == node ==> links[i].source in RelatedNodes(links, node)
  {
    var o := Opposites(links, node);
    DedupElements(o);
    if links[i].source == node {
      OppositesSpec(links, node, links[i].target);
    } else if links[i].target == node {
      OppositesSpec(links, node, links[i].source);
    }
  }

  /**
   * `getRelatedLinks` keeps exactly the links touching `node`, at strictly
   * increasing positions of `links`, so in their original order.
   */
  lemma {:induction false} IncidentLinksSpec<N>(links: seq<Link<N>>, node: N)
    ensures var r := IncidentLinks(links, node); var p := IncidentPositions(links, node);
      && |r| == |p|
      && (forall k :: 0 <= k < |p| ==> 0 <= p[k] < |links| && r[k] == links[p[k]])
      && (forall k1, k2 :: 0 <= k1 < k2 < |p| ==> p[k1] < p[k2])
      && (forall i :: 0 <= i < |links| ==> (i in p <==> Incident(links[i], node)))
  {
    if links != [] {
      var q := links[..|links| - 1];
      IncidentLinksSpec(q, node);
      forall i | 0 <= i < |q| ensures links[i] == q[i] { }
    }
  }
}
