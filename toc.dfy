/** The table-of-contents tree (TocMapNode) as an arena: node 0 is the root, and a node's
    parent and children are positions in the same sequence. Play orders are kept beside
    the arena, one per node. */
module TocTree {
  import opened Outcomes
  import opened Strings
  import opened Sorting

  datatype TocNode = TocNode(title: string, href: string, parent: Option<nat>, children: seq<nat>, depth: nat, index: nat)

  /** A fresh TocMapNode: empty title and href, no parent, depth 0, index 1. */
  const Root := TocNode("", "", None, [], 0, 1)

  /** The shape every arena built by `add_toc_map_node` has: each node other than the root
      has an earlier parent and lies one level below it; each child listed by a node
      names that node as parent and has index = its position (from 1) in the list; and a
      node's index is a position of its parent's list that no sibling shares, so each node
      is listed by its parent. */
  ghost predicate WellFormed(nodes: seq<TocNode>) {
    && |nodes| > 0
    && nodes[0].parent == None && nodes[0].depth == 0 && nodes[0].index == 1
    && (forall i {:trigger nodes[i].parent} :: 0 < i < |nodes| ==>
          && nodes[i].parent.Some? && nodes[i].parent.value < i
          && nodes[i].depth == nodes[nodes[i].parent.value].depth + 1
          && 1 <= nodes[i].index <= |nodes[nodes[i].parent.value].children|)
    && (forall i, j {:trigger nodes[i].parent, nodes[j].parent} ::
          0 < i < |nodes| && 0 < j < |nodes| && nodes[i].parent == nodes[j].parent && nodes[i].index == nodes[j].index ==> i == j)
    && (forall i, k :: 0 <= i < |nodes| && 0 <= k < |nodes[i].children| ==>
          && i < nodes[i].children[k] < |nodes|
          && nodes[nodes[i].children[k]].parent == Some(i)
          && nodes[nodes[i].children[k]].index == k + 1)
  }

  /** A node other than the root sits at position `index` of its parent's children. */
  lemma Listed(nodes: seq<TocNode>, x: nat)
    requires WellFormed(nodes) && 0 < x < |nodes|
    ensures var p := nodes[x].parent.value;
            1 <= nodes[x].index <= |nodes[p].children| && nodes[p].children[nodes[x].index - 1] == x
  {
    var p := nodes[x].parent.value;
    var c := nodes[p].children[nodes[x].index - 1];
    assert nodes[c].parent == nodes[x].parent && nodes[c].index == nodes[x].index;
  }

  /** What `get_index_str` needs to terminate: every parent link points to an earlier node. */
  ghost predicate ParentsBefore(nodes: seq<TocNode>) {
    forall i :: 0 <= i < |nodes| && nodes[i].parent.Some? ==> nodes[i].parent.value < i
  }

  function Parent(nodes: seq<TocNode>, i: nat): (p: nat)
    requires WellFormed(nodes) && 0 < i < |nodes|
    ensures p < i
  {
    nodes[i].parent.value
  }

  // ---------------------------------------------------------------------------------
  // add_toc_map_node

  /** The arena after `add_toc_map_node(href, title, parent = p)`. */
  function Attach(nodes: seq<TocNode>, p: nat, href: string, title: string): (r: seq<TocNode>)
    requires p < |nodes|
    ensures |r| == |nodes| + 1
    ensures r[p].children == nodes[p].children + [|nodes|]
    ensures r[|nodes|].parent == Some(p) && r[|nodes|].children == []
    ensures r[|nodes|].depth == nodes[p].depth + 1
    ensures r[|nodes|].index == |r[p].children|
    ensures r[|nodes|].href == href && r[|nodes|].title == title
  {
    var parent := nodes[p];
    var node := TocNode(title, href, Some(p), [], parent.depth + 1, |parent.children| + 1);
    nodes[p := parent.(children := parent.children + [|nodes|])] + [node]
  }

  lemma AttachWellFormed(nodes: seq<TocNode>, p: nat, href: string, title: string)
    requires WellFormed(nodes) && p < |nodes|
    ensures WellFormed(Attach(nodes, p, href, title))
  {
    AttachUpLinks(nodes, p, href, title);
    AttachUnique(nodes, p, href, title);
    AttachDownLinks(nodes, p, href, title);
  }

  /** Attach changes no existing node but the parent, and the parent only by its new last
      child: every existing node keeps its title, href, parent, depth and index, and its
      children as a prefix. */
  lemma AttachKeeps(nodes: seq<TocNode>, p: nat, href: string, title: string, i: nat)
    requires p < |nodes| && i < |nodes|
    ensures var r := Attach(nodes, p, href, title);
            && (i != p ==> r[i] == nodes[i])
            && r[i] == nodes[i].(children := r[i].children)
            && |r[i].children| >= |nodes[i].children|
            && r[i].children[..|nodes[i].children|] == nodes[i].children
  {
  }

  lemma AttachUpLinks(nodes: seq<TocNode>, p: nat, href: string, title: string)
    requires WellFormed(nodes) && p < |nodes|
    ensures var r := Attach(nodes, p, href, title);
            forall i {:trigger r[i].parent} :: 0 < i < |r| ==>
              && r[i].parent.Some? && r[i].parent.value < i
              && r[i].depth == r[r[i].parent.value].depth + 1
              && 1 <= r[i].index <= |r[r[i].parent.value].children|
  {
    var r := Attach(nodes, p, href, title);
    var n := |nodes|;
    forall i | 0 < i < |r|
      ensures r[i].parent.Some? && r[i].parent.value < i
      ensures r[i].depth == r[r[i].parent.value].depth + 1
      ensures 1 <= r[i].index <= |r[r[i].parent.value].children|
    {
      if i < n {
        var q := nodes[i].parent.value;
        AttachKeeps(nodes, p, href, title, i);
        AttachKeeps(nodes, p, href, title, q);
      }
    }
  }

  lemma AttachUnique(nodes: seq<TocNode>, p: nat, href: string, title: string)
    requires WellFormed(nodes) && p < |nodes|
    ensures var r := Attach(nodes, p, href, title);
            forall i, j {:trigger r[i].parent, r[j].parent} ::
              0 < i < |r| && 0 < j < |r| && r[i].parent == r[j].parent && r[i].index == r[j].index ==> i == j
  {
    var r := Attach(nodes, p, href, title);
    var n := |nodes|;
    forall i, j | 0 < i < |r| && 0 < j < |r| && r[i].parent == r[j].parent && r[i].index == r[j].index
      ensures i == j
    {
      if i < n {
        AttachKeeps(nodes, p, href, title, i);
      }
      if j < n {
        AttachKeeps(nodes, p, href, title, j);
      }
    }
  }

  lemma AttachDownLinks(nodes: seq<TocNode>, p: nat, href: string, title: string)
    requires WellFormed(nodes) && p < |nodes|
    ensures var r := Attach(nodes, p, href, title);
            forall i, k :: 0 <= i < |r| && 0 <= k < |r[i].children| ==>
              && i < r[i].children[k] < |r|
              && r[r[i].children[k]].parent == Some(i)
              && r[r[i].children[k]].index == k + 1
  {
    var r := Attach(nodes, p, href, title);
    var n := |nodes|;
    forall i, k | 0 <= i < |r| && 0 <= k < |r[i].children|
      ensures i < r[i].children[k] < |r|
      ensures r[r[i].children[k]].parent == Some(i)
      ensures r[r[i].children[k]].index == k + 1
    {
      if i == p && k == |nodes[p].children| {
        assert r[i].children[k] == n;
      } else {
        AttachKeeps(nodes, p, href, title, i);
        assert i < n && r[i].children[k] == nodes[i].children[k];
        AttachKeeps(nodes, p, href, title, nodes[i].children[k]);
      }
    }
  }

  /** `last_node_at_depth`: for every depth present, the most recently added node at that
      depth. */
  ghost predicate LastValid(nodes: seq<TocNode>, last: map<nat, nat>) {
    && (forall d {:trigger last[d]} :: d in last ==> last[d] < |nodes| && nodes[last[d]].depth == d)
    && (forall i {:trigger nodes[i].depth in last} :: 0 <= i < |nodes| ==> nodes[i].depth in last && i <= last[nodes[i].depth])
  }

  lemma AttachKeepsLast(nodes: seq<TocNode>, last: map<nat, nat>, p: nat, href: string, title: string)
    requires LastValid(nodes, last) && p < |nodes|
    ensures LastValid(Attach(nodes, p, href, title), last[nodes[p].depth + 1 := |nodes|])
  {
    var r := Attach(nodes, p, href, title);
    var last' := last[nodes[p].depth + 1 := |nodes|];
    forall d | d in last'
      ensures last'[d] < |r| && r[last'[d]].depth == d
    {
      if d != nodes[p].depth + 1 {
        assert r[last[d]].depth == nodes[last[d]].depth;
      }
    }
    forall i | 0 <= i < |r|
      ensures r[i].depth in last' && i <= last'[r[i].depth]
    {
      if i < |nodes| {
        assert r[i].depth == nodes[i].depth;
      }
    }
  }

  /** A new book's tree is the root alone, recorded as the last node at depth 0. */
  lemma RootAloneValid()
    ensures WellFormed([Root]) && LastValid([Root], map[0 := 0])
  {
  }

  /** The tree part of a book: a well-formed arena, one play order per node, and the last
      node recorded at each depth. */
  ghost predicate TreeValid(nodes: seq<TocNode>, orders: seq<int>, last: map<nat, nat>) {
    WellFormed(nodes) && |orders| == |nodes| && LastValid(nodes, last)
  }

  /** A valid tree holds the root, and one play order per node. */
  lemma TreeHasRoot(nodes: seq<TocNode>, orders: seq<int>, last: map<nat, nat>)
    requires TreeValid(nodes, orders, last)
    ensures 0 < |nodes| == |orders| && nodes[0].parent.None?
  {
  }

  /** `add_toc_map_node` keeps the tree valid. */
  lemma AddNodeKeepsTreeValid(nodes: seq<TocNode>, orders: seq<int>, last: map<nat, nat>, p: nat, href: string, title: string)
    requires TreeValid(nodes, orders, last) && p < |nodes|
    ensures TreeValid(Attach(nodes, p, href, title), orders + [0], last[nodes[p].depth + 1 := |nodes|])
  {
    AttachWellFormed(nodes, p, href, title);
    AttachKeepsLast(nodes, last, p, href, title);
  }

  /** `get_toc_map_height`: the largest depth recorded in last_node_at_depth, which is the
      largest depth of any node added (0 while the tree is only its root). */
  function Height(nodes: seq<TocNode>, last: map<nat, nat>): (h: nat)
    requires |nodes| > 0 && LastValid(nodes, last)
    ensures h in last && last[h] < |nodes| && nodes[last[h]].depth == h
    ensures forall i :: 0 <= i < |nodes| ==> nodes[i].depth <= h
    ensures |nodes| == 1 ==> h == nodes[0].depth
  {
    assert forall i :: 0 <= i < |nodes| ==> nodes[i].depth in last;
    assert nodes[0].depth in last;
    MaxOf(last.Keys)
  }

  // ---------------------------------------------------------------------------------
  // assign_play_order: pre-order numbering

  /** The nodes of the subtree at i in pre-order: i, then each child's subtree in turn. */
  function PreOrder(nodes: seq<TocNode>, i: nat): (r: seq<nat>)
    requires WellFormed(nodes) && i < |nodes|
    ensures |r| >= 1 && r[0] == i
    ensures forall k :: 0 <= k < |r| ==> i <= r[k] < |nodes|
    decreases |nodes| - i, |nodes[i].children| + 1
  {
    [i] + Forest(nodes, i, |nodes[i].children|)
  }

  /** The pre-orders of the first j children of i, one after the other. */
  function Forest(nodes: seq<TocNode>, i: nat, j: nat): (r: seq<nat>)
    requires WellFormed(nodes) && i < |nodes| && j <= |nodes[i].children|
    ensures forall k :: 0 <= k < |r| ==> i < r[k] < |nodes|
    decreases |nodes| - i, j
  {
    if j == 0 then []
    else Forest(nodes, i, j - 1) + PreOrder(nodes, nodes[i].children[j - 1])
  }

  /** a lies on the parent chain from x up to the root (x itself included). */
  ghost predicate Ancestor(nodes: seq<TocNode>, x: nat, a: nat)
    requires WellFormed(nodes) && x < |nodes|
    decreases x
  {
    x == a || (x > 0 && Ancestor(nodes, Parent(nodes, x), a))
  }

  lemma {:induction false} AncestorBelow(nodes: seq<TocNode>, x: nat, a: nat)
    requires WellFormed(nodes) && x < |nodes| && Ancestor(nodes, x, a)
    ensures a <= x
    decreases x
  {
    if x != a {
      AncestorBelow(nodes, Parent(nodes, x), a);
    }
  }

  lemma {:induction false} AncestorTransitive(nodes: seq<TocNode>, x: nat, a: nat, b: nat)
    requires WellFormed(nodes) && x < |nodes| && a < |nodes|
    requires Ancestor(nodes, x, a) && Ancestor(nodes, a, b)
    ensures Ancestor(nodes, x, b)
    decreases x
  {
    if x != a {
      AncestorTransitive(nodes, Parent(nodes, x), a, b);
    }
  }

  /** The ancestors of a node form a chain. */
  lemma {:induction false} AncestorLinear(nodes: seq<TocNode>, x: nat, a: nat, b: nat)
    requires WellFormed(nodes) && x < |nodes|
    requires Ancestor(nodes, x, a) && Ancestor(nodes, x, b)
    ensures a < |nodes| && b < |nodes|
    ensures Ancestor(nodes, a, b) || Ancestor(nodes, b, a)
    decreases x
  {
    AncestorBelow(nodes, x, a);
    AncestorBelow(nodes, x, b);
    if x != a && x != b {
      AncestorLinear(nodes, Parent(nodes, x), a, b);
    }
  }

  /** Two different children of one node are not related by Ancestor. */
  lemma SiblingsUnrelated(nodes: seq<TocNode>, i: nat, k1: nat, k2: nat)
    requires WellFormed(nodes) && i < |nodes|
    requires k1 < |nodes[i].children| && k2 < |nodes[i].children| && k1 != k2
    ensures !Ancestor(nodes, nodes[i].children[k1], nodes[i].children[k2])
  {
    var c1, c2 := nodes[i].children[k1], nodes[i].children[k2];
    assert nodes[c1].index != nodes[c2].index;
    if Ancestor(nodes, c1, c2) {
      assert Parent(nodes, c1) == i;
      AncestorBelow(nodes, i, c2);
    }
  }

  lemma {:induction false} PreOrderDescends(nodes: seq<TocNode>, i: nat)
    requires WellFormed(nodes) && i < |nodes|
    ensures forall y :: y in PreOrder(nodes, i) ==> Ancestor(nodes, y, i)
    decreases |nodes| - i, |nodes[i].children| + 1
  {
    ForestDescends(nodes, i, |nodes[i].children|);
  }

  lemma {:induction false} ForestDescends(nodes: seq<TocNode>, i: nat, j: nat)
    requires WellFormed(nodes) && i < |nodes| && j <= |nodes[i].children|
    ensures forall y :: y in Forest(nodes, i, j) ==> Ancestor(nodes, y, i)
    decreases |nodes| - i, j
  {
    if j > 0 {
      var c := nodes[i].children[j - 1];
      ForestDescends(nodes, i, j - 1);
      PreOrderDescends(nodes, c);
      assert Parent(nodes, c) == i && Ancestor(nodes, c, i);
      forall y | y in PreOrder(nodes, c)
        ensures Ancestor(nodes, y, i)
      {
        AncestorTransitive(nodes, y, c, i);
      }
    }
  }

  /** The first j children's subtrees hold no descendant of a later child. */
  lemma {:induction false} ForestAvoidsLater(nodes: seq<TocNode>, i: nat, j: nat, y: nat, m: nat)
    requires WellFormed(nodes) && i < |nodes| && j <= m < |nodes[i].children|
    requires y in Forest(nodes, i, j)
    ensures !Ancestor(nodes, y, nodes[i].children[m])
    decreases j
  {
    var c := nodes[i].children[j - 1];
    if y in Forest(nodes, i, j - 1) {
      ForestAvoidsLater(nodes, i, j - 1, y, m);
    } else {
      assert y in PreOrder(nodes, c);
      PreOrderDescends(nodes, c);
      if Ancestor(nodes, y, nodes[i].children[m]) {
        AncestorLinear(nodes, y, c, nodes[i].children[m]);
        SiblingsUnrelated(nodes, i, j - 1, m);
        SiblingsUnrelated(nodes, i, m, j - 1);
      }
    }
  }

  predicate Distinct(s: seq<nat>) {
    forall a, b :: 0 <= a < b < |s| ==> s[a] != s[b]
  }

  lemma DistinctAppend(s: seq<nat>, t: seq<nat>)
    requires Distinct(s) && Distinct(t) && forall y :: y in s ==> y !in t
    ensures Distinct(s + t)
  {
    forall a, b | 0 <= a < b < |s + t|
      ensures (s + t)[a] != (s + t)[b]
    {
      if a < |s| && b >= |s| {
        assert (s + t)[a] in s && (s + t)[b] in t;
      } else if a >= |s| {
        assert (s + t)[a] == t[a - |s|] && (s + t)[b] == t[b - |s|];
      }
    }
  }

  /** No node occurs twice in a pre-order. */
  lemma {:induction false} PreOrderDistinct(nodes: seq<TocNode>, i: nat)
    requires WellFormed(nodes) && i < |nodes|
    ensures Distinct(PreOrder(nodes, i))
    decreases |nodes| - i, |nodes[i].children| + 1
  {
    ForestDistinct(nodes, i, |nodes[i].children|);
    DistinctAppend([i], Forest(nodes, i, |nodes[i].children|));
  }

  lemma {:induction false} ForestDistinct(nodes: seq<TocNode>, i: nat, j: nat)
    requires WellFormed(nodes) && i < |nodes| && j <= |nodes[i].children|
    ensures Distinct(Forest(nodes, i, j))
    decreases |nodes| - i, j
  {
    if j > 0 {
      var c := nodes[i].children[j - 1];
      var front, last := Forest(nodes, i, j - 1), PreOrder(nodes, c);
      assert Forest(nodes, i, j) == front + last;
      ForestDistinct(nodes, i, j - 1);
      PreOrderDistinct(nodes, c);
      PreOrderDescends(nodes, c);
      forall y | y in front
        ensures y !in last
      {
        ForestAvoidsLater(nodes, i, j - 1, y, j - 1);
      }
      DistinctAppend(front, last);
    }
  }

  /** The pre-orders of the first j + 1 children are those of the first j followed by the
      (j + 1)-th child's, and the two parts share no node. */
  lemma ForestSplit(nodes: seq<TocNode>, i: nat, j: nat)
    requires WellFormed(nodes) && i < |nodes| && j < |nodes[i].children|
    ensures Forest(nodes, i, j + 1) == Forest(nodes, i, j) + PreOrder(nodes, nodes[i].children[j])
    ensures forall y :: y in Forest(nodes, i, j) ==> y !in PreOrder(nodes, nodes[i].children[j])
  {
    var c := nodes[i].children[j];
    PreOrderDescends(nodes, c);
    forall y | y in Forest(nodes, i, j)
      ensures y !in PreOrder(nodes, c)
    {
      ForestAvoidsLater(nodes, i, j, y, j);
    }
  }

  lemma {:induction false} ForestContains(nodes: seq<TocNode>, i: nat, j: nat, k: nat)
    requires WellFormed(nodes) && i < |nodes| && k < j <= |nodes[i].children|
    ensures forall y :: y in PreOrder(nodes, nodes[i].children[k]) ==> y in Forest(nodes, i, j)
    decreases j
  {
    var front, last := Forest(nodes, i, j - 1), PreOrder(nodes, nodes[i].children[j - 1]);
    assert Forest(nodes, i, j) == front + last;
    if k < j - 1 {
      ForestContains(nodes, i, j - 1, k);
      forall y | y in PreOrder(nodes, nodes[i].children[k])
        ensures y in front + last
      {
        assert y in front;
      }
    }
  }

  /** Every node of x's subtree appears in the root's pre-order. */
  lemma {:induction false} InRootPreOrder(nodes: seq<TocNode>, x: nat)
    requires WellFormed(nodes) && x < |nodes|
    ensures forall y :: y in PreOrder(nodes, x) ==> y in PreOrder(nodes, 0)
    decreases x
  {
    if x > 0 {
      var p := Parent(nodes, x);
      ForestContains(nodes, p, |nodes[p].children|, nodes[x].index - 1);
      InRootPreOrder(nodes, p);
    }
  }

  /** The set of entries of s. */
  ghost function Elems(s: seq<nat>): set<nat> {
    set y | y in s
  }

  lemma {:induction false} DistinctSetSize(s: seq<nat>)
    requires Distinct(s)
    ensures |Elems(s)| == |s|
  {
    if |s| > 0 {
      var t := s[..|s| - 1];
      var x := s[|s| - 1];
      DistinctSetSize(t);
      assert s == t + [x];
      assert Elems(s) == Elems(t) + {x};
      assert x !in Elems(t);
    }
  }

  /** 0, 1, .., n - 1. */
  function Range(n: nat): (r: seq<nat>)
    ensures |r| == n && forall k :: 0 <= k < n ==> r[k] == k
  {
    if n == 0 then [] else Range(n - 1) + [n - 1]
  }

  /** The root's pre-order lists every node of the arena exactly once. */
  lemma RootPreOrderIsPermutation(nodes: seq<TocNode>)
    requires WellFormed(nodes)
    ensures Distinct(PreOrder(nodes, 0))
    ensures forall x :: 0 <= x < |nodes| ==> x in PreOrder(nodes, 0)
    ensures |PreOrder(nodes, 0)| == |nodes|
  {
    var po := PreOrder(nodes, 0);
    PreOrderDistinct(nodes, 0);
    forall x | 0 <= x < |nodes|
      ensures x in po
    {
      InRootPreOrder(nodes, x);
      assert x in PreOrder(nodes, x);
    }
    var all := Range(|nodes|);
    assert forall y :: y in all ==> y in po;
    assert forall y :: y in po ==> y in all by {
      forall y | y in po ensures y in all {
        var k :| 0 <= k < |po| && po[k] == y;
        assert all[y] == y;
      }
    }
    assert Elems(po) == Elems(all);
    DistinctSetSize(po);
    DistinctSetSize(all);
  }

  /** r[s[k]] == k for each position k of s, every other entry 0. */
  function Positions(s: seq<nat>, n: nat): (r: seq<int>)
    requires forall k :: 0 <= k < |s| ==> s[k] < n
    ensures |r| == n
    decreases |s|
  {
    if s == [] then seq(n, _ => 0)
    else Positions(s[..|s| - 1], n)[s[|s| - 1] := |s| - 1]
  }

  lemma {:induction false} PositionsAt(s: seq<nat>, n: nat, k: nat)
    requires (forall k :: 0 <= k < |s| ==> s[k] < n) && Distinct(s) && k < |s|
    ensures Positions(s, n)[s[k]] == k
    decreases |s|
  {
    if k < |s| - 1 {
      var t := s[..|s| - 1];
      assert t[k] == s[k] && s[k] != s[|s| - 1];
      PositionsAt(t, n, k);
    }
  }

  /** The play orders `assign_play_order` stamps: each node's position in the root's
      pre-order. */
  function PlayOrders(nodes: seq<TocNode>): (r: seq<int>)
    requires WellFormed(nodes)
    ensures |r| == |nodes|
    ensures forall k :: 0 <= k < |PreOrder(nodes, 0)| ==> r[PreOrder(nodes, 0)[k]] == k
  {
    RootPreOrderIsPermutation(nodes);
    PositionsAll(PreOrder(nodes, 0), |nodes|);
    Positions(PreOrder(nodes, 0), |nodes|)
  }

  /** Positions puts each position of s at the node listed there. */
  lemma PositionsAll(s: seq<nat>, n: nat)
    requires (forall k :: 0 <= k < |s| ==> s[k] < n) && Distinct(s)
    ensures forall k :: 0 <= k < |s| ==> Positions(s, n)[s[k]] == k
  {
    forall k | 0 <= k < |s|
      ensures Positions(s, n)[s[k]] == k
    {
      PositionsAt(s, n, k);
    }
  }

  /** `assign_play_order` numbers the root 0 and the nodes in pre-order with consecutive
      integers: the k-th node of the pre-order gets k, every number in [0, |nodes|) is
      used, and no two nodes share one. */
  lemma PlayOrderNumbering(nodes: seq<TocNode>)
    requires WellFormed(nodes)
    ensures var po, r := PreOrder(nodes, 0), PlayOrders(nodes);
            && |po| == |nodes| && r[0] == 0
            && (forall k :: 0 <= k < |po| ==> r[po[k]] == k)
            && (forall x :: 0 <= x < |nodes| ==> 0 <= r[x] < |nodes|)
            && (forall x, y :: 0 <= x < y < |nodes| ==> r[x] != r[y])
  {
    var po, r := PreOrder(nodes, 0), PlayOrders(nodes);
    RootPreOrderIsPermutation(nodes);
    assert r[po[0]] == 0;
    forall x | 0 <= x < |nodes|
      ensures 0 <= r[x] < |nodes|
    {
      assert x in po;
      var k :| 0 <= k < |po| && po[k] == x;
    }
    forall x, y | 0 <= x < y < |nodes|
      ensures r[x] != r[y]
    {
      assert x in po && y in po;
      var kx :| 0 <= kx < |po| && po[kx] == x;
      var ky :| 0 <= ky < |po| && po[ky] == y;
    }
  }

  /** `__assign_play_order` on the subtree at i, as a value: the node gets next, then each
      child's subtree is numbered in turn; the result is the new play orders and the
      number after the last one used. */
  function NumberSubtree(nodes: seq<TocNode>, po: seq<int>, i: nat, next: int): (r: (seq<int>, int))
    requires WellFormed(nodes) && i < |nodes| && |po| == |nodes|
    ensures |r.0| == |nodes| && r.1 > next
    decreases |nodes| - i, |nodes[i].children| + 1
  {
    NumberChildren(nodes, po[i := next], i, |nodes[i].children|, next + 1)
  }

  /** Numbering the subtrees of the first j children of i in turn, from next. */
  function NumberChildren(nodes: seq<TocNode>, po: seq<int>, i: nat, j: nat, next: int): (r: (seq<int>, int))
    requires WellFormed(nodes) && i < |nodes| && j <= |nodes[i].children| && |po| == |nodes|
    ensures |r.0| == |nodes| && r.1 >= next
    decreases |nodes| - i, j
  {
    if j == 0 then (po, next)
    else
      var front := NumberChildren(nodes, po, i, j - 1, next);
      NumberSubtree(nodes, front.0, nodes[i].children[j - 1], front.1)
  }

  /** po numbers the nodes listed in s consecutively from start. */
  ghost predicate NumberedFrom(po: seq<int>, s: seq<nat>, start: int) {
    forall k :: 0 <= k < |s| ==> s[k] < |po| && po[s[k]] == start + k
  }

  /** po keeps po0's numbers on every node not listed in s. */
  ghost predicate SameOutside(po: seq<int>, po0: seq<int>, s: seq<nat>) {
    |po| == |po0| && forall x :: 0 <= x < |po| && x !in s ==> po[x] == po0[x]
  }

  /** Numbering a, then the disjoint b from where a stopped, numbers a + b. */
  lemma NumberedConcat(po0: seq<int>, po1: seq<int>, po2: seq<int>, a: seq<nat>, b: seq<nat>, start: int)
    requires NumberedFrom(po1, a, start) && SameOutside(po1, po0, a)
    requires NumberedFrom(po2, b, start + |a|) && SameOutside(po2, po1, b)
    requires forall y :: y in a ==> y !in b
    ensures NumberedFrom(po2, a + b, start) && SameOutside(po2, po0, a + b)
  {
    forall k | 0 <= k < |a + b|
      ensures (a + b)[k] < |po2| && po2[(a + b)[k]] == start + k
    {
      if k < |a| {
        assert a[k] in a;
      } else {
        assert (a + b)[k] == b[k - |a|];
      }
    }
  }

  /** Numbering the subtree at i gives its pre-order the numbers from next on, one each in
      turn, and leaves every other node as it was. */
  lemma {:induction false} NumberSubtreeNumbers(nodes: seq<TocNode>, po: seq<int>, i: nat, next: int)
    requires WellFormed(nodes) && i < |nodes| && |po| == |nodes|
    ensures var r := NumberSubtree(nodes, po, i, next);
            && r.1 == next + |PreOrder(nodes, i)|
            && NumberedFrom(r.0, PreOrder(nodes, i), next)
            && SameOutside(r.0, po, PreOrder(nodes, i))
    decreases |nodes| - i, |nodes[i].children| + 1
  {
    var po1 := po[i := next];
    var j := |nodes[i].children|;
    var forest := Forest(nodes, i, j);
    NumberChildrenNumbers(nodes, po1, i, j, next + 1);
    assert forall y :: y in [i] ==> y !in forest;
    NumberedConcat(po, po1, NumberChildren(nodes, po1, i, j, next + 1).0, [i], forest, next);
  }

  /** Numbering the first j children's subtrees gives Forest(i, j) the numbers from next on
      and leaves every other node as it was. */
  lemma {:induction false} NumberChildrenNumbers(nodes: seq<TocNode>, po: seq<int>, i: nat, j: nat, next: int)
    requires WellFormed(nodes) && i < |nodes| && j <= |nodes[i].children| && |po| == |nodes|
    ensures var r := NumberChildren(nodes, po, i, j, next);
            && r.1 == next + |Forest(nodes, i, j)|
            && NumberedFrom(r.0, Forest(nodes, i, j), next)
            && SameOutside(r.0, po, Forest(nodes, i, j))
    decreases |nodes| - i, j
  {
    if j > 0 {
      var front := NumberChildren(nodes, po, i, j - 1, next);
      var c := nodes[i].children[j - 1];
      NumberChildrenNumbers(nodes, po, i, j - 1, next);
      NumberSubtreeNumbers(nodes, front.0, c, front.1);
      ForestSplit(nodes, i, j - 1);
      NumberedConcat(po, front.0, NumberSubtree(nodes, front.0, c, front.1).0,
                     Forest(nodes, i, j - 1), PreOrder(nodes, c), next);
    }
  }

  /** A numbering of the whole tree's pre-order from 0 is the tree's play orders. */
  lemma NumberedIsPlayOrders(nodes: seq<TocNode>, po: seq<int>)
    requires WellFormed(nodes) && |po| == |nodes| && NumberedFrom(po, PreOrder(nodes, 0), 0)
    ensures po == PlayOrders(nodes)
  {
    var pre := PreOrder(nodes, 0);
    RootPreOrderIsPermutation(nodes);
    PlayOrderNumbering(nodes);
    forall x | 0 <= x < |nodes|
      ensures po[x] == PlayOrders(nodes)[x]
    {
      assert x in pre;
      var k :| 0 <= k < |pre| && pre[k] == x;
    }
  }

  /** Numbering the whole tree from 0, whatever the play orders were before, gives every
      node its position in the pre-order. */
  lemma NumberingIsPlayOrders(nodes: seq<TocNode>, po: seq<int>)
    requires WellFormed(nodes) && |po| == |nodes|
    ensures NumberSubtree(nodes, po, 0, 0).0 == PlayOrders(nodes)
  {
    NumberSubtreeNumbers(nodes, po, 0, 0);
    NumberedIsPlayOrders(nodes, NumberSubtree(nodes, po, 0, 0).0);
  }

  /** Numbering again reproduces the numbering: the play orders assigned do not depend on
      those a node held before, so a second `assign_play_order` on an unchanged tree
      changes nothing. */
  lemma NumberingAgainChangesNothing(nodes: seq<TocNode>, po: seq<int>)
    requires WellFormed(nodes) && |po| == |nodes|
    ensures var once := NumberSubtree(nodes, po, 0, 0).0;
            NumberSubtree(nodes, once, 0, 0).0 == once
  {
    NumberingIsPlayOrders(nodes, po);
    NumberingIsPlayOrders(nodes, NumberSubtree(nodes, po, 0, 0).0);
  }

  // ---------------------------------------------------------------------------------
  // get_index_str

  /** `get_index_str`: the index alone at depth 0 or 1, otherwise the parent's string, a
      dot and the index; a deeper node without a parent is an error. */
  function IndexStr(nodes: seq<TocNode>, i: nat): (r: Result<string>)
    requires ParentsBefore(nodes) && i < |nodes|
    ensures r.Err? ==> r.error == OrphanNode && nodes[i].depth > 1
    ensures nodes[i].depth <= 1 ==> r == Ok(NatToString(nodes[i].index))
    decreases i
  {
    if nodes[i].depth <= 1 then Ok(NatToString(nodes[i].index))
    else match nodes[i].parent
      case None => Err(OrphanNode)
      case Some(p) =>
        match IndexStr(nodes, p)
        case Ok(s) => Ok(s + "." + NatToString(nodes[i].index))
        case Err(e) => Err(e)
  }

  function CountChar(s: string, c: char): nat {
    if s == [] then 0 else CountChar(s[..|s| - 1], c) + (if s[|s| - 1] == c then 1 else 0)
  }

  lemma {:induction false} CountCharAppend(s: string, t: string, c: char)
    ensures CountChar(s + t, c) == CountChar(s, c) + CountChar(t, c)
    decreases |t|
  {
    if t == [] {
      assert s + t == s;
    } else {
      assert (s + t)[..|s + t| - 1] == s + t[..|t| - 1];
      CountCharAppend(s, t[..|t| - 1], c);
    }
  }

  lemma {:induction false} CountCharDigits(s: string)
    requires IsDigits(s)
    ensures CountChar(s, '.') == 0
    decreases |s|
  {
    if s != [] {
      CountCharDigits(s[..|s| - 1]);
    }
  }

  /** In a well-formed arena `get_index_str` never fails, and the string has one
      dot-separated component per level below the root: depth - 1 dots. */
  lemma {:induction false} IndexStrComponents(nodes: seq<TocNode>, i: nat)
    requires WellFormed(nodes) && i < |nodes|
    ensures ParentsBefore(nodes) && IndexStr(nodes, i).Ok?
    ensures CountChar(IndexStr(nodes, i).value, '.') == if nodes[i].depth <= 1 then 0 else nodes[i].depth - 1
    decreases i
  {
    CountCharDigits(NatToString(nodes[i].index));
    if nodes[i].depth > 1 {
      var p := Parent(nodes, i);
      IndexStrComponents(nodes, p);
      var s := IndexStr(nodes, p).value;
      CountCharAppend(s + ".", NatToString(nodes[i].index), '.');
      CountCharAppend(s, ".", '.');
      assert CountChar(".", '.') == 1 by {
        assert "."[..0] == [];
      }
    }
  }

  /** Where a dot-free tail follows the last dot, the split is unique. */
  lemma SplitAtLastDot(x: string, s: string, y: string, t: string)
    requires IsDigits(s) && IsDigits(t) && x + "." + s == y + "." + t
    ensures x == y && s == t
  {
    var z := x + "." + s;
    DotAt(x, s);
    DotAt(y, t);
    if |s| == |t| {
      assert s == z[|z| - |s|..] == t;
      assert x == z[..|x|] == y;
    }
  }

  lemma DotAt(x: string, s: string)
    ensures |x + "." + s| == |x| + 1 + |s| && (x + "." + s)[|x|] == '.'
    ensures forall k :: 0 <= k < |s| ==> (x + "." + s)[|x| + 1 + k] == s[k]
  {
  }

  lemma IndexStrHasDot(nodes: seq<TocNode>, i: nat)
    requires WellFormed(nodes) && i < |nodes| && nodes[i].depth > 1
    ensures ParentsBefore(nodes) && IndexStr(nodes, i).Ok?
    ensures IndexStr(nodes, i).value == IndexStr(nodes, Parent(nodes, i)).value + "." + NatToString(nodes[i].index)
  {
    IndexStrComponents(nodes, i);
    IndexStrComponents(nodes, Parent(nodes, i));
  }

  /** Apart from the root, no two nodes share an index string. */
  lemma {:induction false} IndexStrInjective(nodes: seq<TocNode>, a: nat, b: nat)
    requires WellFormed(nodes) && 0 < a < |nodes| && 0 < b < |nodes|
    requires ParentsBefore(nodes) && IndexStr(nodes, a) == IndexStr(nodes, b)
    ensures a == b
    decreases a + b
  {
    IndexStrComponents(nodes, a);
    IndexStrComponents(nodes, b);
    var s := IndexStr(nodes, a).value;
    var pa, pb := Parent(nodes, a), Parent(nodes, b);
    if nodes[a].depth > 1 && nodes[b].depth > 1 {
      IndexStrHasDot(nodes, a);
      IndexStrHasDot(nodes, b);
      SplitAtLastDot(IndexStr(nodes, pa).value, NatToString(nodes[a].index), IndexStr(nodes, pb).value, NatToString(nodes[b].index));
      NatToStringInjective(nodes[a].index, nodes[b].index);
      IndexStrInjective(nodes, pa, pb);
    } else if nodes[a].depth <= 1 && nodes[b].depth <= 1 {
      NatToStringInjective(nodes[a].index, nodes[b].index);
      DepthZeroIsRoot(nodes, pa);
      DepthZeroIsRoot(nodes, pb);
    }
  }

  lemma DepthZeroIsRoot(nodes: seq<TocNode>, x: nat)
    requires WellFormed(nodes) && x < |nodes| && nodes[x].depth == 0
    ensures x == 0
  {
  }

  /** The root and the first top-level node both give "1". */
  lemma RootSharesFirstIndexStr(nodes: seq<TocNode>)
    requires WellFormed(nodes) && |nodes[0].children| > 0
    ensures ParentsBefore(nodes)
    ensures IndexStr(nodes, 0) == IndexStr(nodes, nodes[0].children[0]) == Ok("1")
  {
    var c := nodes[0].children[0];
    assert nodes[c].index == 1 && nodes[c].depth == 1;
    assert NatToString(1) == "1";
  }

  // ---------------------------------------------------------------------------------
  // A worked tree

  /** root -> A -> {A1, A2}, root -> B. */
  const Sample := [TocNode("", "", None, [1, 4], 0, 1),
                   TocNode("A", "a.html", Some(0), [2, 3], 1, 1),
                   TocNode("A1", "a1.html", Some(1), [], 2, 1),
                   TocNode("A2", "a2.html", Some(1), [], 2, 2),
                   TocNode("B", "b.html", Some(0), [], 1, 2)]

  /** Four `add_toc_map_node` calls build it. */
  lemma SampleBuilt()
    ensures Attach(Attach(Attach(Attach([Root], 0, "a.html", "A"), 1, "a1.html", "A1"), 1, "a2.html", "A2"), 0, "b.html", "B") == Sample
    ensures WellFormed(Sample)
  {
    var root, a, a1, a2, b := Sample[0], Sample[1], Sample[2], Sample[3], Sample[4];
    assert [] + [1] == [1] && [1] + [4] == [1, 4] && [] + [2] == [2] && [2] + [3] == [2, 3];
    var t1 := Attach([Root], 0, "a.html", "A");
    assert t1 == [root.(children := [1]), a.(children := [])];
    var t2 := Attach(t1, 1, "a1.html", "A1");
    assert t2 == [root.(children := [1]), a.(children := [2]), a1];
    var t3 := Attach(t2, 1, "a2.html", "A2");
    assert t3 == [root.(children := [1]), a, a1, a2];
    assert Attach(t3, 0, "b.html", "B") == Sample;
    RootAloneValid();
    AttachWellFormed([Root], 0, "a.html", "A");
    AttachWellFormed(t1, 1, "a1.html", "A1");
    AttachWellFormed(t2, 1, "a2.html", "A2");
    AttachWellFormed(t3, 0, "b.html", "B");
  }

  /** In that tree the index strings of A, A1, A2 and B are 1, 1.1, 1.2 and 2. */
  lemma SampleIndexStrs()
    ensures ParentsBefore(Sample)
    ensures IndexStr(Sample, 1) == Ok("1") && IndexStr(Sample, 2) == Ok("1.1")
    ensures IndexStr(Sample, 3) == Ok("1.2") && IndexStr(Sample, 4) == Ok("2")
  {
    assert NatToString(1) == "1" && NatToString(2) == "2";
    assert IndexStr(Sample, 1) == Ok("1");
    assert "1" + "." + "1" == "1.1" && "1" + "." + "2" == "1.2";
  }

  /** The pre-order of that tree is root, A, A1, A2, B. */
  lemma SamplePreOrder()
    ensures WellFormed(Sample) && PreOrder(Sample, 0) == [0, 1, 2, 3, 4]
  {
    assert [0] + ([] + [1, 2, 3] + [4]) == [0, 1, 2, 3, 4];
    SampleBuilt();
    SampleSubtreeA();
    var c0 := Sample[0].children;
    assert |c0| == 2 && c0[0] == 1 && c0[1] == 4 && Sample[4].children == [];
    assert PreOrder(Sample, 4) == [4];
    assert Forest(Sample, 0, 2) == [] + [1, 2, 3] + [4];
  }

  lemma SampleSubtreeA()
    ensures WellFormed(Sample) && PreOrder(Sample, 1) == [1, 2, 3]
  {
    assert [1] + ([] + [2] + [3]) == [1, 2, 3];
    SampleBuilt();
    var c1 := Sample[1].children;
    assert |c1| == 2 && c1[0] == 2 && c1[1] == 3;
    assert Sample[2].children == [] && Sample[3].children == [];
    assert PreOrder(Sample, 2) == [2] && PreOrder(Sample, 3) == [3];
    assert Forest(Sample, 1, 2) == [] + [2] + [3];
  }

  /** The play orders of root, A, A1, A2 and B are 0, 1, 2, 3 and 4. */
  lemma SamplePlayOrders()
    ensures WellFormed(Sample) && PlayOrders(Sample) == [0, 1, 2, 3, 4]
  {
    SamplePreOrder();
    PlayOrderNumbering(Sample);
    var po := PreOrder(Sample, 0);
    assert po[1] == 1 && po[2] == 2 && po[3] == 3 && po[4] == 4;
  }
}
