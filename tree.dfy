/** Reference views of a node tree used to state what the tree operations do:
    the pre-order sequence of nodes, per-node labels, child-index paths, id uniqueness,
    and equality up to ids. */
module Tree {
  import opened Types

  /** The nodes of the tree rooted at `n`, parent before children, children in order. */
  function PreOrder(n: Node): (s: seq<Node>)
    ensures |s| >= 1 && s[0] == n
  {
    [n] + PreOrderForest(n.children)
  }

  function PreOrderForest(cs: seq<Node>): seq<Node>
  {
    if cs == [] then [] else PreOrder(cs[0]) + PreOrderForest(cs[1..])
  }

  lemma {:induction false} PreOrderForestAppend(a: seq<Node>, b: seq<Node>)
    ensures PreOrderForest(a + b) == PreOrderForest(a) + PreOrderForest(b)
  {
    if a == [] {
      assert a + b == b;
    } else {
      assert (a + b)[1..] == a[1..] + b;
      PreOrderForestAppend(a[1..], b);
    }
  }

  lemma PreOrderForestSingle(c: Node)
    ensures PreOrderForest([c]) == PreOrder(c)
  {
    assert [c][1..] == [];
  }

  /** Every node below a child of `n` is also below `n`. */
  lemma {:induction false} ChildPreOrderIncluded(cs: seq<Node>, k: nat)
    requires k < |cs|
    ensures forall x :: x in PreOrder(cs[k]) ==> x in PreOrderForest(cs)
  {
    if k > 0 {
      ChildPreOrderIncluded(cs[1..], k - 1);
    }
  }

  /** The pre-order of a node inside the tree is part of the tree's pre-order. */
  lemma {:induction false} DescendantsIncluded(n: Node, x: Node)
    requires x in PreOrder(n)
    ensures forall z :: z in PreOrder(x) ==> z in PreOrder(n)
    decreases n
  {
    if x != n {
      DescendantsInForest(n.children, x);
    }
  }

  lemma {:induction false} DescendantsInForest(cs: seq<Node>, x: Node)
    requires x in PreOrderForest(cs)
    ensures forall z :: z in PreOrder(x) ==> z in PreOrderForest(cs)
    decreases cs
  {
    if x in PreOrder(cs[0]) {
      DescendantsIncluded(cs[0], x);
    } else {
      DescendantsInForest(cs[1..], x);
    }
  }

  /** Every node below a child of `n` is also below `n`. */
  lemma ChildDescendantsIncluded(n: Node, c: Node)
    requires c in n.children
    ensures forall z :: z in PreOrder(c) ==> z in PreOrder(n)
  {
    var k :| 0 <= k < |n.children| && n.children[k] == c;
    ChildPreOrderIncluded(n.children, k);
  }

  /** A node strictly below `x` spans fewer pre-order entries than `x`. */
  lemma {:induction false} ForestMemberSmaller(cs: seq<Node>, y: Node)
    requires y in PreOrderForest(cs)
    ensures |PreOrder(y)| <= |PreOrderForest(cs)|
    decreases cs
  {
    if y in PreOrder(cs[0]) {
      MemberSmaller(cs[0], y);
    } else {
      ForestMemberSmaller(cs[1..], y);
    }
  }

  lemma {:induction false} MemberSmaller(n: Node, y: Node)
    requires y in PreOrder(n)
    ensures |PreOrder(y)| <= |PreOrder(n)|
    decreases n
  {
    if y != n {
      ForestMemberSmaller(n.children, y);
    }
  }

  /** Ids are pairwise distinct over the whole tree (the document invariant). */
  ghost predicate UniqueIds(n: Node)
  {
    forall i, j :: 0 <= i < j < |PreOrder(n)| ==> PreOrder(n)[i].id != PreOrder(n)[j].id
  }

  /** No node carrying `id` has a strict descendant carrying `id`. */
  ghost predicate NotNested(n: Node, id: uint32)
  {
    forall x :: x in PreOrder(n) && x.id == id ==>
      forall y :: y in PreOrderForest(x.children) ==> y.id != id
  }

  lemma UniqueNotNested(n: Node, id: uint32)
    requires UniqueIds(n)
    ensures NotNested(n, id)
  {
    var s := PreOrder(n);
    forall x, y | x in s && x.id == id && y in PreOrderForest(x.children)
      ensures y.id != id
    {
      DescendantsIncluded(n, x);
      assert y in PreOrder(x);
      ForestMemberSmaller(x.children, y);
      assert y != x;
      var i :| 0 <= i < |s| && s[i] == x;
      var j :| 0 <= j < |s| && s[j] == y;
      assert i != j;
    }
  }

  /** Under unique ids, two nodes of the tree with the same id are the same node. */
  lemma UniqueSameNode(n: Node, x: Node, y: Node)
    requires UniqueIds(n) && x in PreOrder(n) && y in PreOrder(n) && x.id == y.id
    ensures x == y
  {
    var s := PreOrder(n);
    var i :| 0 <= i < |s| && s[i] == x;
    var j :| 0 <= j < |s| && s[j] == y;
    assert i == j;
  }

  // ---------------------------------------------------------------------------
  // Labels: what a node carries apart from its subtrees
  // ---------------------------------------------------------------------------

  datatype Label = Label(id: uint32, name: string, content: string, arity: nat)

  function LabelOf(n: Node): Label
  {
    Label(n.id, n.name, n.content, |n.children|)
  }

  function Labels(s: seq<Node>): (ls: seq<Label>)
    ensures |ls| == |s|
    ensures forall i :: 0 <= i < |s| ==> ls[i] == LabelOf(s[i])
  {
    if s == [] then [] else [LabelOf(s[0])] + Labels(s[1..])
  }

  lemma LabelsAppend(a: seq<Node>, b: seq<Node>)
    ensures Labels(a + b) == Labels(a) + Labels(b)
  {
  }

  // ---------------------------------------------------------------------------
  // Child-index paths
  // ---------------------------------------------------------------------------

  /** `q` leads from `n` to a node by successive child indices. */
  ghost predicate IsPath(n: Node, q: seq<nat>)
    decreases |q|
  {
    q == [] || (q[0] < |n.children| && IsPath(n.children[q[0]], q[1..]))
  }

  ghost function At(n: Node, q: seq<nat>): Node
    requires IsPath(n, q)
    decreases |q|
  {
    if q == [] then n else At(n.children[q[0]], q[1..])
  }

  /** Same names, contents and shape at every depth; ids may differ. */
  ghost predicate SameUpToIds(a: Node, b: Node)
    decreases a
  {
    && a.name == b.name
    && a.content == b.content
    && |a.children| == |b.children|
    && forall i :: 0 <= i < |a.children| ==> SameUpToIds(a.children[i], b.children[i])
  }
}
