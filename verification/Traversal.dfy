/** Tree traversals driven by an explicit stack. */
module Traversal {
  datatype Tree = Empty | Node(val: int, left: Tree, right: Tree)

  function Preorder(t: Tree): seq<int> {
    if t.Empty? then [] else [t.val] + Preorder(t.left) + Preorder(t.right)
  }

  function Inorder(t: Tree): seq<int> {
    if t.Empty? then [] else Inorder(t.left) + [t.val] + Inorder(t.right)
  }

  /** What a stack of whole subtrees still has to give; the top is the last element. */
  function AllOf(nodes: seq<Tree>): seq<int> {
    if nodes == [] then [] else Preorder(nodes[|nodes| - 1]) + AllOf(nodes[..|nodes| - 1])
  }

  /** What a stack of nodes whose left subtrees are done still has to give. */
  function RightParts(nodes: seq<Tree>): seq<int>
    requires forall t :: t in nodes ==> t.Node?
  {
    if nodes == [] then []
    else
      var top := nodes[|nodes| - 1];
      [top.val] + Inorder(top.right) + RightParts(nodes[..|nodes| - 1])
  }

  lemma {:induction false} AllOfPush(nodes: seq<Tree>, t: Tree)
    ensures AllOf(nodes + [t]) == Preorder(t) + AllOf(nodes)
  {
    assert (nodes + [t])[..|nodes|] == nodes;
  }

  lemma {:induction false} RightPartsPush(nodes: seq<Tree>, t: Tree)
    requires forall u :: u in nodes + [t] ==> u.Node?
    ensures forall u :: u in nodes ==> u.Node?
    ensures RightParts(nodes + [t]) == [t.val] + Inorder(t.right) + RightParts(nodes)
  {
    assert (nodes + [t])[..|nodes|] == nodes;
    assert forall u :: u in nodes ==> u in nodes + [t];
  }

  lemma Regroup<T>(given: seq<T>, v: T, l: seq<T>, r: seq<T>, rest: seq<T>)
    ensures (given + [v]) + (l + (r + rest)) == given + (([v] + l + r) + rest)
  {}

  lemma RegroupInorder<T>(given: seq<T>, v: T, l: seq<T>, r: seq<T>, rest: seq<T>)
    ensures given + (l + ([v] + r + rest)) == given + ((l + [v] + r) + rest)
    ensures (given + [v]) + (r + rest) == given + ([v] + r + rest)
    ensures given + (([] + [v] + r) + rest) == given + ([v] + r + rest)
  {}

  /** Visiting the top of the stack leaves its two subtrees, the left one first. */
  lemma VisitTop(nodes: seq<Tree>, given: seq<int>)
    requires nodes != [] && nodes[|nodes| - 1].Node?
    ensures var node, rest := nodes[|nodes| - 1], nodes[..|nodes| - 1];
      given + AllOf(nodes) == (given + [node.val]) + (Preorder(node.left) + (Preorder(node.right) + AllOf(rest)))
  {
    var node, rest := nodes[|nodes| - 1], nodes[..|nodes| - 1];
    Regroup(given, node.val, Preorder(node.left), Preorder(node.right), AllOf(rest));
  }

  lemma EmptyGivesNothing()
    ensures Preorder(Empty) == [] && Inorder(Empty) == [] && AllOf([]) == [] && RightParts([]) == []
  {}

  lemma Pushed(nodes: seq<Tree>, t: Tree)
    ensures AllOf(if t.Node? then nodes + [t] else nodes) == Preorder(t) + AllOf(nodes)
  {
    AllOfPush(nodes, t);
  }

  method PreorderTraversal(root: Tree) returns (result: seq<int>)
    ensures result == Preorder(root)
  {
    hide *;
    EmptyGivesNothing();
    result := [];
    if root.Empty? {
      return;
    }
    var nodes: seq<Tree> := [root];
    Pushed([], root);
    assert [] + [root] == nodes;
    while nodes != []
      invariant forall t :: t in nodes ==> t.Node?
      invariant result + AllOf(nodes) == Preorder(root)
      decreases |Preorder(root)| - |result|
    {
      VisitTop(nodes, result);
      var node := nodes[|nodes| - 1];
      nodes := nodes[..|nodes| - 1];
      result := result + [node.val];
      Pushed(nodes, node.right);
      if node.right.Node? {
        nodes := nodes + [node.right];
      }
      Pushed(nodes, node.left);
      if node.left.Node? {
        nodes := nodes + [node.left];
      }
    }
  }

  /** Going on to the left child turns its parent into a node whose left subtree comes first. */
  lemma {:induction false} GoLeft(given: seq<int>, node: Tree, below: seq<Tree>)
    requires node.Node? && forall t :: t in below ==> t.Node?
    ensures forall t :: t in below + [node] ==> t.Node?
    ensures given + (Inorder(node) + RightParts(below)) == given + (Inorder(node.left) + RightParts(below + [node]))
  {
    RightPartsPush(below, node);
    RegroupInorder(given, node.val, Inorder(node.left), Inorder(node.right), RightParts(below));
  }

  /** A node without a left subtree is given, and its right subtree comes next. */
  lemma {:induction false} GiveLeftmost(given: seq<int>, node: Tree, below: seq<Tree>)
    requires node.Node? && node.left.Empty? && forall t :: t in below ==> t.Node?
    ensures given + (Inorder(node) + RightParts(below)) == (given + [node.val]) + (Inorder(node.right) + RightParts(below))
  {
    RegroupInorder(given, node.val, [], Inorder(node.right), RightParts(below));
  }

  /** With the top popped, the node in it is given and its right subtree comes next. */
  lemma GivePopped(given: seq<int>, nodes: seq<Tree>)
    requires nodes != [] && forall t :: t in nodes ==> t.Node?
    ensures var node, rest := nodes[|nodes| - 1], nodes[..|nodes| - 1];
      given + ([] + RightParts(nodes)) == (given + [node.val]) + (Inorder(node.right) + RightParts(rest))
  {
    var node, rest := nodes[|nodes| - 1], nodes[..|nodes| - 1];
    assert [] + RightParts(nodes) == [node.val] + Inorder(node.right) + RightParts(rest);
    RegroupInorder(given, node.val, [], Inorder(node.right), RightParts(rest));
  }

  /**
   * At the head of the loop the top of the stack is a subtree still to be given in full, and every
   * node below it has only itself and its right subtree left to give.
   */
  method InorderTraversal(root: Tree) returns (result: seq<int>)
    ensures result == Inorder(root)
  {
    hide *;
    EmptyGivesNothing();
    result := [];
    if root.Empty? {
      return;
    }
    var nodes: seq<Tree> := [root];
    while nodes != []
      invariant forall t :: t in nodes ==> t.Node?
      invariant nodes == [] ==> result == Inorder(root)
      invariant nodes != [] ==>
        result + (Inorder(nodes[|nodes| - 1]) + RightParts(nodes[..|nodes| - 1])) == Inorder(root)
      decreases |Inorder(root)| - |result|
    {
      ghost var given := |result|;
      var node := nodes[|nodes| - 1];
      while node.left.Node?
        invariant nodes != [] && node == nodes[|nodes| - 1]
        invariant forall t :: t in nodes ==> t.Node?
        invariant result + (Inorder(node) + RightParts(nodes[..|nodes| - 1])) == Inorder(root)
        decreases node
      {
        ghost var below := nodes[..|nodes| - 1];
        assert nodes == below + [node];
        GoLeft(result, node, below);
        node := node.left;
        ghost var above := nodes;
        nodes := nodes + [node];
        assert nodes[..|nodes| - 1] == above;
      }
      GiveLeftmost(result, node, nodes[..|nodes| - 1]);
      nodes := nodes[..|nodes| - 1];
      result := result + [node.val];
      while node.right.Empty? && nodes != []
        invariant node.Node? && forall t :: t in nodes ==> t.Node?
        invariant result + (Inorder(node.right) + RightParts(nodes)) == Inorder(root)
        invariant given < |result|
        decreases |nodes|
      {
        GivePopped(result, nodes);
        node := nodes[|nodes| - 1];
        nodes := nodes[..|nodes| - 1];
        result := result + [node.val];
      }
      if node.right.Node? {
        ghost var below := nodes;
        nodes := nodes + [node.right];
        assert nodes[..|nodes| - 1] == below;
      }
    }
  }

  /** Both traversals give the same values, each as often as the tree has it. */
  lemma {:induction false} SameValues(t: Tree)
    ensures multiset(Preorder(t)) == multiset(Inorder(t))
  {
    if t.Node? {
      SameValues(t.left);
      SameValues(t.right);
    }
  }

  // ----- the orders of the nodes -----

  /** The way down to a node: false for left, true for right. */
  type Path = seq<bool>

  function Child(t: Tree, right: bool): Tree
    requires t.Node?
  {
    if right then t.right else t.left
  }

  predicate LeadsToNode(t: Tree, p: Path) {
    t.Node? && (p == [] || LeadsToNode(Child(t, p[0]), p[1..]))
  }

  function ValueAt(t: Tree, p: Path): int
    requires LeadsToNode(t, p)
  {
    if p == [] then t.val else ValueAt(Child(t, p[0]), p[1..])
  }

  /** A node is before what hangs below it, and what hangs on the left before what hangs on the right. */
  predicate BeforeInPreorder(p: Path, q: Path) {
    q != [] && (p == [] || (!p[0] && q[0]) || (p[0] == q[0] && BeforeInPreorder(p[1..], q[1..])))
  }

  /** What hangs on the left of a node is before it, and it is before what hangs on the right. */
  predicate BeforeInInorder(p: Path, q: Path) {
    if p == [] then q != [] && q[0]
    else if q == [] then !p[0]
    else (!p[0] && q[0]) || (p[0] == q[0] && BeforeInInorder(p[1..], q[1..]))
  }

  /** The values are those of the nodes that the paths lead to, one before the other. */
  ghost predicate InOrder(t: Tree, values: seq<int>, paths: seq<Path>, before: (Path, Path) -> bool) {
    && |paths| == |values|
    && (forall i :: 0 <= i < |paths| ==> LeadsToNode(t, paths[i]) && values[i] == ValueAt(t, paths[i]))
    && (forall i, j :: 0 <= i < j < |paths| ==> before(paths[i], paths[j]))
  }

  /** And the paths are those to all nodes. */
  ghost predicate Visits(t: Tree, values: seq<int>, paths: seq<Path>, before: (Path, Path) -> bool) {
    InOrder(t, values, paths, before) && forall p :: p in paths <==> LeadsToNode(t, p)
  }

  lemma Joined(t: Tree, a: seq<int>, p: seq<Path>, b: seq<int>, q: seq<Path>, before: (Path, Path) -> bool)
    requires InOrder(t, a, p, before) && InOrder(t, b, q, before)
    requires forall i, j :: 0 <= i < |p| && 0 <= j < |q| ==> before(p[i], q[j])
    ensures InOrder(t, a + b, p + q, before)
  {}

  lemma JoinedThree(t: Tree, a: seq<int>, p: seq<Path>, b: seq<int>, q: seq<Path>, c: seq<int>, r: seq<Path>,
                    before: (Path, Path) -> bool)
    requires InOrder(t, a, p, before) && InOrder(t, b, q, before) && InOrder(t, c, r, before)
    requires forall i, j :: 0 <= i < |p| && 0 <= j < |q| ==> before(p[i], q[j])
    requires forall i, j :: 0 <= i < |p| && 0 <= j < |r| ==> before(p[i], r[j])
    requires forall i, j :: 0 <= i < |q| && 0 <= j < |r| ==> before(q[i], r[j])
    ensures InOrder(t, a + b + c, p + q + r, before)
  {
    hide InOrder;
    Joined(t, a, p, b, q, before);
    Joined(t, a + b, p + q, c, r, before);
  }

  /** The same ways down from one node further up. */
  function Below(right: bool, paths: seq<Path>): (r: seq<Path>)
    ensures |r| == |paths| && forall i :: 0 <= i < |r| ==> r[i] == [right] + paths[i]
  {
    seq(|paths|, i requires 0 <= i < |paths| => [right] + paths[i])
  }

  lemma BelowHas(right: bool, paths: seq<Path>, p: Path)
    ensures p in Below(right, paths) <==> p != [] && p[0] == right && p[1..] in paths
  {
    var r := Below(right, paths);
    if p != [] && p[0] == right && p[1..] in paths {
      var i :| 0 <= i < |paths| && paths[i] == p[1..];
      assert r[i] == p;
    }
    if p in r {
      var i :| 0 <= i < |r| && r[i] == p;
      assert p[1..] == paths[i];
    }
  }

  /** The nodes on one side keep their values, seen from further up. */
  lemma ChildVisits(t: Tree, right: bool, values: seq<int>, paths: seq<Path>, before: (Path, Path) -> bool)
    requires t.Node? && Visits(Child(t, right), values, paths, before)
    requires forall p: Path, q: Path :: before([right] + p, [right] + q) == before(p, q)
    ensures InOrder(t, values, Below(right, paths), before)
  {
    var r := Below(right, paths);
    forall i | 0 <= i < |r|
      ensures LeadsToNode(t, r[i]) && values[i] == ValueAt(t, r[i])
    {
      assert r[i][1..] == paths[i];
    }
    assert forall i, j :: 0 <= i < j < |r| ==> before(r[i], r[j]) == before(paths[i], paths[j]);
  }

  /** Every node is the root, or on the left or the right of it. */
  lemma {:induction false} AllVisited(t: Tree, l: seq<Path>, r: seq<Path>, paths: seq<Path>)
    requires t.Node?
    requires forall p :: p in l <==> LeadsToNode(t.left, p)
    requires forall p :: p in r <==> LeadsToNode(t.right, p)
    requires forall p :: p in paths <==> p == [] || p in Below(false, l) || p in Below(true, r)
    ensures forall p :: p in paths <==> LeadsToNode(t, p)
  {
    forall p: Path
      ensures p in paths <==> LeadsToNode(t, p)
    {
      BelowHas(false, l, p);
      BelowHas(true, r, p);
    }
  }

  lemma SameSideInPreorder(right: bool)
    ensures forall p: Path, q: Path :: BeforeInPreorder([right] + p, [right] + q) == BeforeInPreorder(p, q)
  {
    forall p: Path, q: Path
      ensures BeforeInPreorder([right] + p, [right] + q) == BeforeInPreorder(p, q)
    {
      assert ([right] + p)[1..] == p && ([right] + q)[1..] == q;
    }
  }

  lemma SameSideInInorder(right: bool)
    ensures forall p: Path, q: Path :: BeforeInInorder([right] + p, [right] + q) == BeforeInInorder(p, q)
  {
    forall p: Path, q: Path
      ensures BeforeInInorder([right] + p, [right] + q) == BeforeInInorder(p, q)
    {
      assert ([right] + p)[1..] == p && ([right] + q)[1..] == q;
    }
  }

  lemma SidesInPreorder(l: seq<Path>, r: seq<Path>)
    ensures forall i :: 0 <= i < |l| ==> BeforeInPreorder([], Below(false, l)[i])
    ensures forall j :: 0 <= j < |r| ==> BeforeInPreorder([], Below(true, r)[j])
    ensures forall i, j :: 0 <= i < |l| && 0 <= j < |r| ==> BeforeInPreorder(Below(false, l)[i], Below(true, r)[j])
  {}

  lemma NodePreorder(t: Tree, l: seq<Path>, r: seq<Path>)
    requires t.Node? && Visits(t.left, Preorder(t.left), l, BeforeInPreorder) && Visits(t.right, Preorder(t.right), r, BeforeInPreorder)
    ensures InOrder(t, [t.val] + Preorder(t.left) + Preorder(t.right), [[]] + Below(false, l) + Below(true, r), BeforeInPreorder)
  {
    SidesInPreorder(l, r);
    assert InOrder(t, [t.val], [[]], BeforeInPreorder);
    SameSideInPreorder(false);
    SameSideInPreorder(true);
    hide InOrder, LeadsToNode, BeforeInPreorder, Preorder;
    ChildVisits(t, false, Preorder(t.left), l, BeforeInPreorder);
    ChildVisits(t, true, Preorder(t.right), r, BeforeInPreorder);
    hide Visits;
    JoinedThree(t, [t.val], [[]], Preorder(t.left), Below(false, l), Preorder(t.right), Below(true, r), BeforeInPreorder);
  }

  /** The preorder is the values of all nodes, each before all below it and the left before the right. */
  lemma {:induction false} PreorderVisits(t: Tree) returns (paths: seq<Path>)
    ensures Visits(t, Preorder(t), paths, BeforeInPreorder)
  {
    paths := [];
    if t.Node? {
      var l := PreorderVisits(t.left);
      var r := PreorderVisits(t.right);
      NodePreorder(t, l, r);
      paths := [[]] + Below(false, l) + Below(true, r);
      hide InOrder, LeadsToNode, BeforeInPreorder;
      AllVisited(t, l, r, paths);
    }
  }

  lemma SidesInInorder(l: seq<Path>, r: seq<Path>)
    ensures forall i :: 0 <= i < |l| ==> BeforeInInorder(Below(false, l)[i], [])
    ensures forall j :: 0 <= j < |r| ==> BeforeInInorder([], Below(true, r)[j])
    ensures forall i, j :: 0 <= i < |l| && 0 <= j < |r| ==> BeforeInInorder(Below(false, l)[i], Below(true, r)[j])
  {}

  lemma NodeInorder(t: Tree, l: seq<Path>, r: seq<Path>)
    requires t.Node? && Visits(t.left, Inorder(t.left), l, BeforeInInorder) && Visits(t.right, Inorder(t.right), r, BeforeInInorder)
    ensures InOrder(t, Inorder(t.left) + [t.val] + Inorder(t.right), Below(false, l) + [[]] + Below(true, r), BeforeInInorder)
  {
    SidesInInorder(l, r);
    assert InOrder(t, [t.val], [[]], BeforeInInorder);
    SameSideInInorder(false);
    SameSideInInorder(true);
    hide InOrder, LeadsToNode, BeforeInInorder, Inorder;
    ChildVisits(t, false, Inorder(t.left), l, BeforeInInorder);
    ChildVisits(t, true, Inorder(t.right), r, BeforeInInorder);
    hide Visits;
    JoinedThree(t, Inorder(t.left), Below(false, l), [t.val], [[]], Inorder(t.right), Below(true, r), BeforeInInorder);
  }

  /** The inorder is the values of all nodes, each after all on its left and before all on its right. */
  lemma {:induction false} InorderVisits(t: Tree) returns (paths: seq<Path>)
    ensures Visits(t, Inorder(t), paths, BeforeInInorder)
  {
    paths := [];
    if t.Node? {
      var l := InorderVisits(t.left);
      var r := InorderVisits(t.right);
      NodeInorder(t, l, r);
      paths := Below(false, l) + [[]] + Below(true, r);
      hide InOrder, LeadsToNode, BeforeInInorder;
      AllVisited(t, l, r, paths);
    }
  }
}
