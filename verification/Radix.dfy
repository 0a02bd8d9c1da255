/** src/misc/radix_tree.c on heap nodes: insertion splits leaves in place, deletion collapses nodes,
    lookup walks down.  Allocation may fail at any node (`kmalloc` returning NULL).
 */
module Radix {
  import opened Bits
  import opened RadixSpec

  const ENOMEM: int := 12
  const EINVAL: int := 22

  class Node {
    var prefix: nat
    var isLeaf: bool
    var value: Value
    var children: seq<Node?>
    ghost var tree: Tree
    ghost var nodes: set<Node>

    ghost predicate Valid()
      reads this, nodes
      decreases nodes
    {
      && this in nodes && |children| == 4
      && (if isLeaf then
            && nodes == {this} && tree == Leaf(prefix, value)
            && children == [null, null, null, null]
          else
            && ChildOk(0) && ChildOk(1) && ChildOk(2) && ChildOk(3)
            && NodesOf(children[0]) !! NodesOf(children[1]) !! NodesOf(children[2]) !! NodesOf(children[3])
            && nodes == {this} + AllNodes(children)
            && tree == InnerOf(children))
    }

    ghost predicate ChildOk(i: nat)
      requires i < |children| && this in nodes
      reads this, nodes
      decreases nodes, 0
    {
      children[i] != null ==>
        && children[i] in nodes && children[i].nodes < nodes && this !in children[i].nodes
        && children[i].Valid()
    }

    constructor (prefix: nat, isLeaf: bool, value: Value)
      ensures this.prefix == prefix && this.isLeaf == isLeaf && this.value == value
      ensures children == [null, null, null, null]
      ensures tree == (if isLeaf then Leaf(prefix, value) else NoKids) && nodes == {this}
      ensures Valid()
    {
      this.prefix, this.isLeaf, this.value := prefix, isLeaf, value;
      children := [null, null, null, null];
      tree := if isLeaf then Leaf(prefix, value) else NoKids;
      nodes := {this};
    }
  }

  ghost function TreeOf(n: Node?): Tree
    reads n
  {
    if n == null then Empty else n.tree
  }

  ghost function NodesOf(n: Node?): set<Node>
    reads n
  {
    if n == null then {} else n.nodes
  }

  ghost predicate Ok(n: Node?)
    reads n, NodesOf(n)
  {
    n != null ==> n.Valid()
  }

  ghost function AllNodes(cs: seq<Node?>): set<Node>
    requires |cs| == 4
    reads cs[0], cs[1], cs[2], cs[3]
  {
    NodesOf(cs[0]) + NodesOf(cs[1]) + NodesOf(cs[2]) + NodesOf(cs[3])
  }

  ghost function InnerOf(cs: seq<Node?>): Tree
    requires |cs| == 4
    reads cs[0], cs[1], cs[2], cs[3]
  {
    Inner(TreeOf(cs[0]), TreeOf(cs[1]), TreeOf(cs[2]), TreeOf(cs[3]))
  }

  /** Four subtrees that share no node. */
  ghost predicate Family(cs: seq<Node?>)
    requires |cs| == 4
    reads cs[0], cs[1], cs[2], cs[3], AllNodes(cs)
  {
    && Ok(cs[0]) && Ok(cs[1]) && Ok(cs[2]) && Ok(cs[3])
    && NodesOf(cs[0]) !! NodesOf(cs[1]) !! NodesOf(cs[2]) !! NodesOf(cs[3])
  }

  lemma InnerIsFamily(n: Node)
    requires n.Valid() && !n.isLeaf
    ensures |n.children| == 4 && Family(n.children) && n !in AllNodes(n.children)
    ensures n.tree.Inner? && n.tree == InnerOf(n.children) && n.nodes == {n} + AllNodes(n.children)
    ensures forall i: nat :: i < 4 ==> Kid(n.tree, i) == TreeOf(n.children[i]) && NodesOf(n.children[i]) <= n.nodes && Ok(n.children[i])
  {
  }

  // ---------- Memory ----------

  /** What kmalloc has given out for nodes and kfree has not got back. */
  class Heap {
    ghost var live: set<Node>

    constructor ()
      ensures live == {}
    {
      live := {};
    }
  }

  ghost function Only(n: Node?): set<Node> { if n == null then {} else {n} }

  /** The nodes ns0 of a tree became ns.  Beside the tree, the same nodes are live as before, and `lost`. */
  ghost predicate Balanced(live0: set<Node>, ns0: set<Node>, live: set<Node>, ns: set<Node>, lost: Node?) {
    ns <= live && live - ns == live0 - ns0 + Only(lost) && (lost != null ==> lost !in live0 - ns0)
  }

  /** kfree: of a live node. */
  method Kfree(h: Heap, n: Node)
    requires n in h.live
    modifies h
    ensures h.live == old(h.live) - {n}
  {
    h.live := h.live - {n};
  }

  /** rxtree_node_free: every node of the tree, each once. */
  method NodeFree(h: Heap, n: Node?)
    requires Ok(n) && NodesOf(n) <= h.live
    modifies h, NodesOf(n)
    ensures h.live == old(h.live) - old(NodesOf(n))
    decreases NodesOf(n), 0
  {
    if n == null { return; }
    hide Node.Valid, Ok, KidAt, Before;
    ghost var live0, cs := h.live, n.children;
    ghost var ks := KidNodes(n);
    BeforeFour(ks);
    for i := 0 to 4
      invariant |n.children| == 4 && h.live == live0 - Before(ks, i)
      invariant forall j: nat :: i <= j < 4 ==> KidAt(n.children, cs, ks, j)
    {
      BeforeNext(ks, i);
      BeforeApart(ks, i, i);
      FreeChild(h, n, i, cs, ks);
    }
    Kfree(h, n);
  }

  /** The body of the loop. */
  method FreeChild(h: Heap, n: Node, i: nat, ghost cs: seq<Node?>, ghost ks: seq<set<Node>>)
    requires i < 4 && |n.children| == 4 == |cs| == |ks| && n !in ks[i] && ks[i] <= h.live
    requires forall j: nat :: i <= j < 4 ==> KidAt(n.children, cs, ks, j)
    requires forall j: nat :: i < j < 4 ==> ks[i] !! ks[j] && n !in ks[j]
    modifies h, n`children, ks[i]
    ensures h.live == old(h.live) - ks[i] && |n.children| == 4
    ensures forall j: nat :: i < j < 4 ==> KidAt(n.children, cs, ks, j)
    decreases ks[i], 1
  {
    hide Node.Valid;
    assert KidAt(n.children, cs, ks, i);
    if n.children[i] != null {
      NodeFree(h, n.children[i]);
      n.children := n.children[i := null];
    }
    forall j: nat | i < j < 4 ensures KidAt(n.children, cs, ks, j) { assert old(KidAt(n.children, cs, ks, j)); }
  }

  /** The nodes below the first i children. */
  ghost function Before(ks: seq<set<Node>>, i: nat): set<Node>
    requires i <= |ks|
  {
    if i == 0 then {} else Before(ks, i - 1) + ks[i - 1]
  }

  lemma BeforeNext(ks: seq<set<Node>>, i: nat)
    requires i < |ks|
    ensures Before(ks, i + 1) == Before(ks, i) + ks[i]
  {
  }

  lemma BeforeFour(ks: seq<set<Node>>)
    requires |ks| == 4
    ensures Before(ks, 0) == {} && Before(ks, 4) == ks[0] + ks[1] + ks[2] + ks[3]
  {
    assert Before(ks, 1) == ks[0];
    assert Before(ks, 2) == ks[0] + ks[1];
    assert Before(ks, 3) == ks[0] + ks[1] + ks[2];
  }

  lemma {:induction false} BeforeApart(ks: seq<set<Node>>, i: nat, j: nat)
    requires i <= j < |ks| && forall k: nat :: k < j ==> ks[k] !! ks[j]
    ensures Before(ks, i) !! ks[j]
  {
    if i > 0 { BeforeApart(ks, i - 1, j); }
  }

  ghost predicate KidAt(children: seq<Node?>, cs: seq<Node?>, ks: seq<set<Node>>, j: nat)
    requires j < |children| && j < |cs| && j < |ks|
    reads cs[j], NodesOf(cs[j])
  {
    children[j] == cs[j] && Ok(cs[j]) && NodesOf(cs[j]) == ks[j] && (cs[j] != null ==> cs[j] in ks[j])
  }

  /** The nodes below each child. */
  lemma KidNodes(n: Node) returns (ks: seq<set<Node>>)
    requires n.Valid()
    ensures |ks| == 4 == |n.children| && n.nodes == {n} + Before(ks, 4)
    ensures forall j: nat :: j < 4 ==> KidAt(n.children, n.children, ks, j) && n !in ks[j] && ks[j] < n.nodes
    ensures forall i: nat, j: nat :: i < j < 4 ==> ks[i] !! ks[j]
    ensures n !in Before(ks, 4)
  {
    if !n.isLeaf {
      InnerIsFamily(n);
      InFamily(n.children);
    }
    hide Node.Valid;
    ks := [NodesOf(n.children[0]), NodesOf(n.children[1]), NodesOf(n.children[2]), NodesOf(n.children[3])];
    BeforeFour(ks);
    hide Before;
  }

  /** rxtree_node_alloc */
  method NodeAlloc(h: Heap, prefix: nat, isLeaf: bool, value: Value) returns (n: Node?)
    modifies h
    ensures h.live == old(h.live) + Only(n)
    ensures n != null ==> fresh(n) && n.Valid() && n.nodes == {n}
    ensures n != null ==> n.prefix == prefix && n.isLeaf == isLeaf && n.value == value && n.children == [null, null, null, null]
    ensures n != null ==> n.tree == if isLeaf then Leaf(prefix, value) else NoKids
  {
    var out: bool := *;
    if out { return null; }
    n := new Node(prefix, isLeaf, value);
    h.live := h.live + {n};
  }

  /** (key & mask) >> shift; the shift stays within the 64 bits. */
  method Index(key: nat, depth: nat) returns (i: nat)
    requires depth < LEVELS
    ensures i == Digit(key, depth)
  {
    var shift := 64 - (depth + 1) * 2;
    assert 0 <= shift < 64;
    i := key / Pow2(shift) % 4;
  }

  method MakeInner(n: Node, cs: seq<Node?>, ghost tree: Tree, ghost nodes: set<Node>)
    modifies n
    ensures !n.isLeaf && n.children == cs && n.value == 0 && n.tree == tree && n.nodes == nodes
  {
    n.children, n.isLeaf, n.value := cs, false, 0;
    n.tree, n.nodes := tree, nodes;
  }

  /** Give node n the children cs. */
  method Adopt(n: Node, cs: seq<Node?>)
    requires |cs| == 4 && Family(cs) && n !in AllNodes(cs)
    modifies n
    ensures n.Valid() && !n.isLeaf && n.children == cs && n.value == 0
    ensures n.tree == InnerOf(cs) && n.nodes == {n} + AllNodes(cs)
  {
    hide Node.Valid, InnerOf, AllNodes;
    ghost var tree, nodes := InnerOf(cs), AllNodes(cs);
    InFamily(cs);
    MakeInner(n, cs, tree, {n} + nodes);
    assert AllNodes(cs) == nodes && InnerOf(cs) == tree && Family(cs);
    FamilyIsInner(n);
  }

  lemma FamilyIsInner(n: Node)
    requires |n.children| == 4 && Family(n.children) && n !in AllNodes(n.children) && !n.isLeaf
    requires n.tree == InnerOf(n.children) && n.nodes == {n} + AllNodes(n.children)
    ensures n.Valid()
  {
    InFamily(n.children);
    assert n.ChildOk(0) && n.ChildOk(1) && n.ChildOk(2) && n.ChildOk(3);
  }

  lemma InFamily(cs: seq<Node?>)
    requires |cs| == 4 && Family(cs)
    ensures forall i: nat :: i < 4 && cs[i] != null ==> cs[i] in cs[i].nodes && cs[i].nodes <= AllNodes(cs)
  {
  }

  /** rxtree_insert_node.  The node pointer passed by reference is returned instead.  A node is lost, live
      but in no tree, exactly when the way down ends at the leaf of another key; a failure loses none. */
  method InsertNode(h: Heap, node: Node?, key: nat, value: Value, depth: nat) returns (ret: int, node': Node?, ghost lost: Node?)
    requires depth <= LEVELS && IsKey(key) && Ok(node) && Wf(TreeOf(node), depth) && Under(TreeOf(node), key, depth)
    requires NodesOf(node) <= h.live
    modifies h, NodesOf(node)
    ensures ret == 0 || ret == -ENOMEM
    ensures ret == 0 ==> Ok(node') && TreeOf(node') == old(Insert(TreeOf(node), key, value, depth))
    ensures ret == 0 ==> fresh(NodesOf(node') - old(NodesOf(node)))
    ensures ret == 0 ==> Balanced(old(h.live), old(NodesOf(node)), h.live, NodesOf(node'), lost)
    ensures ret == 0 ==> (lost != null <==> old(Meets(TreeOf(node), key, depth)))
    ensures ret != 0 ==> node' == node && h.live == old(h.live) && forall o :: o in old(NodesOf(node)) ==> unchanged(o)
    decreases LEVELS - depth, 2
  {
    hide IsKey, Wf, Under, With, Digit;
    lost := null;
    if node == null {
      node' := NodeAlloc(h, key, true, value);
      ret := if node' == null then -ENOMEM else 0;
      return;
    }
    if node.isLeaf {
      if node.prefix == key {
        node.value := value;
        node.tree := Leaf(key, value);
        return 0, node, null;
      }
      ret, node', lost := SplitLeaf(h, node, key, value, depth);
      return;
    }
    ret, node', lost := InsertInner(h, node, key, value, depth);
  }

  /** Insertion below an inner node. */
  method InsertInner(h: Heap, node: Node, key: nat, value: Value, depth: nat) returns (ret: int, node': Node?, ghost lost: Node?)
    requires depth <= LEVELS && IsKey(key) && node.Valid() && !node.isLeaf && Wf(node.tree, depth) && Under(node.tree, key, depth)
    requires node.nodes <= h.live
    modifies h, node.nodes
    ensures ret == 0 || ret == -ENOMEM
    ensures ret == 0 ==> Ok(node') && TreeOf(node') == old(Insert(node.tree, key, value, depth))
    ensures ret == 0 ==> fresh(NodesOf(node') - old(node.nodes))
    ensures ret == 0 ==> Balanced(old(h.live), old(node.nodes), h.live, NodesOf(node'), lost)
    ensures ret == 0 ==> (lost != null <==> old(Meets(node.tree, key, depth)))
    ensures ret != 0 ==> node' == node && h.live == old(h.live) && forall o :: o in old(node.nodes) ==> unchanged(o)
    decreases LEVELS - depth, 0
  {
    hide IsKey, Wf, Under, With, Digit, Node.Valid, Others, AllRest, Family, InnerOf, AllNodes, Kid, Balanced;
    InnerIsFamily(node);
    UnderKid(node.tree, key, depth);
    MeetsKid(node.tree, key, depth);
    var i := Index(key, depth);
    var cs := node.children;
    var child: Node?;
    ghost var before, others, below := node.tree, AllRest(cs, i), NodesOf(cs[i]);
    Apart(node, i);
    ret, child, lost := InsertNode(h, cs[i], key, value, depth + 1);
    node' := node;
    if ret == 0 {
      assert node !in NodesOf(child) && others !! NodesOf(child);
      BalancedAbove(old(h.live), below, h.live, NodesOf(child), lost, {node} + others);
      Rehang(node, i, child, before);
    }
  }

  /** What holds of a subtree holds of the whole tree when the rest of it is as before. */
  lemma BalancedAbove(live0: set<Node>, ns0: set<Node>, live: set<Node>, ns: set<Node>, lost: Node?, rest: set<Node>)
    requires Balanced(live0, ns0, live, ns, lost) && rest <= live0 && rest !! ns0 && rest !! ns
    ensures Balanced(live0, rest + ns0, live, rest + ns, lost)
  {
    assert rest <= live0 - ns0;
  }

  /** Child j, unless it is the i-th. */
  function Skip(cs: seq<Node?>, i: nat, j: nat): Node?
    requires |cs| == 4 && j < 4
  {
    if i == j then null else cs[j]
  }

  ghost function AllRest(cs: seq<Node?>, i: nat): set<Node>
    requires |cs| == 4
    reads Skip(cs, i, 0), Skip(cs, i, 1), Skip(cs, i, 2), Skip(cs, i, 3)
  {
    NodesOf(Skip(cs, i, 0)) + NodesOf(Skip(cs, i, 1)) + NodesOf(Skip(cs, i, 2)) + NodesOf(Skip(cs, i, 3))
  }

  /** The children cs other than the i-th are those of t. */
  ghost predicate Others(cs: seq<Node?>, i: nat, t: Tree)
    requires |cs| == 4
    reads Skip(cs, i, 0), Skip(cs, i, 1), Skip(cs, i, 2), Skip(cs, i, 3), AllRest(cs, i)
  {
    && t.Inner? && Other(cs, i, 0, t) && Other(cs, i, 1, t) && Other(cs, i, 2, t) && Other(cs, i, 3, t)
    && NodesOf(Skip(cs, i, 0)) !! NodesOf(Skip(cs, i, 1)) !! NodesOf(Skip(cs, i, 2)) !! NodesOf(Skip(cs, i, 3))
  }

  ghost predicate Other(cs: seq<Node?>, i: nat, j: nat, t: Tree)
    requires |cs| == 4 && j < 4 && t.Inner?
    reads Skip(cs, i, j), NodesOf(Skip(cs, i, j))
  {
    Ok(Skip(cs, i, j)) && (i != j ==> TreeOf(cs[j]) == Kid(t, j))
  }

  lemma Apart(n: Node, i: nat)
    requires n.Valid() && !n.isLeaf && i < 4
    ensures Others(n.children, i, n.tree) && n !in AllRest(n.children, i) && n !in NodesOf(n.children[i])
    ensures AllRest(n.children, i) !! NodesOf(n.children[i]) && n.nodes == {n} + AllRest(n.children, i) + NodesOf(n.children[i])
    ensures AllRest(n.children, i) <= n.nodes && NodesOf(n.children[i]) <= n.nodes
    ensures forall j: nat :: j < 4 && Skip(n.children, i, j) != null ==> Skip(n.children, i, j) in AllRest(n.children, i)
  {
    hide Node.Valid;
    InnerIsFamily(n);
    InFamily(n.children);
  }

  lemma FamilyReplace(cs: seq<Node?>, i: nat, x: Node?, t: Tree)
    requires |cs| == 4 && i < 4 && Ok(x) && Others(cs, i, t) && AllRest(cs, i) !! NodesOf(x)
    ensures Family(cs[i := x]) && AllNodes(cs[i := x]) == AllRest(cs, i) + NodesOf(x)
    ensures InnerOf(cs[i := x]) == With(t, i, TreeOf(x))
  {
  }

  /** Put x in place of the i-th child. */
  method Rehang(n: Node, i: nat, x: Node?, ghost t: Tree)
    requires i < 4 && |n.children| == 4 && Others(n.children, i, t) && n !in AllRest(n.children, i)
    requires Ok(x) && n !in NodesOf(x) && AllRest(n.children, i) !! NodesOf(x)
    modifies n
    ensures n.Valid() && !n.isLeaf && n.tree == With(t, i, TreeOf(x))
    ensures n.nodes == {n} + old(AllRest(n.children, i)) + NodesOf(x)
  {
    hide With, Others, Family;
    FamilyReplace(n.children, i, x, t);
    Adopt(n, n.children[i := x]);
  }

  /** Two keys meet at a leaf: it becomes an inner node in place when they share the next digit, and
      is replaced by a new parent of two leaves when they do not.  The replaced leaf is not freed: in the
      first case that is the leaf the new key was given on the way, in the second it is `current`. */
  method SplitLeaf(h: Heap, current: Node, key: nat, value: Value, depth: nat) returns (ret: int, node': Node?, ghost lost: Node?)
    requires depth <= LEVELS && IsKey(key) && current.Valid() && current.isLeaf && current.prefix != key
    requires Wf(current.tree, depth) && Under(current.tree, key, depth) && current in h.live
    modifies h, current
    ensures ret == 0 || ret == -ENOMEM
    ensures ret == 0 ==> Ok(node') && TreeOf(node') == old(Insert(current.tree, key, value, depth))
    ensures ret == 0 ==> fresh(NodesOf(node') - {current})
    ensures ret == 0 ==> Balanced(old(h.live), {current}, h.live, NodesOf(node'), lost) && lost != null
    ensures ret == 0 ==> depth < LEVELS && (lost == current <==> Digit(key, depth) != Digit(old(current.prefix), depth))
    ensures ret != 0 ==> node' == current && h.live == old(h.live) && unchanged(current)
    decreases LEVELS - depth, 1
  {
    hide With, Digit, Agree, Node.Valid, InnerOf, Family, IsKey, Balanced;
    var k, w := current.prefix, current.value;
    LeafFacts(current);
    SplitDepth(current.tree, key, depth);
    LeafSplit(key, value, k, w, depth);
    lost := current;
    var parent := NodeAlloc(h, 0, false, 0);
    if parent == null { return -ENOMEM, current, null; }
    var i := Index(key, depth);
    var j := Index(k, depth);
    if i == j {
      ret, lost := SplitBelow(h, current, parent, key, value, depth);
      return ret, current, lost;
    }
    ret := TwoLeaves(h, parent, i, key, value, j, k, w);
    if ret != 0 { return ret, current, null; }
    BalancedParent(old(h.live), h.live, current, parent.nodes);
    return 0, parent, current;
  }

  /** The keys share the digit: both are inserted below the parent, whose children `current` takes over. */
  method SplitBelow(h: Heap, current: Node, parent: Node, key: nat, value: Value, depth: nat) returns (ret: int, ghost lost: Node?)
    requires depth < LEVELS && IsKey(key) && current.Valid() && current.isLeaf && current.prefix != key && IsKey(current.prefix)
    requires Under(Leaf(key, value), current.prefix, depth + 1)
    requires parent != current && parent.Valid() && parent.nodes == {parent} && !parent.isLeaf && parent.children == NoChildren
    requires current in h.live && parent in h.live
    modifies h, current, parent
    ensures ret == 0 || ret == -ENOMEM
    ensures ret == 0 ==> current.Valid()
    ensures var grown := old(Insert(Leaf(key, value), current.prefix, current.value, depth + 1));
            ret == 0 ==> current.tree == With(NoKids, Digit(key, depth), grown)
    ensures ret == 0 ==> fresh(current.nodes - {current})
    ensures ret == 0 ==> Balanced(old(h.live) - {parent}, {current}, h.live, current.nodes, lost) && lost != null && lost != current
    ensures ret != 0 ==> h.live == old(h.live) - {parent} && unchanged(current)
    decreases LEVELS - depth, 0
  {
    hide With, Digit, Agree, Node.Valid, InnerOf, Family, IsKey, Balanced, Under, AllNodes;
    ghost var live0 := h.live;
    var k, w := current.prefix, current.value;
    LeafFacts(current);
    NewLeaf(key, value, depth + 1);
    var i := Index(key, depth);
    var child: Node?;
    ret, child, lost := InsertNode(h, null, key, value, depth + 1);
    if ret != 0 {
      NodeFree(h, parent);
      return;
    }
    OneChildFamily(i, child);
    Adopt(parent, NoChildren[i := child]);
    ghost var c1, live1 := NodesOf(child), h.live;
    BalancedNew(live0, live1, c1);
    ret, child, lost := InsertNode(h, child, k, w, depth + 1);
    if ret != 0 {
      NodeFree(h, parent);
      return;
    }
    OneChildFamily(i, child);
    BalancedSplit(live0, current, parent, live1, c1, h.live, NodesOf(child), lost);
    Adopt(current, NoChildren[i := child]);
    Kfree(h, parent);
  }

  /** The keys part: the parent gets two new leaves.  Failing frees it, with the leaf it may have. */
  method TwoLeaves(h: Heap, parent: Node, i: nat, key: nat, value: Value, j: nat, k: nat, w: Value) returns (ret: int)
    requires i < 4 && j < 4 && i != j && parent in h.live
    modifies h, parent
    ensures ret == 0 || ret == -ENOMEM
    ensures ret == 0 ==> parent.Valid() && parent.tree == With(With(NoKids, i, Leaf(key, value)), j, Leaf(k, w))
    ensures ret == 0 ==> fresh(parent.nodes - {parent}) && parent in parent.nodes && h.live == old(h.live) + parent.nodes
    ensures ret != 0 ==> h.live == old(h.live) - {parent}
  {
    hide With, Node.Valid, InnerOf, Family, AllNodes;
    var c1 := NodeAlloc(h, key, true, value);
    var c2 := NodeAlloc(h, k, true, w);
    TwoChildFamily(i, c1, j, c2);
    Adopt(parent, NoChildren[i := c1][j := c2]);
    if c1 == null || c2 == null {
      NodeFree(h, parent);
      return -ENOMEM;
    }
    ret := 0;
  }

  /** A new leaf met no other. */
  lemma NewLeaf(key: nat, value: Value, depth: nat)
    requires depth <= LEVELS && IsKey(key)
    ensures Wf(Empty, depth) && Under(Empty, key, depth) && Insert(Empty, key, value, depth) == Leaf(key, value)
    ensures Wf(Leaf(key, value), depth)
    ensures !Meets(Empty, key, depth) && forall k: nat :: Meets(Leaf(key, value), k, depth) <==> k != key
  {
  }

  lemma BalancedNew(live0: set<Node>, live: set<Node>, ns: set<Node>)
    requires Balanced(live0, {}, live, ns, null)
    ensures live == live0 + ns && live0 !! ns
  {
    assert live - ns == live0;
  }

  lemma BalancedSplit(live0: set<Node>, current: Node, parent: Node, live1: set<Node>, c1: set<Node>, live: set<Node>,
                      c2: set<Node>, lost: Node?)
    requires Balanced(live1, c1, live, c2, lost) && live1 == live0 + c1 && live0 !! c1 && current in live0 && parent in live0
    requires current != parent && lost != null
    ensures Balanced(live0 - {parent}, {current}, live - {parent}, {current} + c2, lost) && lost != current && parent in live
  {
    assert live1 - c1 == live0;
    assert current in live - c2 && parent in live - c2 && lost !in live0;
  }

  lemma BalancedParent(live0: set<Node>, live: set<Node>, current: Node, ns: set<Node>)
    requires live == live0 + ns && live0 !! ns && current in live0
    ensures Balanced(live0, {current}, live, ns, current)
  {
  }

  const NoChildren: seq<Node?> := [null, null, null, null]

  lemma LeafFacts(n: Node)
    requires n.Valid() && n.isLeaf
    ensures n.nodes == {n} && n.tree == Leaf(n.prefix, n.value)
  {
  }

  lemma OneChildFamily(i: nat, x: Node?)
    requires i < 4 && Ok(x)
    ensures Family(NoChildren[i := x]) && AllNodes(NoChildren[i := x]) == NodesOf(x)
    ensures InnerOf(NoChildren[i := x]) == With(NoKids, i, TreeOf(x))
  {
  }

  lemma TwoChildFamily(i: nat, x: Node?, j: nat, y: Node?)
    requires i < 4 && j < 4 && i != j && Ok(x) && Ok(y) && NodesOf(x) !! NodesOf(y)
    ensures var cs := NoChildren[i := x][j := y];
            && Family(cs) && AllNodes(cs) == NodesOf(x) + NodesOf(y)
            && InnerOf(cs) == With(With(NoKids, i, TreeOf(x)), j, TreeOf(y))
  {
    hide Node.Valid;
    var cs := NoChildren[i := x][j := y];
    assert forall n: nat :: n < 4 ==> Ok(cs[n]);
  }

  /** rxtree_lookup */
  method LookupFrom(root: Node?, key: nat) returns (v: Value)
    requires Ok(root) && Wf(TreeOf(root), 0)
    ensures v == if key in Contents(TreeOf(root)) then Contents(TreeOf(root))[key] else 0
  {
    hide Digit, Contents, Wf, Node.Valid, Family;
    LookupCorrect(TreeOf(root), key, 0);
    var node, depth: nat := root, 0;
    while node != null && !node.isLeaf
      invariant depth <= LEVELS && Ok(node) && Wf(TreeOf(node), depth)
      invariant Lookup(TreeOf(node), key, depth) == Lookup(TreeOf(root), key, 0)
      decreases LEVELS - depth
    {
      InnerIsFamily(node);
      WfKid(node.tree, depth, 0);
      var i := Index(key, depth);
      WfKid(node.tree, depth, i);
      node := node.children[i];
      depth := depth + 1;
    }
    if node != null {
      LeafFacts(node);
      if node.prefix == key { return node.value; }
    }
    return 0;
  }

  /** The scan over the children after a deletion below. */
  method CountChildren(n: Node) returns (count: nat, child: Node?)
    requires n.Valid() && !n.isLeaf
    ensures count == Count(n.tree)
    ensures count > 0 ==> child in n.children && child != null
    ensures count > 0 ==> child.Valid() && child.nodes <= n.nodes && child.tree == LastKid(n.tree)
  {
    hide Node.Valid;
    count, child := 0, null;
    KidsAreNodes(n);
    if n.children[0] != null { count, child := count + 1, n.children[0]; }
    if n.children[1] != null { count, child := count + 1, n.children[1]; }
    if n.children[2] != null { count, child := count + 1, n.children[2]; }
    if n.children[3] != null { count, child := count + 1, n.children[3]; }
  }

  lemma KidsAreNodes(n: Node)
    requires n.Valid() && !n.isLeaf
    ensures |n.children| == 4 && n.tree.Inner?
    ensures forall i: nat :: i < 4 ==> (n.children[i] == null <==> Kid(n.tree, i) == Empty)
    ensures forall i: nat :: i < 4 && n.children[i] != null ==>
              n.children[i].Valid() && n.children[i].nodes <= n.nodes && n.children[i].tree == Kid(n.tree, i)
  {
    hide Node.Valid;
    InnerIsFamily(n);
    forall i: nat | i < 4 && n.children[i] != null ensures Kid(n.tree, i) != Empty {
      NotEmpty(n.children[i]);
    }
  }

  lemma NotEmpty(n: Node)
    requires n.Valid()
    ensures !n.tree.Empty?
  {
  }

  /** rxtree_delete_node */
  method DeleteNode(h: Heap, node: Node?, key: nat, depth: nat) returns (ret: int, node': Node?)
    requires depth <= LEVELS && Ok(node) && Wf(TreeOf(node), depth) && NodesOf(node) <= h.live
    modifies h, NodesOf(node)
    ensures ret == 0 || ret == -EINVAL
    ensures ret == 0 <==> old(key in Contents(TreeOf(node)))
    ensures ret == 0 ==> Ok(node') && TreeOf(node') == old(Delete(TreeOf(node), key, depth))
    ensures ret == 0 ==> NodesOf(node') <= old(NodesOf(node))
    ensures ret == 0 ==> Balanced(old(h.live), old(NodesOf(node)), h.live, NodesOf(node'), null)
    ensures ret != 0 ==> node' == node && h.live == old(h.live) && forall o :: o in old(NodesOf(node)) ==> unchanged(o)
    decreases LEVELS - depth, 1
  {
    hide Digit, With, Collapse;
    if node == null { return -EINVAL, null; }
    if node.isLeaf {
      if node.prefix == key {
        Kfree(h, node);
        return 0, null;
      }
      return -EINVAL, node;
    }
    ret, node' := DeleteInner(h, node, key, depth);
  }

  method DeleteInner(h: Heap, node: Node, key: nat, depth: nat) returns (ret: int, node': Node?)
    requires depth <= LEVELS && node.Valid() && !node.isLeaf && Wf(node.tree, depth) && node.nodes <= h.live
    modifies h, node.nodes
    ensures ret == 0 || ret == -EINVAL
    ensures ret == 0 <==> old(key in Contents(node.tree))
    ensures ret == 0 ==> Ok(node') && TreeOf(node') == old(Delete(node.tree, key, depth))
    ensures ret == 0 ==> NodesOf(node') <= old(node.nodes)
    ensures ret == 0 ==> Balanced(old(h.live), old(node.nodes), h.live, NodesOf(node'), null)
    ensures ret != 0 ==> node' == node && h.live == old(h.live) && forall o :: o in old(node.nodes) ==> unchanged(o)
    decreases LEVELS - depth, 0
  {
    hide Wf, With, Digit, Node.Valid, Others, AllRest, Family, InnerOf, AllNodes, Kid, Contents, Collapse, Balanced;
    InnerIsFamily(node);
    KeyInKid(node.tree, key, depth);
    var i := Index(key, depth);
    var cs := node.children;
    var child: Node?;
    ghost var before, others, below := node.tree, AllRest(cs, i), NodesOf(cs[i]);
    Apart(node, i);
    ret, child := DeleteNode(h, cs[i], key, depth + 1);
    node' := node;
    if ret == 0 {
      assert node !in NodesOf(child) && others !! NodesOf(child);
      BalancedAbove(old(h.live), below, h.live, NodesOf(child), null, {node} + others);
      Rehang(node, i, child, before);
      BalancedDrop(old(h.live), old(node.nodes), h.live, node.nodes);
      node' := CollapseNode(h, node);
    }
  }

  /** The end of a deletion: a node with one leaf below it gives way to the leaf, one with nothing goes. */
  method CollapseNode(h: Heap, node: Node) returns (node': Node?)
    requires node.Valid() && !node.isLeaf && node.nodes <= h.live
    modifies h
    ensures Ok(node') && TreeOf(node') == Collapse(node.tree) && NodesOf(node') <= node.nodes
    ensures h.live == old(h.live) - (node.nodes - NodesOf(node'))
  {
    hide Node.Valid, Count, LastKid;
    node' := node;
    var count, last := CountChildren(node);
    if count == 1 && last.isLeaf {
      LeafFacts(last);
      OnlyLeaf(node, last);
      node' := last;
      Kfree(h, node);
    } else {
      if count == 1 { InnerIsFamily(last); }
      if count == 0 {
        NoKidsLeft(node);
        node' := null;
        Kfree(h, node);
      }
    }
  }

  /** Nodes that leave their tree are freed. */
  lemma BalancedDrop(live0: set<Node>, ns0: set<Node>, live: set<Node>, ns: set<Node>)
    requires Balanced(live0, ns0, live, ns, null)
    ensures ns <= live && forall ns' :: ns' <= ns ==> Balanced(live0, ns0, live - (ns - ns'), ns', null)
  {
    forall ns' | ns' <= ns ensures Balanced(live0, ns0, live - (ns - ns'), ns', null) {
      assert live - (ns - ns') - ns' == live - ns;
    }
  }

  /** The nodes of an inner node with one leaf below it, and with nothing. */
  lemma OnlyLeaf(n: Node, last: Node)
    requires n.Valid() && !n.isLeaf && Count(n.tree) == 1 && last in n.children && last.isLeaf
    ensures last.Valid() && n.nodes == {n, last} && n != last
  {
    InnerIsFamily(n);
    KidsAreNodes(n);
    var i: nat :| i < 4 && n.children[i] == last;
    LeafFacts(last);
    hide Node.Valid;
    assert Kid(n.tree, i) != Empty;
    assert forall j: nat :: j < 4 && j != i ==> Kid(n.tree, j) == Empty && n.children[j] == null;
  }

  lemma NoKidsLeft(n: Node)
    requires n.Valid() && !n.isLeaf && Count(n.tree) == 0
    ensures n.nodes == {n}
  {
    InnerIsFamily(n);
    KidsAreNodes(n);
    hide Node.Valid;
    assert forall j: nat :: j < 4 ==> Kid(n.tree, j) == Empty && n.children[j] == null;
  }

  /** struct rxtree: a map from 64-bit keys to pointers. */
  class RxTree {
    const heap: Heap
    var root: Node?

    ghost predicate Valid()
      reads this, heap, root, NodesOf(root)
    {
      Ok(root) && Wf(TreeOf(root), 0) && NodesOf(root) <= heap.live
    }

    ghost function Map(): map<nat, Value>
      reads this, root
    {
      Contents(TreeOf(root))
    }

    /** The live nodes that are not in the tree. */
    ghost function Outside(): set<Node>
      reads this, heap, root
    {
      heap.live - NodesOf(root)
    }

    constructor (h: Heap)
      ensures Valid() && Map() == map[] && heap == h && root == null
    {
      heap, root := h, null;
    }

    /** rxtree_insert: on failure the tree is as before.  One node is lost exactly when the way to the key
        ended at the leaf of another key. */
    method Insert(key: nat, value: Value) returns (ret: int, ghost lost: Node?)
      requires Valid() && IsKey(key)
      modifies this, heap, NodesOf(root)
      ensures Valid() && (ret == 0 || ret == -ENOMEM)
      ensures Map() == if ret == 0 then old(Map())[key := value] else old(Map())
      ensures fresh(NodesOf(root) - old(NodesOf(root)))
      ensures ret != 0 ==> TreeOf(root) == old(TreeOf(root))
      ensures Outside() == old(Outside()) + Only(lost) && (lost != null ==> lost !in old(Outside()))
      ensures lost != null <==> ret == 0 && old(Meets(TreeOf(root), key, 0))
    {
      hide Wf, Contents, Node.Valid, IsKey, Meets;
      UnderRoot(TreeOf(root), key);
      InsertCorrect(TreeOf(root), key, value, 0);
      var r: Node?;
      ret, r, lost := InsertNode(heap, root, key, value, 0);
      root := r;
      if ret != 0 { lost := null; }
    }

    method Lookup(key: nat) returns (v: Value)
      requires Valid()
      ensures v == if key in Map() then Map()[key] else 0
    {
      v := LookupFrom(root, key);
    }

    /** rxtree_delete: fails exactly when the key is absent, and frees exactly the nodes it takes out. */
    method Delete(key: nat) returns (ret: int)
      requires Valid()
      modifies this, heap, NodesOf(root)
      ensures Valid() && (ret == 0 || ret == -EINVAL)
      ensures ret == 0 <==> key in old(Map())
      ensures Map() == old(Map()) - {key} && Outside() == old(Outside())
    {
      hide Wf, Contents, Node.Valid;
      if key in Contents(TreeOf(root)) { DeleteCorrect(TreeOf(root), key, 0); }
      var r: Node?;
      ret, r := DeleteNode(heap, root, key, 0);
      root := r;
      if ret != 0 { assert old(Map()) - {key} == old(Map()); }
    }

    /** rxtree_free: what is left is what was lost. */
    method Free()
      requires Valid()
      modifies this, heap, NodesOf(root)
      ensures Valid() && Map() == map[] && heap.live == old(Outside())
    {
      NodeFree(heap, root);
      root := null;
    }
  }

  lemma SingleLeaf(t: Tree, a: nat, v: Value, b: nat)
    requires Wf(t, 0) && Contents(t) == map[a := v] && IsKey(a) && a != b
    ensures Meets(t, b, 0)
  {
    SameKeysSameShape(t, Leaf(a, v), 0);
  }

  /** Two keys are inserted and the tree is freed: a node stays behind. */
  method TwoKeysThenFree(h: Heap, a: nat, b: nat, value: Value) returns (ret1: int, ret2: int)
    requires IsKey(a) && IsKey(b) && a != b
    modifies h
    ensures ret1 == 0 && ret2 == 0 ==> exists lost: Node :: lost !in old(h.live) && h.live == old(h.live) + {lost}
    ensures ret1 != 0 || ret2 != 0 ==> h.live == old(h.live)
  {
    hide IsKey, Node.Valid;
    var t := new RxTree(h);
    ghost var lost1, lost2;
    ret1, lost1 := t.Insert(a, value);
    if ret1 == 0 { SingleLeaf(TreeOf(t.root), a, value, b); }
    ret2, lost2 := t.Insert(b, value);
    t.Free();
  }

  /** Two trees with the same keys have the same shape, however they came about. */
  lemma ShapeDependsOnKeysOnly(a: RxTree, b: RxTree)
    requires a.Valid() && b.Valid() && a.Map().Keys == b.Map().Keys
    ensures Shape(TreeOf(a.root)) == Shape(TreeOf(b.root))
    ensures a.Map() == b.Map() ==> TreeOf(a.root) == TreeOf(b.root)
  {
    SameKeysSameShape(TreeOf(a.root), TreeOf(b.root), 0);
  }
}
