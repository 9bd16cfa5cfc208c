// The node operations of binary_tree/tree_utils.hpp: key-ordered `add`,
// `find`, in-order traversal, the four rotations, `leftmost`/`rightmost`,
// `find_replacement`, `detach` and `is_left_child`.
//
// Every node of one tree lives in an `Arena`; a pointer is an index into its
// `nodes` and `Null` is `nullptr`. Each operation receives, as ghost
// parameters, the shape of the (sub)tree it works on and the parent of that
// shape's top, and states its effect as a new shape linked in the arena.
module TreeUtils {
  import opened TreeShape

  class Arena {
    var nodes: seq<Node>

    constructor ()
      ensures nodes == []
    {
      nodes := [];
    }

    /** `std::make_unique<node_type>(t)`: a node holding `k` with no
        children and no parent. Its colour is Red, the default of the
        red-black metadata. */
    method NewNode(k: int) returns (v: int)
      modifies this
      ensures v == |old(nodes)| && nodes == old(nodes) + [Node(k, Null, Null, Null, Red)]
    {
      v := |nodes|;
      nodes := nodes + [Node(k, Null, Null, Null, Red)];
    }

    /** `node::add(v)` on the node `n` at the top of `t`: descend left of
        larger keys and right of smaller ones and hang `v` in the first
        empty slot; a node with an equal key stops the descent and nothing
        is added. */
    method Add(n: int, v: int, ghost t: Tree, ghost p: int) returns (added: bool)
      requires Linked(t, p, nodes) && Unique(t) && t.Br? && n == t.id && Ordered(t, nodes)
      requires 0 <= v < |nodes| && v !in Ids(t) && nodes[v].left == Null && nodes[v].right == Null
      modifies this
      ensures added <==> old(nodes[v].key) !in Keys(t, old(nodes))
      ensures !added ==> nodes == old(nodes)
      ensures added ==> Linked(InsertLeaf(t, old(nodes), v), p, nodes)
      ensures SamePayload(old(nodes), nodes)
      ensures forall y :: 0 <= y < |nodes| && y != v && y !in Ids(t) ==> nodes[y] == old(nodes[y])
      decreases t
    {
      ghost var a := nodes;
      var k := nodes[v].key;
      KeyDirection(t, a, a[v].key);
      TopFields(t, p, a);
      if k < nodes[n].key {
        if nodes[n].left == Null {
          nodes := nodes[n := nodes[n].(left := v)];
          nodes := nodes[v := nodes[v].(parent := n)];
          added := true;
          AddedLeaf(t, p, a, v, nodes);
        } else {
          added := Add(nodes[n].left, v, t.left, n);
          if added {
            AddedBelow(t, p, a, v, nodes);
          }
        }
      } else if nodes[n].key < k {
        if nodes[n].right == Null {
          nodes := nodes[n := nodes[n].(right := v)];
          nodes := nodes[v := nodes[v].(parent := n)];
          added := true;
          AddedLeaf(t, p, a, v, nodes);
        } else {
          added := Add(nodes[n].right, v, t.right, n);
          if added {
            AddedBelow(t, p, a, v, nodes);
          }
        }
      } else {
        added := false;
      }
    }

    /** `node::find(target)` on the node `n` at the top of `t`: the node
        holding `target`, or `Null`. */
    function Find(n: int, target: int, ghost t: Tree, ghost p: int): (r: int)
      reads this
      requires Linked(t, p, nodes) && t.Br? && n == t.id && Ordered(t, nodes)
      ensures r == Null <==> target !in Keys(t, nodes)
      ensures r != Null ==> r in Ids(t) && 0 <= r < |nodes| && nodes[r].key == target
      decreases t
    {
      KeyDirection(t, nodes, target);
      TopFields(t, p, nodes);
      if nodes[n].key == target then n
      else if nodes[n].key < target then
        if nodes[n].right == Null then Null else Find(nodes[n].right, target, t.right, n)
      else
        if nodes[n].left == Null then Null else Find(nodes[n].left, target, t.left, n)
    }

    /** `node::inorder_traverse(visiter)`: the keys handed to the visitor,
        in the order it receives them. */
    function Inorder(n: int, ghost t: Tree, ghost p: int): (r: seq<int>)
      reads this
      requires Linked(t, p, nodes) && t.Br? && n == t.id
      ensures r == Keys(t, nodes)
      decreases t
    {
      KeysBr(t.left, n, t.right, nodes);
      TopFields(t, p, nodes);
      (if nodes[n].left == Null then [] else Inorder(nodes[n].left, t.left, n))
      + [nodes[n].key]
      + (if nodes[n].right == Null then [] else Inorder(nodes[n].right, t.right, n))
    }

    /** `left_rotate(grandparent)`: the right child `x` of `g` moves up to
        `g`'s place (taking over `g`'s parent), `g` becomes `x`'s left child
        and `x`'s old left subtree becomes `g`'s right subtree. The slot
        that pointed to `g` is left for the caller to redirect. */
    method LeftRotate(g: int, ghost t: Tree, ghost p: int) returns (x: int)
      requires Linked(t, p, nodes) && Unique(t) && t.Br? && g == t.id && t.right.Br?
      modifies this
      ensures x == t.right.id
      ensures Linked(RotL(t), p, nodes)
      ensures SamePayload(old(nodes), nodes)
      ensures forall y :: 0 <= y < |nodes| && y !in Ids(t) ==> nodes[y] == old(nodes[y])
    {
      ghost var a := nodes;
      TopFields(t, p, a);
      TopFields(t.right, g, a);
      x := nodes[g].right;
      nodes := nodes[x := nodes[x].(parent := nodes[g].parent)];
      nodes := nodes[g := nodes[g].(right := nodes[x].left)];
      var b := nodes[g].right;
      if b != Null {
        nodes := nodes[b := nodes[b].(parent := g)];
      }
      nodes := nodes[x := nodes[x].(left := g)];
      nodes := nodes[g := nodes[g].(parent := x)];
      RotatedLeft(t, p, a, nodes);
    }

    /** `right_rotate(grandparent)`, the mirror image of `LeftRotate`. */
    method RightRotate(g: int, ghost t: Tree, ghost p: int) returns (x: int)
      requires Linked(t, p, nodes) && Unique(t) && t.Br? && g == t.id && t.left.Br?
      modifies this
      ensures x == t.left.id
      ensures Linked(RotR(t), p, nodes)
      ensures SamePayload(old(nodes), nodes)
      ensures forall y :: 0 <= y < |nodes| && y !in Ids(t) ==> nodes[y] == old(nodes[y])
    {
      ghost var a := nodes;
      TopFields(t, p, a);
      TopFields(t.left, g, a);
      x := nodes[g].left;
      nodes := nodes[x := nodes[x].(parent := nodes[g].parent)];
      nodes := nodes[g := nodes[g].(left := nodes[x].right)];
      var b := nodes[g].left;
      if b != Null {
        nodes := nodes[b := nodes[b].(parent := g)];
      }
      nodes := nodes[x := nodes[x].(right := g)];
      nodes := nodes[g := nodes[g].(parent := x)];
      RotatedRight(t, p, a, nodes);
    }

    /** `left_right_rotate(grandparent)`: rotate the left child left, store
        the result as `g`'s left child, then rotate `g` right. */
    method LeftRightRotate(g: int, ghost t: Tree, ghost p: int) returns (x: int)
      requires Linked(t, p, nodes) && Unique(t) && t.Br? && g == t.id && t.left.Br? && t.left.right.Br?
      modifies this
      ensures x == t.left.right.id
      ensures Linked(RotLR(t), p, nodes)
      ensures SamePayload(old(nodes), nodes)
      ensures forall y :: 0 <= y < |nodes| && y !in Ids(t) ==> nodes[y] == old(nodes[y])
    {
      ghost var a := nodes;
      ghost var u := Br(RotL(t.left), g, t.right);
      RotLFacts(t.left);
      TopFields(t, p, a);
      var l := LeftRotate(nodes[g].left, t.left, g);
      ghost var m := nodes;
      nodes := nodes[g := nodes[g].(left := l)];
      InnerRotated(t, p, a, u, m, nodes);
      x := RightRotate(g, u, p);
    }

    /** `right_left_rotate(grandparent)`, the mirror image of
        `LeftRightRotate`. */
    method RightLeftRotate(g: int, ghost t: Tree, ghost p: int) returns (x: int)
      requires Linked(t, p, nodes) && Unique(t) && t.Br? && g == t.id && t.right.Br? && t.right.left.Br?
      modifies this
      ensures x == t.right.left.id
      ensures Linked(RotRL(t), p, nodes)
      ensures SamePayload(old(nodes), nodes)
      ensures forall y :: 0 <= y < |nodes| && y !in Ids(t) ==> nodes[y] == old(nodes[y])
    {
      ghost var a := nodes;
      ghost var u := Br(t.left, g, RotR(t.right));
      RotRFacts(t.right);
      TopFields(t, p, a);
      var r := RightRotate(nodes[g].right, t.right, g);
      ghost var m := nodes;
      nodes := nodes[g := nodes[g].(right := r)];
      InnerRotated(t, p, a, u, m, nodes);
      x := LeftRotate(g, u, p);
    }

    /** `leftmost(n)`: follow `left` links while there is one. The result
        is the first node of the in-order sequence, `Null` for an empty
        subtree, and holds the smallest key. */
    method Leftmost(n: int, ghost t: Tree, ghost p: int) returns (m: int)
      requires Linked(t, p, nodes) && n == Root(t)
      ensures m == if t == Nil then Null else Order(t)[0]
      ensures m != Null <==> t != Nil
      ensures m != Null ==> m in Ids(t) && 0 <= m < |nodes| && nodes[m].left == Null
      ensures m != Null && Ordered(t, nodes) ==> forall k :: k in Keys(t, nodes) ==> nodes[m].key <= k
    {
      m := n;
      ghost var s, q := t, p;
      while m != Null && nodes[m].left != Null
        invariant Linked(s, q, nodes) && m == Root(s) && (s == Nil <==> t == Nil)
        invariant s != Nil ==> Order(t)[0] == Order(s)[0] && Ids(s) <= Ids(t)
        decreases s
      {
        TopFields(s, q, nodes);
        assert Order(s) == Order(s.left) + [s.id] + Order(s.right);
        assert Order(s.left) != [];
        m := nodes[m].left;
        s, q := s.left, s.id;
      }
      if m != Null {
        TopFields(s, q, nodes);
        assert Order(s) == Order(s.left) + [s.id] + Order(s.right);
        if Ordered(t, nodes) {
          FirstIsLeast(t, nodes);
        }
      }
    }

    /** `rightmost(n)`: follow `right` links while there is one. The result
        is the last node of the in-order sequence, `Null` for an empty
        subtree, and holds the largest key. */
    method Rightmost(n: int, ghost t: Tree, ghost p: int) returns (m: int)
      requires Linked(t, p, nodes) && n == Root(t)
      ensures m == if t == Nil then Null else Order(t)[|Order(t)| - 1]
      ensures m != Null <==> t != Nil
      ensures m != Null ==> m in Ids(t) && 0 <= m < |nodes| && nodes[m].right == Null
      ensures m != Null && Ordered(t, nodes) ==> forall k :: k in Keys(t, nodes) ==> k <= nodes[m].key
    {
      m := n;
      ghost var s, q := t, p;
      while m != Null && nodes[m].right != Null
        invariant Linked(s, q, nodes) && m == Root(s) && (s == Nil <==> t == Nil)
        invariant s != Nil ==> Order(t)[|Order(t)| - 1] == Order(s)[|Order(s)| - 1] && Ids(s) <= Ids(t)
        decreases s
      {
        TopFields(s, q, nodes);
        assert Order(s) == Order(s.left) + [s.id] + Order(s.right);
        assert Order(s.right) != [];
        m := nodes[m].right;
        s, q := s.right, s.id;
      }
      if m != Null {
        TopFields(s, q, nodes);
        assert Order(s) == Order(s.left) + [s.id] + Order(s.right);
        if Ordered(t, nodes) {
          LastIsGreatest(t, nodes);
        }
      }
    }

    /** `find_replacement(target)` for the node at the top of `t`: with two
        children the leftmost node of the right subtree (the in-order
        successor, which has no left child), `Null` for a leaf, otherwise
        the only child. */
    method FindReplacement(target: int, ghost t: Tree, ghost p: int) returns (r: int)
      requires Linked(t, p, nodes) && t.Br? && target == t.id
      ensures t.left != Nil && t.right != Nil ==>
        r == Order(t.right)[0] && r in Ids(t.right) && 0 <= r < |nodes| && nodes[r].left == Null
      ensures t.left == Nil && t.right == Nil ==> r == Null
      ensures t.left == Nil && t.right != Nil ==> r == t.right.id
      ensures t.left != Nil && t.right == Nil ==> r == t.left.id
    {
      TopFields(t, p, nodes);
      if nodes[target].left != Null && nodes[target].right != Null {
        r := Leftmost(nodes[target].right, t.right, target);
      } else if nodes[target].left == Null && nodes[target].right == Null {
        r := Null;
      } else if nodes[target].left == Null {
        r := nodes[target].right;
      } else {
        r := nodes[target].left;
      }
    }

    /** `is_left_child(n)`: `n` has a parent and is that parent's left
        child. */
    function IsLeftChild(x: int, ghost t: Tree): (b: bool)
      reads this
      requires Linked(t, Null, nodes) && Unique(t) && x in Ids(t)
      ensures b <==> x != Root(t) && Root(LeftOf(Sub(t, Parent(t, x)))) == x
    {
      ChildSlotOf(t, x, nodes);
      nodes[x].parent != Null && nodes[nodes[x].parent].left == x
    }

    /** `detach(root, target, child)` for a `target` with at most one child
        (the source notes it does not handle two): `child`, one of
        `target`'s subtrees, takes `target`'s place, under `target`'s parent
        or as the new root. */
    method Detach(root: int, target: int, child: int, ghost t: Tree, ghost s: Tree) returns (newRoot: int)
      requires Linked(t, Null, nodes) && Unique(t) && root == Root(t) && target in Ids(t)
      requires var st := Sub(t, target);
        (s == LeftOf(st) && RightOf(st) == Nil) || (s == RightOf(st) && LeftOf(st) == Nil)
      requires child == Root(s)
      modifies this
      ensures Linked(Replace(t, target, s), Null, nodes)
      ensures newRoot == Root(Replace(t, target, s))
      ensures newRoot == if target == root then child else root
      ensures SamePayload(old(nodes), nodes)
    {
      ghost var a := nodes;
      DetachFacts(t, target, s, a);
      // Redirecting the child's `parent` does not change what
      // `is_left_child(target)` reads, so it is evaluated up front.
      var isLeft := IsLeftChild(target, t);
      if child != Null {
        nodes := nodes[child := nodes[child].(parent := nodes[target].parent)];
      }
      ghost var a1 := nodes;
      if nodes[target].parent == Null {
        newRoot := child;
        ReplaceTop(t, target, s, a, a1);
      } else {
        var q := nodes[target].parent;
        if isLeft {
          nodes := nodes[q := nodes[q].(left := child)];
        } else {
          nodes := nodes[q := nodes[q].(right := child)];
        }
        newRoot := root;
        ReplaceBelow(t, target, s, a, a1, nodes);
      }
    }
  }

  // ---------------------------------------------------------------------
  // Proof steps of `Add`.

  /** Which way `add` and `find` turn at the top, and what that says about
      where key `k` can be. */
  lemma {:induction false} KeyDirection(t: Tree, a: seq<Node>, k: int)
    requires t.Br? && Ordered(t, a)
    ensures Ordered(t.left, a) && Ordered(t.right, a)
    ensures k < KeyOf(a, t.id) ==> (k in Keys(t, a) <==> k in Keys(t.left, a))
    ensures KeyOf(a, t.id) < k ==> (k in Keys(t, a) <==> k in Keys(t.right, a))
    ensures k == KeyOf(a, t.id) ==> k in Keys(t, a)
  {
    KeysBr(t.left, t.id, t.right, a);
    OrderedBr(t.left, t.id, t.right, a);
  }

  /** `v` hung in the empty slot of the top node. */
  lemma {:induction false} AddedLeaf(t: Tree, p: int, a: seq<Node>, v: int, b: seq<Node>)
    requires Linked(t, p, a) && Unique(t) && t.Br? && 0 <= v < |a| && v !in Ids(t)
    requires a[v].left == Null && a[v].right == Null
    requires KeyOf(a, v) != KeyOf(a, t.id)
    requires if KeyOf(a, v) < KeyOf(a, t.id)
      then t.left == Nil && b == a[t.id := a[t.id].(left := v)][v := a[v].(parent := t.id)]
      else t.right == Nil && b == a[t.id := a[t.id].(right := v)][v := a[v].(parent := t.id)]
    ensures Linked(InsertLeaf(t, a, v), p, b)
  {
    var g := t.id;
    LinkedInArena(t, p, a);
    if KeyOf(a, v) < KeyOf(a, g) {
      LinkedFrame(t.right, g, a, b);
    } else {
      LinkedFrame(t.left, g, a, b);
    }
  }

  /** `v` was added further down one side: the top node and the other side
      are untouched. */
  lemma {:induction false} AddedBelow(t: Tree, p: int, a: seq<Node>, v: int, b: seq<Node>)
    requires Linked(t, p, a) && Unique(t) && t.Br? && 0 <= v < |a| && v !in Ids(t)
    requires KeyOf(a, v) != KeyOf(a, t.id)
    requires |b| == |a|
    requires forall y :: 0 <= y < |a| && y != v && y !in Ids(if KeyOf(a, v) < KeyOf(a, t.id) then t.left else t.right) ==> b[y] == a[y]
    requires KeyOf(a, v) < KeyOf(a, t.id) ==> t.left.Br? && Linked(InsertLeaf(t.left, a, v), t.id, b)
    requires KeyOf(a, t.id) < KeyOf(a, v) ==> t.right.Br? && Linked(InsertLeaf(t.right, a, v), t.id, b)
    ensures Linked(InsertLeaf(t, a, v), p, b)
  {
    var g := t.id;
    LinkedInArena(t, p, a);
    if KeyOf(a, v) < KeyOf(a, g) {
      assert b[g] == a[g];
      assert InsertLeaf(t.left, a, v).id == t.left.id;
      LinkedFrame(t.right, g, a, b);
    } else {
      assert b[g] == a[g];
      assert InsertLeaf(t.right, a, v).id == t.right.id;
      LinkedFrame(t.left, g, a, b);
    }
  }

  // ---------------------------------------------------------------------
  // Proof steps of the rotations.

  lemma {:induction false} RotatedLeft(t: Tree, p: int, a: seq<Node>, b: seq<Node>)
    requires Linked(t, p, a) && Unique(t) && t.Br? && t.right.Br?
    requires var g, x, m := t.id, t.right.id, Root(t.right.left);
      |b| == |a| && 0 <= g < |a| && 0 <= x < |a| && (m != Null ==> 0 <= m < |a|)
      && b[g] == a[g].(right := m, parent := x)
      && b[x] == a[x].(parent := a[g].parent, left := g)
      && (m != Null ==> b[m] == a[m].(parent := g))
      && forall y :: 0 <= y < |a| && y != g && y != x && y != m ==> b[y] == a[y]
    ensures Linked(RotL(t), p, b)
  {
    var g, x, m := t.id, t.right.id, Root(t.right.left);
    var l, ml, r := t.left, t.right.left, t.right.right;
    LinkedInArena(t, p, a);
    assert Ids(t.right) == Ids(ml) + {x} + Ids(r);
    forall y | y in Ids(l) ensures SameLinksAt(a, b, y) {
      assert y in Ids(t) && y != g && y !in Ids(t.right);
    }
    forall y | y in Ids(ml) && y != m ensures SameLinksAt(a, b, y) {
      assert y in Ids(t) && y != g && y != x;
    }
    forall y | y in Ids(r) ensures SameLinksAt(a, b, y) {
      assert y in Ids(t) && y != g && y != x && y !in Ids(ml);
    }
    LinkedFrame(l, g, a, b);
    Relink(ml, x, a, g, b);
    LinkedFrame(r, x, a, b);
  }

  lemma {:induction false} RotatedRight(t: Tree, p: int, a: seq<Node>, b: seq<Node>)
    requires Linked(t, p, a) && Unique(t) && t.Br? && t.left.Br?
    requires var g, x, m := t.id, t.left.id, Root(t.left.right);
      |b| == |a| && 0 <= g < |a| && 0 <= x < |a| && (m != Null ==> 0 <= m < |a|)
      && b[g] == a[g].(left := m, parent := x)
      && b[x] == a[x].(parent := a[g].parent, right := g)
      && (m != Null ==> b[m] == a[m].(parent := g))
      && forall y :: 0 <= y < |a| && y != g && y != x && y != m ==> b[y] == a[y]
    ensures Linked(RotR(t), p, b)
  {
    var g, x, m := t.id, t.left.id, Root(t.left.right);
    var l, mr, r := t.left.left, t.left.right, t.right;
    LinkedInArena(t, p, a);
    assert Ids(t.left) == Ids(l) + {x} + Ids(mr);
    forall y | y in Ids(r) ensures SameLinksAt(a, b, y) {
      assert y in Ids(t) && y != g && y !in Ids(t.left);
    }
    forall y | y in Ids(mr) && y != m ensures SameLinksAt(a, b, y) {
      assert y in Ids(t) && y != g && y != x;
    }
    forall y | y in Ids(l) ensures SameLinksAt(a, b, y) {
      assert y in Ids(t) && y != g && y != x && y !in Ids(mr);
    }
    LinkedFrame(l, x, a, b);
    Relink(mr, x, a, g, b);
    LinkedFrame(r, g, a, b);
  }

  /** After the inner rotation of a double rotation (arena `m`) and the
      update of the top's child slot (arena `b`), the arena holds the
      intermediate shape `u`. */
  lemma {:induction false} InnerRotated(t: Tree, p: int, a: seq<Node>, u: Tree, m: seq<Node>, b: seq<Node>)
    requires Linked(t, p, a) && Unique(t) && t.Br?
    requires (t.left.Br? && t.left.right.Br? && u == Br(RotL(t.left), t.id, t.right))
      || (t.right.Br? && t.right.left.Br? && u == Br(t.left, t.id, RotR(t.right)))
    requires |m| == |a| && 0 <= t.id < |a|
    requires u.left != t.left ==> Linked(u.left, t.id, m)
    requires u.right != t.right ==> Linked(u.right, t.id, m)
    requires forall y :: 0 <= y < |a| && y !in Ids(if u.left != t.left then t.left else t.right) ==> m[y] == a[y]
    requires b == m[t.id := m[t.id].(left := Root(u.left), right := Root(u.right))]
    ensures Linked(u, p, b) && Unique(u) && Ids(u) == Ids(t) && Order(u) == Order(t)
  {
    LinkedInArena(t, p, a);
    if u.left != t.left {
      RotLFacts(t.left);
      assert m[t.id] == a[t.id];
      forall y | y in Ids(t.right) ensures SameLinksAt(a, b, y) {
        assert y in Ids(t) && y != t.id && y !in Ids(t.left);
      }
      forall y | y in Ids(u.left) ensures SameLinksAt(m, b, y) {
        assert y in Ids(t) && y != t.id;
      }
      LinkedFrame(t.right, t.id, a, b);
      LinkedFrame(u.left, t.id, m, b);
    } else {
      RotRFacts(t.right);
      assert m[t.id] == a[t.id];
      forall y | y in Ids(t.left) ensures SameLinksAt(a, b, y) {
        assert y in Ids(t) && y != t.id && y !in Ids(t.right);
      }
      forall y | y in Ids(u.right) ensures SameLinksAt(m, b, y) {
        assert y in Ids(t) && y != t.id;
      }
      LinkedFrame(t.left, t.id, a, b);
      LinkedFrame(u.right, t.id, m, b);
    }
  }

  // ---------------------------------------------------------------------
  // Proof steps of `leftmost`, `rightmost`, `is_left_child` and `detach`.

  /** The first key of an ordered shape is its least, the last its greatest. */
  lemma {:induction false} FirstIsLeast(t: Tree, a: seq<Node>)
    requires t.Br? && Ordered(t, a)
    ensures |Order(t)| > 0 && forall k :: k in Keys(t, a) ==> KeyOf(a, Order(t)[0]) <= k
  {
    var ks := Keys(t, a);
    assert Order(t) == Order(t.left) + [t.id] + Order(t.right);
    forall k | k in ks ensures ks[0] <= k {
      var i :| 0 <= i < |ks| && ks[i] == k;
    }
  }

  lemma {:induction false} LastIsGreatest(t: Tree, a: seq<Node>)
    requires t.Br? && Ordered(t, a)
    ensures |Order(t)| > 0 && forall k :: k in Keys(t, a) ==> k <= KeyOf(a, Order(t)[|Order(t)| - 1])
  {
    var ks := Keys(t, a);
    assert Order(t) == Order(t.left) + [t.id] + Order(t.right);
    forall k | k in ks ensures k <= ks[|ks| - 1] {
      var i :| 0 <= i < |ks| && ks[i] == k;
    }
  }

  lemma {:induction false} ChildSlotOf(t: Tree, x: int, a: seq<Node>)
    requires Linked(t, Null, a) && Unique(t) && x in Ids(t)
    ensures 0 <= x < |a| && (a[x].parent == Null <==> x == Root(t))
    ensures x != Root(t) ==>
      a[x].parent == Parent(t, x) && 0 <= a[x].parent < |a|
      && (a[a[x].parent].left == x <==> Root(LeftOf(Sub(t, Parent(t, x)))) == x)
      && (a[a[x].parent].right == x <==> Root(RightOf(Sub(t, Parent(t, x)))) == x)
  {
    NodeFields(t, Null, a, x);
    if x != Root(t) {
      ChildSlot(t, Null, a, x);
      NodeFields(t, Null, a, Parent(t, x));
    }
  }

  /** What `detach` reads before it writes. */
  lemma {:induction false} DetachFacts(t: Tree, x: int, s: Tree, a: seq<Node>)
    requires Linked(t, Null, a) && Unique(t) && x in Ids(t)
    requires var st := Sub(t, x); s == LeftOf(st) || s == RightOf(st)
    ensures 0 <= x < |a| && Linked(s, x, a) && Ids(s) <= Ids(Sub(t, x)) && x !in Ids(s)
    ensures a[x].parent == Null <==> x == Root(t)
    ensures a[x].parent != Null ==> 0 <= a[x].parent < |a| && a[x].parent !in Ids(Sub(t, x))
    ensures Root(s) != Null ==> 0 <= Root(s) < |a|
  {
    SubFacts(t, x);
    SubLinked(t, Null, a, x);
    NodeFields(t, Null, a, x);
    LinkedInArena(t, Null, a);
    var st := Sub(t, x);
    LinkedInArena(st, a[x].parent, a);
    if x != Root(t) {
      ChildSlot(t, Null, a, x);
    }
  }

  /** `detach` at the root: the child becomes the whole tree. */
  lemma {:induction false} ReplaceTop(t: Tree, x: int, s: Tree, a: seq<Node>, b: seq<Node>)
    requires Linked(t, Null, a) && Unique(t) && x in Ids(t) && x == Root(t)
    requires var st := Sub(t, x); s == LeftOf(st) || s == RightOf(st)
    requires 0 <= x < |a| && Linked(s, x, a) && x !in Ids(s) && a[x].parent == Null
    requires if Root(s) == Null then b == a else 0 <= Root(s) < |a| && b == a[Root(s) := a[Root(s)].(parent := Null)]
    ensures Linked(Replace(t, x, s), Null, b) && Root(Replace(t, x, s)) == Root(s)
  {
    assert Replace(t, x, s) == s;
    if s.Br? {
      LinkedInArena(s, x, a);
      forall y | y in Ids(s) && y != Root(s) ensures SameLinksAt(a, b, y) {
      }
      Relink(s, x, a, Null, b);
    }
  }

  /** `detach` below the root: the parent's slot is redirected to the child. */
  lemma {:induction false} ReplaceBelow(t: Tree, x: int, s: Tree, a: seq<Node>, a1: seq<Node>, b: seq<Node>)
    requires Linked(t, Null, a) && Unique(t) && x in Ids(t) && x != Root(t)
    requires var st := Sub(t, x); s == LeftOf(st) || s == RightOf(st)
    requires 0 <= x < |a| && Linked(s, x, a) && Ids(s) <= Ids(Sub(t, x)) && x !in Ids(s)
    requires var q := a[x].parent; 0 <= q < |a| && q !in Ids(Sub(t, x))
    requires if Root(s) == Null then a1 == a else 0 <= Root(s) < |a| && a1 == a[Root(s) := a[Root(s)].(parent := a[x].parent)]
    requires var q := a[x].parent;
      b == if a1[q].left == x then a1[q := a1[q].(left := Root(s))] else a1[q := a1[q].(right := Root(s))]
    ensures Linked(Replace(t, x, s), Null, b) && Root(Replace(t, x, s)) == Root(t)
  {
    var q := a[x].parent;
    ChildSlot(t, Null, a, x);
    SubFacts(t, x);
    ReplaceSeq(t, x, s);
    LinkedInArena(s, x, a);
    if s.Br? {
      forall y | y in Ids(s) && y != Root(s) ensures SameLinksAt(a, b, y) {
        assert y != q;
      }
      Relink(s, x, a, q, b);
    }
    forall y | 0 <= y < |a| && y != q && y !in Ids(Sub(t, x)) ensures SameLinksAt(a, b, y) {
      assert y != Root(s);
    }
    ReplaceLinked(t, Null, a, x, s, b);
  }
}
