// The bidirectional in-order iterator of binary_tree/binary_tree.hpp
// (`binary_tree_iterator`): a pointer `np` to the current node (`Null` is
// `end()`) and the root it needs for `--end()`. `++` and `--` walk the
// child and parent links of the tree's nodes.
//
// The iterator's position is the index of its node in the in-order
// sequence of the tree, `end()` being one past the last.
module TreeIterator {
  import opened TreeShape
  import opened TreeUtils

  class Iterator {
    const arena: Arena
    const root: int
    ghost const shape: Tree
    var np: int

    /** The iterator refers into the tree held by `arena` with shape
        `shape`: at one of its nodes, or at `end()`. */
    ghost predicate Valid()
      reads this, arena
    {
      Linked(shape, Null, arena.nodes) && Unique(shape) && root == Root(shape)
      && (np == Null || (np in Ids(shape) && 0 <= np < |arena.nodes|))
    }

    /** The index of the current node in the in-order sequence. */
    ghost function Pos(): (r: nat)
      reads this, arena
      requires Valid()
      ensures r <= |Order(shape)| && (r == |Order(shape)| <==> np == Null)
      ensures np != Null ==> Order(shape)[r] == np
    {
      if np == Null then |Order(shape)| else RankAt(shape, np); Rank(shape, np)
    }

    constructor (arena: Arena, np: int, root: int, ghost shape: Tree)
      requires Linked(shape, Null, arena.nodes) && Unique(shape) && root == Root(shape)
      requires np == Null || (np in Ids(shape) && 0 <= np < |arena.nodes|)
      ensures this.arena == arena && this.np == np && this.root == root && this.shape == shape
      ensures Valid()
    {
      this.arena := arena;
      this.np := np;
      this.root := root;
      this.shape := shape;
    }

    /** `operator*`: the key at the current position. */
    function Key(): (k: int)
      reads this, arena
      requires Valid() && np != Null
      ensures k == Keys(shape, arena.nodes)[Pos()]
    {
      LinkedInArena(shape, Null, arena.nodes);
      arena.nodes[np].key
    }

    /** `operator==`: two iterators over the same tree are equal exactly
        when they are at the same position. */
    function Equals(other: Iterator): (b: bool)
      reads this, arena, other
      requires Valid() && other.Valid() && other.arena == arena && other.shape == shape
      ensures b <==> Pos() == other.Pos()
    {
      np == other.np
    }

    /** `operator++` as written. With a right subtree the successor is its
        leftmost node; a left child's successor is its parent; otherwise
        the walk climbs while it comes up from a right child. The second
        test reads `np->parent` without checking it, so a node without a
        right subtree and without a parent (a root that holds the largest
        key) cannot be incremented. */
    method Increment()
      requires Valid() && np != Null
      requires arena.nodes[np].right != Null || arena.nodes[np].parent != Null
      modifies this
      ensures Valid() && Pos() == old(Pos()) + 1
    {
      ghost var t, a, x := shape, arena.nodes, np;
      SubTop(t, x);
      SubLinked(t, Null, a, x);
      TopFields(Sub(t, x), if x == Root(t) then Null else Parent(t, x), a);
      ChildSlotOf(t, x, a);
      if arena.nodes[np].right != Null {
        np := arena.Leftmost(arena.nodes[np].right, Sub(t, x).right, x);
        SuccessorBelow(t, x);
      } else if np == arena.nodes[arena.nodes[np].parent].left {
        ParentIn(t, x);
        EndOfLeaf(t, x);
        EndOfLeftChild(t, x);
        np := arena.nodes[np].parent;
      } else {
        EndOfLeaf(t, x);
        ClimbFromRight();
      }
    }

    /** `operator++` with the parent test guarded: at a root without a
        right subtree it moves to `end()`, which the climbing loop would do
        for it. Every node can be incremented. */
    method IncrementChecked()
      requires Valid() && np != Null
      modifies this
      ensures Valid() && Pos() == old(Pos()) + 1
    {
      ghost var t, a := shape, arena.nodes;
      LinkedInArena(t, Null, a);
      if arena.nodes[np].right == Null && arena.nodes[np].parent == Null {
        ChildSlotOf(t, np, a);
        EndOfLeaf(t, np);
        EndOfRoot(t);
        np := Null;
      } else {
        Increment();
      }
    }

    /** The climbing loop of `operator++`: `trail` comes up from the right
        until `np` is `nullptr` (the walk passed the last node) or `trail`
        is `np`'s left child (then `np` is next). */
    method ClimbFromRight()
      requires Valid() && np != Null
      requires EndOf(shape, np) == Pos() + 1
      modifies this
      ensures Valid() && Pos() == old(Pos()) + 1
    {
      ghost var t, a, p0 := shape, arena.nodes, Pos();
      LinkedInArena(t, Null, a);
      ChildSlotOf(t, np, a);
      if np != Root(t) {
        ParentIn(t, np);
      }
      var trail := np;
      np := arena.nodes[np].parent;
      while np != Null && arena.nodes[np].right == trail
        invariant trail in Ids(t) && 0 <= trail < |a|
        invariant np == a[trail].parent && (np == Null <==> trail == Root(t))
        invariant np != Null ==> np == Parent(t, trail) && np in Ids(t) && 0 <= np < |a|
        invariant EndOf(t, trail) == p0 + 1
        decreases Depth(t, trail)
      {
        ChildSlotOf(t, trail, a);
        ChildSlot(t, Null, a, trail);
        EndOfRightChild(t, trail);
        trail := np;
        np := arena.nodes[np].parent;
        ChildSlotOf(t, trail, a);
        if trail != Root(t) {
          ParentIn(t, trail);
        }
      }
      if np == Null {
        EndOfRoot(t);
      } else {
        ChildSlotOf(t, trail, a);
        ChildSlot(t, Null, a, trail);
        EndOfLeftChild(t, trail);
      }
    }

    /** `operator--` as written. From `end()` it moves to the rightmost node
        of the tree; with a left subtree the predecessor is that subtree's
        rightmost node; a right child's predecessor is its parent; otherwise
        the walk climbs while it comes up from a left child, reaching
        `end()` when it climbs out of the root. The third test reads
        `np->parent` unchecked, so a root without a left subtree (the
        node at `begin()`) cannot be decremented; from `begin()` at any
        other node the walk wraps to `end()`. */
    method Decrement()
      requires Valid()
      requires np != Null ==> arena.nodes[np].left != Null || arena.nodes[np].parent != Null
      modifies this
      ensures Valid() && Pos() == if old(Pos()) == 0 then |Order(shape)| else old(Pos()) - 1
    {
      ghost var t, a := shape, arena.nodes;
      if np == Null {
        np := arena.Rightmost(root, t, Null);
        if np != Null {
          RankUnique(t, np, |Order(t)| - 1);
        }
      } else {
        ghost var x := np;
        SubTop(t, x);
        SubLinked(t, Null, a, x);
        TopFields(Sub(t, x), if x == Root(t) then Null else Parent(t, x), a);
        ChildSlotOf(t, x, a);
        if arena.nodes[np].left != Null {
          np := arena.Rightmost(arena.nodes[np].left, Sub(t, x).left, x);
          PredecessorBelow(t, x);
        } else if np == arena.nodes[arena.nodes[np].parent].right {
          ParentIn(t, x);
          StartOfLeaf(t, x);
          StartOfRightChild(t, x);
          np := arena.nodes[np].parent;
        } else {
          StartOfLeaf(t, x);
          ClimbFromLeft();
        }
      }
    }

    /** The climbing loop of `operator--`: `trail` comes up from the left
        until `np` is `nullptr` or `trail` is `np`'s right child. */
    method ClimbFromLeft()
      requires Valid() && np != Null
      requires |Pre(shape, np)| == Pos()
      modifies this
      ensures Valid() && Pos() == if old(Pos()) == 0 then |Order(shape)| else old(Pos()) - 1
    {
      ghost var t, a, p0 := shape, arena.nodes, Pos();
      LinkedInArena(t, Null, a);
      ChildSlotOf(t, np, a);
      if np != Root(t) {
        ParentIn(t, np);
      }
      var trail := np;
      np := arena.nodes[np].parent;
      while np != Null && arena.nodes[np].left == trail
        invariant trail in Ids(t) && 0 <= trail < |a|
        invariant np == a[trail].parent && (np == Null <==> trail == Root(t))
        invariant np != Null ==> np == Parent(t, trail) && np in Ids(t) && 0 <= np < |a|
        invariant |Pre(t, trail)| == p0
        decreases Depth(t, trail)
      {
        ChildSlotOf(t, trail, a);
        ChildSlot(t, Null, a, trail);
        StartOfLeftChild(t, trail);
        trail := np;
        np := arena.nodes[np].parent;
        ChildSlotOf(t, trail, a);
        if trail != Root(t) {
          ParentIn(t, trail);
        }
      }
      if np != Null {
        ChildSlotOf(t, trail, a);
        ChildSlot(t, Null, a, trail);
        StartOfRightChild(t, trail);
      }
    }
  }

  // ---------------------------------------------------------------------
  // Where subtrees sit in the in-order sequence.

  /** One past the index of the last node of `x`'s subtree. */
  ghost function EndOf(t: Tree, x: int): nat
  {
    |Pre(t, x)| + |Order(Sub(t, x))|
  }

  /** The nodes before a child's subtree: those before its parent's
      subtree, plus, for a right child, the parent's left subtree and the
      parent. */
  lemma {:induction false} PreChild(t: Tree, q: int)
    requires Unique(t) && q in Ids(t)
    ensures var sq := Sub(t, q);
      && (LeftOf(sq).Br? ==> Pre(t, LeftOf(sq).id) == Pre(t, q))
      && (RightOf(sq).Br? ==> Pre(t, RightOf(sq).id) == Pre(t, q) + Order(LeftOf(sq)) + [q])
  {
    PreLeftChild(t, q);
    PreRightChild(t, q);
  }

  lemma {:induction false} PreLeftChild(t: Tree, q: int)
    requires Unique(t) && q in Ids(t)
    ensures var sq := Sub(t, q);
      LeftOf(sq).Br? ==> Pre(t, LeftOf(sq).id) == Pre(t, q)
  {
    match t
    case Br(l, y, r) =>
      if y == q {
        if l.Br? {
          assert l.id in Ids(l);
        }
      } else if q in Ids(l) {
        PreLeftChild(l, q);
        SubIds(l, q);
        SubTop(l, q);
        var sq := Sub(l, q);
        if sq.left.Br? {
          assert sq.left.id in Ids(sq) && sq.left.id != y;
        }
      } else {
        PreLeftChild(r, q);
        SubIds(r, q);
        SubTop(r, q);
        var sq := Sub(r, q);
        if sq.left.Br? {
          assert sq.left.id in Ids(sq) && sq.left.id != y && sq.left.id !in Ids(l);
        }
      }
  }

  lemma {:induction false} PreRightChild(t: Tree, q: int)
    requires Unique(t) && q in Ids(t)
    ensures var sq := Sub(t, q);
      RightOf(sq).Br? ==> Pre(t, RightOf(sq).id) == Pre(t, q) + Order(LeftOf(sq)) + [q]
  {
    match t
    case Br(l, y, r) =>
      if y == q {
        if r.Br? {
          assert r.id in Ids(r) && r.id !in Ids(l);
        }
      } else if q in Ids(l) {
        PreRightChild(l, q);
        SubIds(l, q);
        SubTop(l, q);
        var sq := Sub(l, q);
        if sq.right.Br? {
          assert sq.right.id in Ids(sq) && sq.right.id != y;
        }
      } else {
        PreRightChild(r, q);
        SubIds(r, q);
        SubTop(r, q);
        var sq := Sub(r, q);
        if sq.right.Br? {
          assert sq.right.id in Ids(sq) && sq.right.id != y && sq.right.id !in Ids(l);
        }
      }
  }

  /** With a right subtree, the successor is that subtree's first node. */
  lemma {:induction false} SuccessorBelow(t: Tree, x: int)
    requires Unique(t) && x in Ids(t) && Sub(t, x).Br? && Sub(t, x).right.Br?
    ensures Rank(t, x) + 1 < |Order(t)| && Order(t)[Rank(t, x) + 1] == Order(Sub(t, x).right)[0]
    ensures Order(Sub(t, x).right)[0] in Ids(t) && Rank(t, Order(Sub(t, x).right)[0]) == Rank(t, x) + 1
  {
    var s := Sub(t, x);
    var r := Order(s.right);
    FirstOfRight(s);
    SubFacts(t, x);
    PickFirst(Order(t), Pre(t, x), Order(s), Post(t, x), Order(s.left), x, r);
    RankUnique(t, r[0], Rank(t, x) + 1);
  }

  /** A node without a right subtree is the last of its subtree. */
  lemma {:induction false} EndOfLeaf(t: Tree, x: int)
    requires Unique(t) && x in Ids(t) && RightOf(Sub(t, x)) == Nil
    ensures EndOf(t, x) == Rank(t, x) + 1
  {
    SubTop(t, x);
    var s := Sub(t, x);
    assert Order(s) == Order(s.left) + [x] + Order(s.right);
  }

  /** Coming up from a right child does not move the end of the subtree. */
  lemma {:induction false} EndOfRightChild(t: Tree, y: int)
    requires Unique(t) && y in Ids(t) && y != Null && y != Root(t) && Root(RightOf(Sub(t, Parent(t, y)))) == y
    ensures EndOf(t, Parent(t, y)) == EndOf(t, y)
  {
    var q := Parent(t, y);
    ParentIn(t, y);
    PreChild(t, q);
    SubChild(t, q);
    SubTop(t, q);
    var sq := Sub(t, q);
    assert Order(sq) == Order(sq.left) + [q] + Order(sq.right);
  }

  /** Coming up from a left child reaches the node right after its subtree. */
  lemma {:induction false} EndOfLeftChild(t: Tree, y: int)
    requires Unique(t) && y in Ids(t) && y != Null && y != Root(t) && Root(LeftOf(Sub(t, Parent(t, y)))) == y
    ensures Rank(t, Parent(t, y)) == EndOf(t, y)
  {
    var q := Parent(t, y);
    ParentIn(t, y);
    PreChild(t, q);
    SubChild(t, q);
  }

  /** The root's subtree ends at the end of the sequence. */
  lemma {:induction false} EndOfRoot(t: Tree)
    requires t.Br?
    ensures EndOf(t, Root(t)) == |Order(t)|
  {
  }

  /** With a left subtree, the predecessor is that subtree's last node. */
  lemma {:induction false} PredecessorBelow(t: Tree, x: int)
    requires Unique(t) && x in Ids(t) && Sub(t, x).Br? && Sub(t, x).left.Br?
    ensures var l := Order(Sub(t, x).left);
      && 1 <= Rank(t, x) && l[|l| - 1] in Ids(t) && Rank(t, l[|l| - 1]) == Rank(t, x) - 1
  {
    var s := Sub(t, x);
    var l := Order(s.left);
    LastOfLeft(s);
    SubFacts(t, x);
    PickLast(Order(t), Pre(t, x), Order(s), Post(t, x), l, x, Order(s.right));
    RankUnique(t, l[|l| - 1], Rank(t, x) - 1);
  }

  /** The last node of a left subtree belongs to the tree above it. */
  lemma {:induction false} LastOfLeft(s: Tree)
    requires s.Br? && s.left.Br?
    ensures var l := Order(s.left);
      l != [] && l[|l| - 1] in Ids(s) && Order(s) == l + [s.id] + Order(s.right)
  {
    var l := Order(s.left);
    assert l == Order(s.left.left) + [s.left.id] + Order(s.left.right);
    OrderIds(s.left);
    var m := l[|l| - 1];
    assert m in l;
    assert m in Ids(s.left);
  }

  /** The first node of a right subtree belongs to the tree above it. */
  lemma {:induction false} FirstOfRight(s: Tree)
    requires s.Br? && s.right.Br?
    ensures var r := Order(s.right);
      r != [] && r[0] in Ids(s) && Order(s) == Order(s.left) + [s.id] + r
  {
    var r := Order(s.right);
    assert r == Order(s.right.left) + [s.right.id] + Order(s.right.right);
    OrderIds(s.right);
    var m := r[0];
    assert m in r;
    assert m in Ids(s.right);
  }

  /** Index arithmetic for a subtree `m == l + [x] + r` standing in `o`
      after `p`. */
  lemma {:induction false} PickLast(o: seq<int>, p: seq<int>, m: seq<int>, q: seq<int>, l: seq<int>, x: int, r: seq<int>)
    requires o == p + m + q && m == l + [x] + r && l != []
    ensures |p| + |l| <= |o| && o[|p| + |l| - 1] == l[|l| - 1]
  {
    assert o[|p| + |l| - 1] == m[|l| - 1];
  }

  lemma {:induction false} PickFirst(o: seq<int>, p: seq<int>, m: seq<int>, q: seq<int>, l: seq<int>, x: int, r: seq<int>)
    requires o == p + m + q && m == l + [x] + r && r != []
    ensures |p| + |l| + 1 < |o| && o[|p| + |l| + 1] == r[0]
  {
    assert o[|p| + |l| + 1] == m[|l| + 1];
  }

  /** A node without a left subtree is the first of its subtree. */
  lemma {:induction false} StartOfLeaf(t: Tree, x: int)
    requires Unique(t) && x in Ids(t) && LeftOf(Sub(t, x)) == Nil
    ensures |Pre(t, x)| == Rank(t, x)
  {
  }

  /** Coming up from a left child does not move the start of the subtree. */
  lemma {:induction false} StartOfLeftChild(t: Tree, y: int)
    requires Unique(t) && y in Ids(t) && y != Null && y != Root(t) && Root(LeftOf(Sub(t, Parent(t, y)))) == y
    ensures |Pre(t, Parent(t, y))| == |Pre(t, y)|
  {
    var q := Parent(t, y);
    ParentIn(t, y);
    PreChild(t, q);
  }

  /** Coming up from a right child reaches the node right before its
      subtree. */
  lemma {:induction false} StartOfRightChild(t: Tree, y: int)
    requires Unique(t) && y in Ids(t) && y != Null && y != Root(t) && Root(RightOf(Sub(t, Parent(t, y)))) == y
    ensures Rank(t, Parent(t, y)) + 1 == |Pre(t, y)|
  {
    var q := Parent(t, y);
    ParentIn(t, y);
    PreChild(t, q);
  }

  /** When the root has no right subtree it holds the last key, and `++`
      on it finds neither a right child nor a parent: the as-written
      `operator++` then reads the left child of a parent that does not
      exist, where `IncrementChecked` reaches `end()`. */
  lemma {:induction false} RootLastWithoutRight(t: Tree, a: seq<Node>)
    requires Linked(t, Null, a) && Unique(t) && t.Br? && t.right == Nil
    ensures Order(t) != [] && Order(t)[|Order(t)| - 1] == t.id
    ensures a[t.id].right == Null && a[t.id].parent == Null
  {
    TopFields(t, Null, a);
    assert Order(t) == Order(t.left) + [t.id] + Order(t.right);
  }
}
