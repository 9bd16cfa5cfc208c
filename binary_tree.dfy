// The container of binary_tree/binary_tree.hpp: `binary_tree<T, Policy>`
// with `add`, `erase`, `find`, `contains`, the traversals, `size`,
// `is_empty`, `begin`/`end` and `operator==`, and the erase step of
// `null_balancing_policy`. With `red_black_balancing_policy` it is the
// `red_black_tree` of red_black_tree/red_black_tree.hpp.
//
// `_size` counts the calls of `add` minus the successful calls of `erase`;
// the node count is the length of the in-order sequence, which `_size`
// always bounds.
module BinaryTree {
  import opened TreeShape
  import opened TreeUtils
  import opened RedBlackTree
  import opened TreeIterator
  import opened Reverse

  /** The `BalancingPolicy` template argument. */
  datatype Policy = NullBalancing | RedBlackBalancing

  class BinaryTree {
    const policy: Policy
    const arena: Arena
    var root: int
    var size: nat
    ghost var shape: Tree

    /** The tree held by `arena`: a binary search tree whose root is `root`
        (red-black under `RedBlackBalancing`), with `size` at least its
        number of nodes. */
    ghost predicate Valid()
      reads this, arena
    {
      Searchable() && |Keys(shape, arena.nodes)| <= size
    }

    /** `Valid` apart from the counter. */
    ghost predicate Searchable()
      reads this, arena
    {
      && Linked(shape, Null, arena.nodes) && Unique(shape) && Root(shape) == root
      && InArena(shape, |arena.nodes|) && Ordered(shape, arena.nodes)
      && (policy == RedBlackBalancing ==> IsRedBlack(shape, arena.nodes))
    }

    /** `operator++` can step off every node: the tree is empty or its root
        has a right subtree. Stepping off a root without one reads the
        parent of the root, which is `nullptr`. */
    ghost predicate Steppable()
      reads this
    {
      shape.Nil? || shape.right.Br?
    }

    /** The keys in in-order. */
    ghost function Contents(): seq<int>
      reads this, arena
    {
      Keys(shape, arena.nodes)
    }

    /** `binary_tree()`: the empty tree. */
    constructor (policy: Policy)
      ensures Valid() && this.policy == policy && fresh(arena)
      ensures Contents() == [] && size == 0 && shape == Nil && arena.nodes == []
    {
      this.policy := policy;
      arena := new Arena();
      root := Null;
      size := 0;
      shape := Nil;
    }

    /** `add(t)`: the key is inserted and the counter incremented, also
        when the key was already present and nothing was added. */
    method Add(k: int)
      requires Valid()
      modifies this, arena
      ensures Valid() && Contents() == SortedInsert(old(Contents()), k)
      ensures size == old(size) + 1
      ensures policy == NullBalancing ==>
        && shape == InsertLeaf(old(shape), Hung(old(arena.nodes), k), |old(arena.nodes)|)
        && SamePayload(Hung(old(arena.nodes), k), arena.nodes)
        && KeyTree(shape, arena.nodes) == KInsert(old(KeyTree(shape, arena.nodes)), k)
      ensures policy == RedBlackBalancing ==>
        && shape == RbInsert(old(shape), old(arena.nodes), k).0
        && SamePayload(RbInsert(old(shape), old(arena.nodes), k).1, arena.nodes)
    {
      var _ := Insert(k);
      size := size + 1;
    }

    /** `add` with the counter incremented only when a node was added, so
        that a counter equal to the number of nodes stays equal to it. */
    method AddCounted(k: int)
      requires Valid()
      modifies this, arena
      ensures Valid() && Contents() == SortedInsert(old(Contents()), k)
      ensures size == old(size) + (if k in old(Contents()) then 0 else 1)
      ensures old(size) == |old(Contents())| ==> size == |Contents()|
      ensures policy == NullBalancing ==>
        && shape == InsertLeaf(old(shape), Hung(old(arena.nodes), k), |old(arena.nodes)|)
        && SamePayload(Hung(old(arena.nodes), k), arena.nodes)
        && KeyTree(shape, arena.nodes) == KInsert(old(KeyTree(shape, arena.nodes)), k)
      ensures policy == RedBlackBalancing ==>
        && shape == RbInsert(old(shape), old(arena.nodes), k).0
        && SamePayload(RbInsert(old(shape), old(arena.nodes), k).1, arena.nodes)
    {
      var added := Insert(k);
      if added {
        size := size + 1;
      }
    }

    /** The body of `add` before `++_size`: a new node is hung by
        `node::add` (which rejects a key already present) and the policy
        balances the tree from it. */
    method Insert(k: int) returns (added: bool)
      requires Searchable()
      modifies this, arena
      ensures Searchable() && Contents() == SortedInsert(old(Contents()), k) && size == old(size)
      ensures added <==> k !in old(Contents())
      ensures |Contents()| == |old(Contents())| + (if added then 1 else 0)
      ensures policy == NullBalancing ==>
        && shape == InsertLeaf(old(shape), Hung(old(arena.nodes), k), |old(arena.nodes)|)
        && SamePayload(Hung(old(arena.nodes), k), arena.nodes)
        && KeyTree(shape, arena.nodes) == KInsert(old(KeyTree(shape, arena.nodes)), k)
      ensures policy == RedBlackBalancing ==>
        && shape == RbInsert(old(shape), old(arena.nodes), k).0
        && SamePayload(RbInsert(old(shape), old(arena.nodes), k).1, arena.nodes)
    {
      ghost var s0, a0 := shape, arena.nodes;
      var n := arena.NewNode(k);
      ghost var a := arena.nodes;
      Appended(shape, a0, a);
      SortedInsertFacts(Keys(shape, a), k);
      if root == Null {
        ghost var t := Br(Nil, n, Nil);
        assert Keys(t, a) == [k];
        assert Root(t) == n && Ids(t) == {n} && ColourOf(a, n) == Red;
        assert BlackBalanced(t, a);
        assert RedOkBut(t, n, a);
        assert arena.nodes == a;
        added := true;
        if policy == NullBalancing {
          // `null_balancing_policy::balance` hands back the root it is given.
          root := n;
          shape := t;
        } else {
          HungRed(Nil, a0, k);
          root, shape := Balance(arena, n, n, t);
          BalancedKeys(t, a, shape, arena.nodes, root);
          FixupPayload(t, a, a, n);
          FixedPayload(a, Fixup(t, a, n).1, arena.nodes);
        }
        LinkedInArena(shape, Null, arena.nodes);
      } else {
        added := arena.Add(root, n, shape, Null);
        ghost var m := arena.nodes;
        ghost var t := InsertLeaf(shape, a, n);
        SamePayloadKeys(t, a, m);
        if added {
          InsertLeafFacts(shape, a, n);
        } else {
          InsertLeafPresent(shape, a, n);
        }
        assert Root(t) == root;
        if policy == RedBlackBalancing {
          AddedRed(shape, a, n, m, added);
          HungRed(shape, a0, k);
          LinkedInArena(t, Null, m);
          root, shape := Balance(arena, root, n, t);
          BalancedKeys(t, m, shape, arena.nodes, root);
          FixupPayload(t, a, m, n);
          FixedPayload(m, Fixup(t, m, n).1, arena.nodes);
        } else {
          shape := t;
        }
        LinkedInArena(shape, Null, arena.nodes);
      }
      if policy == NullBalancing {
        NullAdded(s0, a0, k, arena.nodes);
      }
    }

    /** `erase(t)`: the node holding `k`, if any, is removed by the policy's
        `erase_node` and the counter decremented. The red-black policy has
        no `erase_node`, so only the plain tree can erase. */
    method Erase(k: int)
      requires Valid() && policy == NullBalancing
      modifies this, arena
      ensures Valid() && Contents() == Remove(old(Contents()), k)
      ensures size == old(size) - (if k in old(Contents()) then 1 else 0)
      ensures old(Contents()) == [k] ==> root == Null
    {
      ghost var t, a := shape, arena.nodes;
      if root != Null {
        var target := arena.Find(root, k, shape, Null);
        if target != Null {
          size := size - 1;
          root, shape := EraseNode(arena, root, target, shape);
          ErasedKeys(t, a, target, k);
          LinkedInArena(shape, Null, arena.nodes);
          OrderIds(shape);
          if shape.Br? {
            assert shape.id in Order(shape);
          }
        } else {
          RemoveAbsent(Keys(t, a), k);
        }
      } else {
        RemoveAbsent(Keys(t, a), k);
      }
    }

    /** `contains(t)`: `find(t) != end()`. */
    function Contains(k: int): (b: bool)
      reads this, arena
      requires Valid()
      ensures b <==> k in Contents()
    {
      root != Null && arena.Find(root, k, shape, Null) != Null
    }

    /** `find(t)`: an iterator on the node holding `k`, or `end()`. */
    method Find(k: int) returns (it: Iterator)
      requires Valid()
      ensures fresh(it) && it.Valid() && it.arena == arena && it.shape == shape && it.root == root
      ensures it.np == Null <==> k !in Contents()
      ensures it.np != Null ==> Contents()[it.Pos()] == k
    {
      if root == Null {
        it := End();
      } else {
        var n := arena.Find(root, k, shape, Null);
        LinkedInArena(shape, Null, arena.nodes);
        it := new Iterator(arena, n, root, shape);
        if n != Null {
          KeysAtRank(shape, arena.nodes, n);
        }
      }
    }

    /** `inorder_traverse(visiter)`: the keys handed to the visitor. */
    function InorderTraverse(): (r: seq<int>)
      reads this, arena
      requires Valid()
      ensures r == Contents() && Increasing(r)
    {
      if root == Null then [] else arena.Inorder(root, shape, Null)
    }

    /** `size()`: the counter, which bounds the number of keys. */
    function Size(): (r: nat)
      reads this, arena
      requires Valid()
      ensures r == size && |Contents()| <= r
    {
      size
    }

    /** `is_empty()`: the counter is zero, and then there are no keys. */
    function IsEmpty(): (b: bool)
      reads this, arena
      requires Valid()
      ensures b <==> size == 0
      ensures b ==> Contents() == []
    {
      size == 0
    }

    /** `begin()`: an iterator on `leftmost(root)`. */
    method Begin() returns (it: Iterator)
      requires Valid()
      ensures fresh(it) && it.Valid() && it.arena == arena && it.shape == shape && it.root == root
      ensures it.Pos() == 0
    {
      var m := arena.Leftmost(root, shape, Null);
      it := new Iterator(arena, m, root, shape);
      if m != Null {
        RankUnique(shape, m, 0);
      }
    }

    /** `end()`: the iterator one past the last node. */
    method End() returns (it: Iterator)
      requires Valid()
      ensures fresh(it) && it.Valid() && it.arena == arena && it.shape == shape && it.root == root
      ensures it.np == Null && it.Pos() == |Contents()|
    {
      it := new Iterator(arena, Null, root, shape);
    }

    /** Copying the range `begin()`..`end()` with `operator++` as written
        (as `std::copy` does): the keys in ascending order, provided the root
        has a right subtree, since `++` cannot leave a root without one. */
    method Walk() returns (keys: seq<int>)
      requires Valid()
      requires root != Null ==> 0 <= root < |arena.nodes| && arena.nodes[root].right != Null
      ensures keys == Contents()
    {
      var it := Begin();
      var last := End();
      keys := [];
      while !it.Equals(last)
        invariant it != last && it.Valid() && it.arena == arena && it.shape == shape && it.root == root
        invariant last.Valid() && last.arena == arena && last.shape == shape && last.np == Null
        invariant keys == Contents()[..it.Pos()]
        decreases |Order(shape)| - it.Pos()
      {
        keys := keys + [it.Key()];
        ChildSlotOf(shape, it.np, arena.nodes);
        it.Increment();
      }
    }

    /** The same walk with the guarded `operator++`: every tree is walked. */
    method WalkChecked() returns (keys: seq<int>)
      requires Valid()
      ensures keys == Contents()
    {
      var it := Begin();
      var last := End();
      keys := [];
      while !it.Equals(last)
        invariant it != last && it.Valid() && it.arena == arena && it.shape == shape && it.root == root
        invariant last.Valid() && last.arena == arena && last.shape == shape && last.np == Null
        invariant keys == Contents()[..it.Pos()]
        decreases |Order(shape)| - it.Pos()
      {
        keys := keys + [it.Key()];
        it.IncrementChecked();
      }
    }

    /** From `end()`, `operator--` down to `begin()`: the keys in descending
        order. */
    method WalkBack() returns (keys: seq<int>)
      requires Valid()
      ensures keys == Reversed(Contents())
    {
      var it := End();
      var first := Begin();
      keys := [];
      while !it.Equals(first)
        invariant it != first && it.Valid() && it.arena == arena && it.shape == shape && it.root == root
        invariant first.Valid() && first.arena == arena && first.shape == shape && first.Pos() == 0
        invariant keys == Reversed(Contents()[it.Pos()..])
        decreases it.Pos()
      {
        ghost var p := it.Pos();
        if it.np != Null {
          ChildSlotOf(shape, it.np, arena.nodes);
          if it.np == root {
            TopFields(shape, Null, arena.nodes);
          }
        }
        it.Decrement();
        keys := keys + [it.Key()];
        ReversedStep(Contents(), p);
      }
      assert Contents()[0..] == Contents();
    }

    /** `breadth_first_traverse_nodes(visiter)`: the nodes handed to the
        visitor, taken from the front of a FIFO queue that starts with the
        root and receives each node's left, then right child. */
    method BreadthFirstNodes() returns (visited: seq<int>)
      requires Valid()
      ensures visited == LevelOrder(shape)
      ensures multiset(visited) == multiset(Order(shape))
    {
      LevelOrderPermutes(shape);
      visited := [];
      if root == Null {
        assert Level([Nil]) == Level([]);
        return;
      }
      var q := [root];
      ghost var gq := [shape];
      SubFacts(shape, root);
      while q != []
        invariant Tracks(shape, q, gq)
        invariant visited + Level(gq) == LevelOrder(shape)
        decreases Weight(gq)
      {
        ghost var g := gq[0];
        BfsStep(shape, arena.nodes, q, gq, visited);
        var n := q[0];
        visited := visited + [n];
        var left, right := arena.nodes[n].left, arena.nodes[n].right;
        q := q[1..] + (if left != Null then [left] else []) + (if right != Null then [right] else []);
        gq := gq[1..] + Kids(g);
      }
    }

    /** `breadth_first_traverse(visiter)`: the keys of those nodes. */
    method BreadthFirstTraverse() returns (keys: seq<int>)
      requires Valid()
      ensures keys == KeysOf(LevelOrder(shape), arena.nodes)
      ensures |keys| == |Contents()| && forall k :: k in keys <==> k in Contents()
    {
      var visited := BreadthFirstNodes();
      LinkedInArena(shape, Null, arena.nodes);
      OrderIds(shape);
      forall i | 0 <= i < |visited| ensures 0 <= visited[i] < |arena.nodes| {
        assert visited[i] in multiset(visited);
        assert visited[i] in Order(shape);
      }
      keys := seq(|visited|, i requires 0 <= i < |visited| && 0 <= visited[i] < |arena.nodes| reads arena => arena.nodes[visited[i]].key);
      SameElementsKeys(visited, Order(shape), arena.nodes);
    }
  }

  // ---------------------------------------------------------------------
  // `null_balancing_policy::erase_node`.

  // ---------------------------------------------------------------------
  // Equality.

  /** `std::equal(first1, last1, first2)`: the elements of `xs` match the
      first `|xs|` elements of `ys`. The walk stops at the first mismatch, so
      it reads past the end of `ys` only when `ys` is a proper prefix of
      `xs`. */
  function StdEqual(xs: seq<int>, ys: seq<int>): (b: bool)
    requires !(ys < xs)
    ensures b <==> xs <= ys
  {
    if xs == [] then true else xs[0] == ys[0] && StdEqual(xs[1..], ys[1..])
  }

  /** `operator==`: equal counters, then `std::equal` over the in-order
      keys of `l` against those of `r`. When the counters agree, the reading
      of `r` must not run past its end, and each iterator that `std::equal`
      steps off the last node of its tree must be able to do so: `l`'s when
      all of `l` matched, `r`'s when all of `r` did too. */
  function Equal(l: BinaryTree, r: BinaryTree): (b: bool)
    reads l, l.arena, r, r.arena
    requires l.Valid() && r.Valid()
    requires l.size == r.size ==> !(r.Contents() < l.Contents())
    requires l.size == r.size && l.Contents() <= r.Contents() ==>
      l.Steppable() && (l.Contents() == r.Contents() ==> r.Steppable())
    ensures b <==> l.size == r.size && l.Contents() <= r.Contents()
  {
    l.size == r.size && StdEqual(l.InorderTraverse(), r.InorderTraverse())
  }

  /** With counters that agree with the node counts, `operator==` holds
      exactly when the two trees hold the same keys, whatever their shapes,
      as long as both iterators can step off the last node when the keys
      agree. */
  lemma {:induction false} EqualCounted(l: BinaryTree, r: BinaryTree)
    requires l.Valid() && r.Valid() && l.size == |l.Contents()| && r.size == |r.Contents()|
    requires l.Contents() == r.Contents() ==> l.Steppable() && r.Steppable()
    ensures l.size == r.size ==> !(r.Contents() < l.Contents())
    ensures l.size == r.size && l.Contents() <= r.Contents() ==> l.Steppable() && r.Steppable()
    ensures Equal(l, r) <==> l.Contents() == r.Contents()
    ensures Equal(l, r) <==> forall k :: k in l.Contents() <==> k in r.Contents()
  {
    if forall k :: k in l.Contents() <==> k in r.Contents() {
      IncreasingUnique(l.Contents(), r.Contents());
    }
  }

  /** Increasing sequences are fixed by their elements. */
  lemma {:induction false} IncreasingUnique(xs: seq<int>, ys: seq<int>)
    requires Increasing(xs) && Increasing(ys)
    requires forall m :: m in xs <==> m in ys
    ensures xs == ys
  {
    assert xs != [] ==> xs[0] in xs;
    assert ys != [] ==> ys[0] in ys;
    if xs != [] {
      assert xs[0] == ys[0] by {
        assert xs[0] in ys && ys[0] in xs;
        var i :| 0 <= i < |xs| && xs[i] == ys[0];
        var j :| 0 <= j < |ys| && ys[j] == xs[0];
        assert xs[0] <= xs[i] && ys[0] <= ys[j];
      }
      forall m ensures m in xs[1..] <==> m in ys[1..] {
        TailMembers(xs, m);
        TailMembers(ys, m);
      }
      IncreasingUnique(xs[1..], ys[1..]);
    }
  }

  lemma {:induction false} TailMembers(xs: seq<int>, m: int)
    requires Increasing(xs) && xs != []
    ensures m in xs[1..] <==> m in xs && m != xs[0]
  {
    if m in xs && m != xs[0] {
      var i :| 0 <= i < |xs| && xs[i] == m;
      assert xs[1..][i - 1] == m;
    }
    if m in xs[1..] {
      var i :| 0 <= i < |xs[1..]| && xs[1..][i] == m;
      assert xs[i + 1] == m;
    }
  }

  // ---------------------------------------------------------------------
  // The counter of `add`.

  /** `add` counts a key that was already present: after adding 1, 1, 2
      to one tree and 1, 2, 3 to another both counters are 3, and
      `operator==` calls them equal although the second holds a key the
      first lacks. */
  method DuplicateScenario() returns (l: BinaryTree, r: BinaryTree)
    ensures l.Valid() && r.Valid() && l.size == 3 && r.size == 3
    ensures l.Contents() == [1, 2] && r.Contents() == [1, 2, 3]
    ensures l.Steppable()
    ensures Equal(l, r) && l.Contents() != r.Contents()
  {
    l := AddOneOneTwo();
    r := AddOneTwoThree();
  }

  /** `add(1)`, `add(1)`, `add(2)` on an empty unbalanced tree. */
  method AddOneOneTwo() returns (t: BinaryTree)
    ensures t.Valid() && t.size == 3 && t.Contents() == [1, 2] && t.Steppable()
  {
    t := new BinaryTree(NullBalancing);
    t.Add(1);
    t.Add(1);
    t.Add(2);
    assert [1][1..] == [];
    assert t.Steppable() by {
      var k := KeyTree(t.shape, t.arena.nodes);
      assert k == KBr(KNil, 1, KBr(KNil, 2, KNil));
      assert t.shape.Br? && KeyTree(t.shape.right, t.arena.nodes) == k.right;
    }
  }

  /** `add(1)`, `add(2)`, `add(3)` on an empty unbalanced tree. */
  method AddOneTwoThree() returns (t: BinaryTree)
    ensures t.Valid() && t.size == 3 && t.Contents() == [1, 2, 3]
  {
    t := new BinaryTree(NullBalancing);
    t.Add(1);
    t.Add(2);
    t.Add(3);
    assert [1, 2][1..] == [2] && [2][1..] == [];
  }

  /** `add` twice and `erase` once leave a tree without keys whose
      `is_empty()` is false and whose `size()` is 1. */
  method EmptyButCounted() returns (t: BinaryTree)
    ensures t.Valid() && t.Contents() == [] && t.Size() == 1 && !t.IsEmpty()
  {
    t := new BinaryTree(NullBalancing);
    t.Add(1);
    t.Add(1);
    t.Erase(1);
    assert [1][1..] == [];
  }

  /** With `AddCounted` the counter stays equal to the number of keys, so
      the same calls give trees `operator==` tells apart. */
  method CountedScenario() returns (l: BinaryTree, r: BinaryTree)
    ensures l.Valid() && r.Valid() && l.size == 2 && r.size == 3
    ensures l.Contents() == [1, 2] && r.Contents() == [1, 2, 3]
    ensures !Equal(l, r)
  {
    l := new BinaryTree(NullBalancing);
    l.AddCounted(1);
    l.AddCounted(1);
    l.AddCounted(2);
    assert [1][1..] == [];
    r := CountedOneTwoThree();
  }

  /** `AddCounted` of 1, 2 and 3 on an empty unbalanced tree. */
  method CountedOneTwoThree() returns (t: BinaryTree)
    ensures t.Valid() && t.size == 3 && t.Contents() == [1, 2, 3]
  {
    t := new BinaryTree(NullBalancing);
    t.AddCounted(1);
    t.AddCounted(2);
    t.AddCounted(3);
    assert [1, 2][1..] == [2] && [2][1..] == [];
  }

  // ---------------------------------------------------------------------
  // The constructors that add keys one by one.

  /** `binary_tree(std::initializer_list<T>)` and the container
      constructor: `add` each key in turn. The counter ends at the number
      of keys given, duplicates included; the tree holds each distinct
      key once, in increasing order. */
  method FromKeys(policy: Policy, xs: seq<int>) returns (t: BinaryTree)
    ensures fresh(t) && fresh(t.arena) && t.Valid() && t.policy == policy
    ensures t.size == |xs|
    ensures Increasing(t.Contents()) && forall k :: k in t.Contents() <==> k in xs
    ensures policy == NullBalancing ==> KeyTree(t.shape, t.arena.nodes) == KBuild(xs)
  {
    t := new BinaryTree(policy);
    var i := 0;
    while i < |xs|
      invariant 0 <= i <= |xs|
      invariant fresh(t) && fresh(t.arena) && t.Valid() && t.policy == policy && t.size == i
      invariant Increasing(t.Contents()) && forall k :: k in t.Contents() <==> k in xs[..i]
      invariant policy == NullBalancing ==> KeyTree(t.shape, t.arena.nodes) == KBuild(xs[..i])
    {
      SortedInsertFacts(t.Contents(), xs[i]);
      t.Add(xs[i]);
      KBuildStep(xs, i);
      i := i + 1;
    }
    assert xs[..i] == xs;
  }

  /** The copy constructor (and through it copy assignment): `add` every
      key of `other` in breadth-first order. The copy holds the same keys,
      but its counter is the number of keys, so when `other`'s counter
      has counted a duplicate `add` the copy is not `==` to the original.
      A plain tree is copied in its own shape, so the two list the same keys
      breadth first. */
  method CopyOf(other: BinaryTree) returns (t: BinaryTree)
    requires other.Valid()
    ensures fresh(t) && fresh(t.arena) && t.Valid() && t.policy == other.policy
    ensures t.Contents() == other.Contents() && t.size == |other.Contents()|
    ensures other.size != |other.Contents()| ==> !Equal(t, other)
    ensures t.Steppable() && other.Steppable() ==> (Equal(t, other) <==> other.size == |other.Contents()|)
    ensures other.policy == NullBalancing ==>
      && KeyTree(t.shape, t.arena.nodes) == KeyTree(other.shape, other.arena.nodes)
      && KeysOf(LevelOrder(t.shape), t.arena.nodes) == KeysOf(LevelOrder(other.shape), other.arena.nodes)
      && (t.Steppable() <==> other.Steppable())
  {
    var keys := other.BreadthFirstTraverse();
    t := FromKeys(other.policy, keys);
    IncreasingUnique(t.Contents(), other.InorderTraverse());
    if other.policy == NullBalancing {
      LevelOrderRebuilds(other.shape, other.arena.nodes);
      SameKeyTreeLevels(t.shape, t.arena.nodes, other.shape, other.arena.nodes);
      SameKeyTreeSteppable(t.shape, t.arena.nodes, other.shape, other.arena.nodes);
    }
  }

  /** `erase_node(root, target)`: a leaf is detached; a node with one child
      is replaced by that child; a node with two children swaps keys with
      its in-order successor, which is then erased in its place. The keys
      in in-order lose exactly the one at `target`'s position. */
  method EraseNode(arena: Arena, root: int, target: int, ghost t: Tree) returns (newRoot: int, ghost u: Tree)
    requires Linked(t, Null, arena.nodes) && Unique(t) && root == Root(t) && target in Ids(t)
    modifies arena
    ensures Linked(u, Null, arena.nodes) && Unique(u) && newRoot == Root(u)
    ensures Rank(t, target) < |Order(t)|
    ensures Keys(u, arena.nodes) == Without(Keys(t, old(arena.nodes)), Rank(t, target))
    decreases if LeftOf(Sub(t, target)) != Nil && RightOf(Sub(t, target)) != Nil then 1 else 0
  {
    ghost var a := arena.nodes;
    ghost var st := Sub(t, target);
    ghost var pt := if target == Root(t) then Null else Parent(t, target);
    TargetFacts(t, a, target);
    var replacement := arena.FindReplacement(target, st, pt);
    if replacement == Null {
      newRoot := arena.Detach(root, target, Null, t, Nil);
      u := Replace(t, target, Nil);
      Spliced(t, target, Nil, a, arena.nodes);
    } else if arena.nodes[target].left == Null || arena.nodes[target].right == Null {
      ghost var s := if arena.nodes[target].left != Null then st.left else st.right;
      var child := if arena.nodes[target].left != Null then arena.nodes[target].left else arena.nodes[target].right;
      newRoot := Splice(arena, root, target, child, t, s);
      u := Replace(t, target, s);
      Spliced(t, target, s, a, arena.nodes);
    } else {
      var tk := arena.nodes[target].key;
      arena.nodes := arena.nodes[target := arena.nodes[target].(key := arena.nodes[replacement].key)];
      arena.nodes := arena.nodes[replacement := arena.nodes[replacement].(key := tk)];
      SwappedWithSuccessor(t, target, replacement, a, arena.nodes);
      newRoot, u := EraseNode(arena, root, replacement, t);
    }
  }

  /** The one-child case of `erase_node`: the child takes over `target`'s
      parent, and the root or the parent's slot is redirected to it. */
  method Splice(arena: Arena, root: int, target: int, child: int, ghost t: Tree, ghost s: Tree) returns (newRoot: int)
    requires Linked(t, Null, arena.nodes) && Unique(t) && root == Root(t) && target in Ids(t)
    requires var st := Sub(t, target);
      (s == LeftOf(st) && RightOf(st) == Nil) || (s == RightOf(st) && LeftOf(st) == Nil)
    requires s.Br? && child == s.id
    modifies arena
    ensures Linked(Replace(t, target, s), Null, arena.nodes) && newRoot == Root(Replace(t, target, s))
    ensures SamePayload(old(arena.nodes), arena.nodes)
  {
    ghost var a := arena.nodes;
    DetachFacts(t, target, s, a);
    arena.nodes := arena.nodes[child := arena.nodes[child].(parent := arena.nodes[target].parent)];
    ghost var a1 := arena.nodes;
    if target == root {
      newRoot := child;
      ReplaceTop(t, target, s, a, a1);
    } else {
      var q := arena.nodes[target].parent;
      if arena.nodes[q].left == target {
        arena.nodes := arena.nodes[q := arena.nodes[q].(left := child)];
      } else {
        arena.nodes := arena.nodes[q := arena.nodes[q].(right := child)];
      }
      newRoot := root;
      ReplaceBelow(t, target, s, a, a1, arena.nodes);
    }
  }

  // ---------------------------------------------------------------------
  // What `add` computes.

  /** The arena after `add` allocates the node for key `k`: a Red node at
      the end, not linked to anything yet. */
  ghost function Hung(a: seq<Node>, k: int): seq<Node>
  {
    a + [Node(k, Null, Null, Null, Red)]
  }

  /** `add` under the red-black policy, as a function of the shape and of
      the keys and colours of the arena: hang the new Red node `|a|` where
      `node::add` puts it, then let `balance` work from it. Only the shape
      and the keys and colours of the arena returned are meant. */
  ghost function RbInsert(t: Tree, a: seq<Node>, k: int): (r: (Tree, seq<Node>))
    requires Unique(t) && InArena(t, |a|) && Ordered(t, a) && IsRedBlack(t, a)
    ensures SameKeys(Hung(a, k), r.1)
  {
    HungRed(t, a, k);
    Fixup(InsertLeaf(t, Hung(a, k), |a|), Hung(a, k), |a|)
  }

  /** After hanging a Red leaf into a red-black tree, `balance` may start:
      the leaf is pending, or its key was there and the tree is unchanged. */
  lemma {:induction false} HungRed(t: Tree, a: seq<Node>, k: int)
    requires Unique(t) && InArena(t, |a|) && Ordered(t, a) && IsRedBlack(t, a)
    ensures var h, n := Hung(a, k), |a|; var u := InsertLeaf(t, h, n);
      && Unique(u) && u.Br? && InArena(u, |h|) && 0 <= n < |h|
      && (Pending(u, n, h) || (n !in Ids(u) && IsRedBlack(u, h)))
      && (n in Ids(u) <==> k !in Keys(t, a))
  {
    var h, n := Hung(a, k), |a|;
    forall y | y in Ids(t) ensures h[y] == a[y] && KeyOf(h, y) == KeyOf(a, y) && ColourOf(h, y) == ColourOf(a, y) {
    }
    KeysFrame(t, a, h);
    ColourFrame(t, a, h, Null);
    if t.Br? {
      assert t.id in Ids(t);
    }
    assert n !in Ids(t) && KeyOf(h, n) == k && ColourOf(h, n) == Red;
    var u := InsertLeaf(t, h, n);
    if k !in Keys(t, a) {
      InsertLeafFacts(t, h, n);
      InsertRedLeaf(t, h, n);
      assert t.Br? ==> Root(u) == Root(t);
    } else {
      InsertLeafPresent(t, h, n);
    }
  }

  /** The arena `balance` leaves has the keys of the one it got and the
      colours `Fixup` computes. */
  lemma {:induction false} FixedPayload(m: seq<Node>, f: seq<Node>, b: seq<Node>)
    requires SameKeys(m, f) && SameKeys(m, b) && SameColours(b, f)
    ensures SamePayload(f, b)
  {
    forall y | 0 <= y < |f| ensures b[y].key == f[y].key && b[y].colour == f[y].colour {
      assert ColourOf(b, y) == ColourOf(f, y);
    }
  }

  /** `RbInsert` reads only the keys and colours of its arena. */
  lemma {:induction false} RbInsertPayload(t: Tree, a: seq<Node>, b: seq<Node>, k: int)
    requires Unique(t) && InArena(t, |a|) && Ordered(t, a) && IsRedBlack(t, a)
    requires Ordered(t, b) && IsRedBlack(t, b) && SamePayload(a, b)
    ensures RbInsert(t, a, k).0 == RbInsert(t, b, k).0
    ensures SamePayload(RbInsert(t, a, k).1, RbInsert(t, b, k).1)
  {
    var ha, hb, n := Hung(a, k), Hung(b, k), |a|;
    assert SamePayload(ha, hb);
    InsertLeafFrame(t, ha, hb, n);
    HungRed(t, a, k);
    FixupPayload(InsertLeaf(t, ha, n), ha, hb, n);
  }

  /** `InsertLeaf` reads only keys. */
  lemma {:induction false} InsertLeafFrame(t: Tree, a: seq<Node>, b: seq<Node>, v: int)
    requires SameKeys(a, b)
    ensures InsertLeaf(t, a, v) == InsertLeaf(t, b, v)
  {
    match t
    case Nil =>
    case Br(l, x, r) =>
      InsertLeafFrame(l, a, b, v);
      InsertLeafFrame(r, a, b, v);
  }

  // ---------------------------------------------------------------------
  // Lemmas for the container operations.

  /** Appending a node to the arena leaves a linked tree, its keys and its
      colours as they were. */
  lemma {:induction false} Appended(t: Tree, a0: seq<Node>, a: seq<Node>)
    requires Linked(t, Null, a0) && |a0| < |a| && a[..|a0|] == a0
    ensures Linked(t, Null, a) && Keys(t, a) == Keys(t, a0)
    ensures forall y :: y in Ids(t) ==> ColourOf(a, y) == ColourOf(a0, y)
    ensures IsRedBlack(t, a0) ==> IsRedBlack(t, a)
  {
    LinkedInArena(t, Null, a0);
    forall y | y in Ids(t) ensures SameLinksAt(a0, a, y) && a[y] == a0[y] {
      assert a[y] == a[..|a0|][y];
    }
    LinkedFrame(t, Null, a0, a);
    KeysFrame(t, a0, a);
    ColourFrame(t, a0, a, Null);
  }

  /** What the red-black balancing needs after `node::add`: either the new
      red leaf hangs in the tree and only its own edge may be red-red, or
      it was rejected and the tree is still red-black. */
  lemma {:induction false} AddedRed(t: Tree, a: seq<Node>, v: int, m: seq<Node>, added: bool)
    requires Linked(t, Null, a) && Unique(t) && t.Br? && IsRedBlack(t, a) && Ordered(t, a)
    requires 0 <= v < |a| && v !in Ids(t) && a[v].colour == Red && a[v].parent == Null
    requires SamePayload(a, m)
    requires added <==> KeyOf(a, v) !in Keys(t, a)
    requires !added ==> m == a
    ensures added ==> Pending(InsertLeaf(t, a, v), v, m)
    ensures !added ==> v !in Ids(InsertLeaf(t, a, v)) && m[v].parent == Null && IsRedBlack(InsertLeaf(t, a, v), m)
  {
    var u := InsertLeaf(t, a, v);
    if added {
      InsertLeafFacts(t, a, v);
      InsertRedLeaf(t, a, v);
      ColourFrame(u, a, m, v);
      assert Root(u) == Root(t);
    } else {
      InsertLeafPresent(t, a, v);
    }
  }

  /** A balanced tree holds the same keys in the same order. */
  lemma {:induction false} BalancedKeys(t: Tree, a: seq<Node>, u: Tree, b: seq<Node>, r: int)
    requires Balanced(t, a, u, b, r)
    ensures Keys(u, b) == Keys(t, a)
  {
    SameKeysKeys(t, a, b);
  }

  /** The key at a node's in-order position is the node's key. */
  lemma {:induction false} KeysAtRank(t: Tree, a: seq<Node>, x: int)
    requires Linked(t, Null, a) && Unique(t) && x in Ids(t)
    ensures 0 <= x < |a| && Rank(t, x) < |Keys(t, a)| && Keys(t, a)[Rank(t, x)] == a[x].key
  {
    RankAt(t, x);
    LinkedInArena(t, Null, a);
  }

  /** Removing the node at position `i` of the in-order sequence removes the
      key at position `i` of the keys. */
  lemma {:induction false} KeysOfWithout(o: seq<int>, i: nat, a: seq<Node>)
    requires i < |o|
    ensures KeysOf(Without(o, i), a) == Without(KeysOf(o, a), i)
  {
  }

  /** A node with at most one child spliced out of the shape. */
  lemma {:induction false} Spliced(t: Tree, x: int, s: Tree, a: seq<Node>, b: seq<Node>)
    requires x in Ids(t) && Unique(t)
    requires var st := Sub(t, x);
      (s == LeftOf(st) && RightOf(st) == Nil) || (s == RightOf(st) && LeftOf(st) == Nil)
    requires SamePayload(a, b)
    ensures Unique(Replace(t, x, s)) && Rank(t, x) < |Order(t)|
    ensures Keys(Replace(t, x, s), b) == Without(Keys(t, a), Rank(t, x))
  {
    SubFacts(t, x);
    SpliceOrder(t, x, s);
    ReplaceUnique(t, x, s);
    SamePayloadKeys(Replace(t, x, s), a, b);
    KeysOfWithout(Order(t), Rank(t, x), a);
  }

  /** Swapping the keys of the nodes at positions `i` and `i + 1` and then
      dropping position `i + 1` leaves what dropping position `i` leaves. */
  lemma {:induction false} SwappedKeys(o: seq<int>, i: nat, a: seq<Node>, b: seq<Node>)
    requires Distinct(o) && i + 1 < |o| && |b| == |a|
    requires forall j :: 0 <= j < |o| ==> 0 <= o[j] < |a|
    requires b[o[i]].key == a[o[i + 1]].key
    requires forall y :: 0 <= y < |a| && y != o[i] && y != o[i + 1] ==> b[y].key == a[y].key
    ensures Without(KeysOf(o, b), i + 1) == Without(KeysOf(o, a), i)
  {
    var l, r := Without(KeysOf(o, b), i + 1), Without(KeysOf(o, a), i);
    forall j | 0 <= j < |l| ensures l[j] == r[j] {
      if j < i {
        assert o[j] != o[i] && o[j] != o[i + 1];
      } else if j > i {
        assert o[j + 1] != o[i] && o[j + 1] != o[i + 1];
      }
    }
  }

  /** The effect of `erase` on the keys, when `target` holds `k`. */
  lemma {:induction false} ErasedKeys(t: Tree, a: seq<Node>, target: int, k: int)
    requires Linked(t, Null, a) && Unique(t) && Ordered(t, a) && target in Ids(t)
    requires 0 <= target < |a| && a[target].key == k
    ensures Rank(t, target) < |Keys(t, a)| && Keys(t, a)[Rank(t, target)] == k && k in Keys(t, a)
    ensures Remove(Keys(t, a), k) == Without(Keys(t, a), Rank(t, target))
    ensures Increasing(Without(Keys(t, a), Rank(t, target)))
  {
    KeysAtRank(t, a, target);
    RemoveAt(Keys(t, a), Rank(t, target));
    WithoutIncreasing(Keys(t, a), Rank(t, target));
  }

  /** What `erase_node` reads about `target`. */
  lemma {:induction false} TargetFacts(t: Tree, a: seq<Node>, target: int)
    requires Linked(t, Null, a) && Unique(t) && target in Ids(t)
    ensures var st := Sub(t, target);
      && st.Br? && st.id == target && 0 <= target < |a| && Unique(st)
      && Linked(st, if target == Root(t) then Null else Parent(t, target), a)
      && (st.left == Nil <==> a[target].left == Null) && (st.right == Nil <==> a[target].right == Null)
      && (st.left == Nil && st.right == Nil <==> Sub(t, target).left == Nil && Sub(t, target).right == Nil)
      && Rank(t, target) < |Order(t)|
  {
    SubFacts(t, target);
    SubLinked(t, Null, a, target);
    TopFields(Sub(t, target), if target == Root(t) then Null else Parent(t, target), a);
    RankAt(t, target);
  }

  /** The two-child case of `erase_node` after `std::swap(target.t,
      replacement->t)`: the links are untouched, the successor has no left
      child, and erasing it loses the same key that erasing `target` before
      the swap would have. */
  lemma {:induction false} SwappedWithSuccessor(t: Tree, target: int, replacement: int, a: seq<Node>, b: seq<Node>)
    requires Linked(t, Null, a) && Unique(t) && target in Ids(t)
    requires Sub(t, target).Br? && Sub(t, target).left != Nil && Sub(t, target).right != Nil
    requires replacement == Order(Sub(t, target).right)[0] && 0 <= target < |a| && 0 <= replacement < |a|
    requires b == a[target := a[target].(key := a[replacement].key)][replacement := a[replacement].(key := a[target].key)]
    ensures Linked(t, Null, b) && replacement in Ids(t)
    ensures LeftOf(Sub(t, replacement)) == Nil
    ensures Rank(t, target) < |Order(t)| && Rank(t, replacement) < |Order(t)|
    ensures Without(Keys(t, b), Rank(t, replacement)) == Without(Keys(t, a), Rank(t, target))
  {
    SuccessorBelow(t, target);
    KeysOnlyChanged(t, a, b);
    SuccessorHasNoLeft(t, target, a);
    SwappedOrderKeys(t, target, replacement, a, b);
  }

  /** Changing keys only keeps the links. */
  lemma {:induction false} KeysOnlyChanged(t: Tree, a: seq<Node>, b: seq<Node>)
    requires Linked(t, Null, a) && |b| == |a|
    requires forall y :: 0 <= y < |a| ==> b[y].left == a[y].left && b[y].right == a[y].right && b[y].parent == a[y].parent
    ensures Linked(t, Null, b)
  {
    LinkedInArena(t, Null, a);
    forall y | y in Ids(t) ensures SameLinksAt(a, b, y) {
    }
    LinkedFrame(t, Null, a, b);
  }

  /** The in-order successor of a node with two children has no left
      subtree. */
  lemma {:induction false} SuccessorHasNoLeft(t: Tree, target: int, a: seq<Node>)
    requires Linked(t, Null, a) && Unique(t) && target in Ids(t)
    requires Sub(t, target).Br? && Sub(t, target).right != Nil
    ensures Order(Sub(t, target).right)[0] in Ids(t) && LeftOf(Sub(t, Order(Sub(t, target).right)[0])) == Nil
  {
    SuccessorBelow(t, target);
    var m := Order(Sub(t, target).right)[0];
    TargetFacts(t, a, target);
    TargetFacts(t, a, m);
    var st := Sub(t, target);
    TopFields(st, if target == Root(t) then Null else Parent(t, target), a);
    LeftmostHasNoLeft(st.right, target, a, m);
  }

  /** The keys of `t` after swapping the keys of `target` and its successor. */
  lemma {:induction false} SwappedOrderKeys(t: Tree, target: int, replacement: int, a: seq<Node>, b: seq<Node>)
    requires Linked(t, Null, a) && Unique(t) && target in Ids(t)
    requires Rank(t, target) + 1 < |Order(t)| && Order(t)[Rank(t, target) + 1] == replacement
    requires replacement in Ids(t) && Rank(t, replacement) == Rank(t, target) + 1
    requires 0 <= target < |a| && 0 <= replacement < |a|
    requires b == a[target := a[target].(key := a[replacement].key)][replacement := a[replacement].(key := a[target].key)]
    ensures Without(Keys(t, b), Rank(t, replacement)) == Without(Keys(t, a), Rank(t, target))
  {
    RankAt(t, target);
    UniqueDistinct(t);
    OrderIds(t);
    LinkedInArena(t, Null, a);
    forall j | 0 <= j < |Order(t)| ensures 0 <= Order(t)[j] < |a| {
      assert Order(t)[j] in Ids(t);
    }
    SwappedKeys(Order(t), Rank(t, target), a, b);
  }

  /** The first node of a linked subtree has no left child. */
  lemma {:induction false} LeftmostHasNoLeft(s: Tree, p: int, a: seq<Node>, m: int)
    requires Linked(s, p, a) && s.Br? && m == Order(s)[0]
    ensures 0 <= m < |a| && a[m].left == Null
  {
    if s.left == Nil {
    } else {
      assert Order(s) == Order(s.left) + [s.id] + Order(s.right);
      assert Order(s.left) == Order(s.left.left) + [s.left.id] + Order(s.left.right);
      LeftmostHasNoLeft(s.left, s.id, a, m);
    }
  }

  /** One step down the descending walk. */
  lemma {:induction false} ReversedStep(c: seq<int>, p: nat)
    requires 0 < p <= |c|
    ensures Reversed(c[p - 1..]) == Reversed(c[p..]) + [c[p - 1]]
  {
    assert c[p - 1..][1..] == c[p..];
  }

  // ---------------------------------------------------------------------
  // Breadth-first order.

  /** The number of nodes of a shape. */
  ghost function Count(t: Tree): nat
  {
    match t
    case Nil => 0
    case Br(l, _, r) => Count(l) + 1 + Count(r)
  }

  /** The number of nodes in a queue of shapes. */
  ghost function Weight(q: seq<Tree>): nat
  {
    if q == [] then 0 else Count(q[0]) + Weight(q[1..])
  }

  lemma {:induction false} WeightConcat(p: seq<Tree>, q: seq<Tree>)
    ensures Weight(p + q) == Weight(p) + Weight(q)
  {
    if p == [] {
      assert p + q == q;
    } else {
      assert (p + q)[1..] == p[1..] + q;
      WeightConcat(p[1..], q);
    }
  }

  /** The non-empty children of a node, left first: what the traversal
      pushes. */
  ghost function Kids(t: Tree): seq<Tree>
  {
    (if LeftOf(t) != Nil then [LeftOf(t)] else []) + (if RightOf(t) != Nil then [RightOf(t)] else [])
  }

  lemma {:induction false} KidsWeight(t: Tree)
    ensures Weight(Kids(t)) == Count(LeftOf(t)) + Count(RightOf(t))
  {
    var l := if LeftOf(t) != Nil then [LeftOf(t)] else [];
    var r := if RightOf(t) != Nil then [RightOf(t)] else [];
    WeightConcat(l, r);
    assert Weight(l) == Count(LeftOf(t)) by {
      if l != [] {
        assert l[1..] == [];
      }
    }
    assert Weight(r) == Count(RightOf(t)) by {
      if r != [] {
        assert r[1..] == [];
      }
    }
  }

  /** The nodes a FIFO queue of shapes hands out: the front shape's top,
      then those of the rest of the queue with the front's children
      appended. */
  ghost function Level(q: seq<Tree>): seq<int>
    decreases Weight(q), |q|
  {
    if q == [] then []
    else
      WeightConcat(q[1..], Kids(q[0]));
      KidsWeight(q[0]);
      if q[0] == Nil then Level(q[1..]) else [q[0].id] + Level(q[1..] + Kids(q[0]))
  }

  /** The breadth-first order of a shape. */
  ghost function LevelOrder(t: Tree): seq<int>
  {
    Level([t])
  }

  /** A queue entry of the traversal of `t`: a subtree topped by one of its
      nodes. */
  ghost predicate Queued(t: Tree, s: Tree)
  {
    s.Br? && s.id in Ids(t) && Sub(t, s.id) == s
  }

  /** The traversal's queue of nodes `q` holds the tops of the queue of
      subtrees `gq`. */
  ghost predicate Tracks(t: Tree, q: seq<int>, gq: seq<Tree>)
  {
    |q| == |gq| && forall i :: 0 <= i < |gq| ==> Queued(t, gq[i]) && q[i] == gq[i].id
  }

  /** One step of the traversal, in the traversal's own terms: handing
      out the front node and queueing its children keeps the queue of
      nodes in step with the queue of shapes, and what is left to hand out
      shrinks. */
  lemma {:induction false} BfsStep(t: Tree, a: seq<Node>, q: seq<int>, gq: seq<Tree>, visited: seq<int>)
    requires Linked(t, Null, a) && Unique(t) && Tracks(t, q, gq) && q != []
    requires visited + Level(gq) == LevelOrder(t)
    ensures 0 <= q[0] < |a|
    ensures var l, r := a[q[0]].left, a[q[0]].right;
      Tracks(t, q[1..] + (if l != Null then [l] else []) + (if r != Null then [r] else []), gq[1..] + Kids(gq[0]))
    ensures Weight(gq[1..] + Kids(gq[0])) < Weight(gq)
    ensures visited + [q[0]] + Level(gq[1..] + Kids(gq[0])) == LevelOrder(t)
  {
    QueueFront(t, a, q, gq);
    var g := gq[0];
    assert visited + [q[0]] + Level(gq[1..] + Kids(g)) == visited + Level(gq);
  }

  /** One step of the traversal: the front of the queue is handed out and
      its children queued, which is what `Level` does with the queue. */
  lemma {:induction false} QueueFront(t: Tree, a: seq<Node>, q: seq<int>, gq: seq<Tree>)
    requires Linked(t, Null, a) && Unique(t) && Tracks(t, q, gq) && q != []
    ensures var g := gq[0];
      && q[0] == g.id && 0 <= g.id < |a|
      && Level(gq) == [g.id] + Level(gq[1..] + Kids(g))
      && Weight(gq[1..] + Kids(g)) < Weight(gq)
      && var l, r := a[g.id].left, a[g.id].right;
         Tracks(t, q[1..] + (if l != Null then [l] else []) + (if r != Null then [r] else []), gq[1..] + Kids(g))
  {
    var g := gq[0];
    QueuedChildren(t, a, g);
    LevelFront(gq);
    WeightConcat(gq[1..], Kids(g));
    KidsWeight(g);
    var l, r := a[g.id].left, a[g.id].right;
    var q2 := q[1..] + (if l != Null then [l] else []) + (if r != Null then [r] else []);
    var g2 := gq[1..] + Kids(g);
    assert |q2| == |g2|;
    forall i | 0 <= i < |g2| ensures Queued(t, g2[i]) && q2[i] == g2[i].id {
      if i < |q| - 1 {
        assert g2[i] == gq[i + 1] && q2[i] == q[i + 1];
      } else {
        assert g2[i] == Kids(g)[i - (|q| - 1)];
      }
    }
  }

  /** What the traversal reads at the node of a queue entry. */
  lemma {:induction false} QueuedChildren(t: Tree, a: seq<Node>, g: Tree)
    requires Linked(t, Null, a) && Unique(t) && Queued(t, g)
    ensures 0 <= g.id < |a|
    ensures (a[g.id].left != Null <==> g.left != Nil) && (g.left != Nil ==> a[g.id].left == g.left.id && Queued(t, g.left))
    ensures (a[g.id].right != Null <==> g.right != Nil) && (g.right != Nil ==> a[g.id].right == g.right.id && Queued(t, g.right))
  {
    TargetFacts(t, a, g.id);
    NodeFields(t, Null, a, g.id);
    SubChild(t, g.id);
    SubIds(t, g.id);
    if g.left != Nil {
      assert g.left.id in Ids(g);
    }
    if g.right != Nil {
      assert g.right.id in Ids(g);
    }
  }

  /** The nodes of the shapes in a queue, as a multiset. */
  ghost function Bag(q: seq<Tree>): multiset<int>
  {
    if q == [] then multiset{} else multiset(Order(q[0])) + Bag(q[1..])
  }

  lemma {:induction false} BagConcat(p: seq<Tree>, q: seq<Tree>)
    ensures Bag(p + q) == Bag(p) + Bag(q)
  {
    if p == [] {
      assert p + q == q;
    } else {
      assert (p + q)[1..] == p[1..] + q;
      BagConcat(p[1..], q);
    }
  }

  /** The front of a queue: its top is handed out first, then come the
      rest of the queue and the front's children. */
  lemma {:induction false} LevelFront(q: seq<Tree>)
    requires q != [] && q[0].Br?
    ensures Level(q) == [q[0].id] + Level(q[1..] + Kids(q[0]))
  {
  }

  lemma {:induction false} KidsBag(g: Tree)
    requires g.Br?
    ensures Bag(Kids(g)) + multiset{g.id} == multiset(Order(g))
  {
    KidsBagSplit(g);
    OrderBag(g);
  }

  lemma {:induction false} KidsBagSplit(g: Tree)
    requires g.Br?
    ensures Bag(Kids(g)) == multiset(Order(g.left)) + multiset(Order(g.right))
  {
    var l := if g.left != Nil then [g.left] else [];
    var r := if g.right != Nil then [g.right] else [];
    assert Kids(g) == l + r;
    BagConcat(l, r);
    BagOne(l, g.left);
    BagOne(r, g.right);
  }

  lemma {:induction false} OrderBag(g: Tree)
    requires g.Br?
    ensures multiset(Order(g)) == multiset(Order(g.left)) + multiset{g.id} + multiset(Order(g.right))
  {
    assert Order(g) == Order(g.left) + [g.id] + Order(g.right);
  }

  lemma {:induction false} BagOne(l: seq<Tree>, c: Tree)
    requires l == (if c != Nil then [c] else [])
    ensures Bag(l) == multiset(Order(c))
  {
    if c != Nil {
      assert l[1..] == [];
    }
  }

  /** The queue hands out every node of its shapes exactly once. */
  lemma {:induction false} LevelBag(q: seq<Tree>)
    ensures multiset(Level(q)) == Bag(q)
    decreases Weight(q), |q|
  {
    if q != [] {
      WeightConcat(q[1..], Kids(q[0]));
      KidsWeight(q[0]);
      if q[0] == Nil {
        LevelBag(q[1..]);
      } else {
        var g := q[0];
        LevelFront(q);
        LevelBag(q[1..] + Kids(g));
        BagConcat(q[1..], Kids(g));
        KidsBag(g);
      }
    }
  }

  /** The breadth-first order is a permutation of the in-order sequence. */
  lemma {:induction false} LevelOrderPermutes(t: Tree)
    ensures multiset(LevelOrder(t)) == multiset(Order(t))
  {
    LevelBag([t]);
    assert [t][1..] == [];
  }

  /** The breadth-first order starts at the root. */
  lemma {:induction false} LevelOrderStartsAtRoot(t: Tree)
    requires t.Br?
    ensures |LevelOrder(t)| > 0 && LevelOrder(t)[0] == t.id
  {
    assert [t][1..] == [];
  }

  /** The depth of a child is one more than its parent's. */
  lemma {:induction false} ChildDepth(t: Tree, q: int)
    requires Unique(t) && q in Ids(t)
    ensures LeftOf(Sub(t, q)).Br? ==> Depth(t, LeftOf(Sub(t, q)).id) == Depth(t, q) + 1
    ensures RightOf(Sub(t, q)).Br? ==> Depth(t, RightOf(Sub(t, q)).id) == Depth(t, q) + 1
  {
    match t
    case Br(l, y, r) =>
      if y == q {
        if l.Br? {
          assert l.id in Ids(l);
        }
        if r.Br? {
          assert r.id in Ids(r) && r.id !in Ids(l);
        }
      } else if q in Ids(l) {
        ChildDepth(l, q);
        SubIds(l, q);
        SubTop(l, q);
        var sq := Sub(l, q);
        if sq.left.Br? {
          assert sq.left.id in Ids(sq) && sq.left.id != y;
        }
        if sq.right.Br? {
          assert sq.right.id in Ids(sq) && sq.right.id != y;
        }
      } else {
        ChildDepth(r, q);
        SubIds(r, q);
        SubTop(r, q);
        var sq := Sub(r, q);
        if sq.left.Br? {
          assert sq.left.id in Ids(sq) && sq.left.id != y && sq.left.id !in Ids(l);
        }
        if sq.right.Br? {
          assert sq.right.id in Ids(sq) && sq.right.id != y && sq.right.id !in Ids(l);
        }
      }
  }

  /** The depth in `t` of the top of queue entry `i`. */
  ghost function DepthAt(t: Tree, q: seq<Tree>, i: nat): nat
    requires i < |q|
  {
    Depth(t, Root(q[i]))
  }

  /** The queue invariant of a breadth-first traversal: entries are ordered
      by depth and span at most two consecutive depths. */
  ghost predicate Layered(t: Tree, q: seq<Tree>)
  {
    && (forall i :: 0 <= i < |q| ==> Queued(t, q[i]))
    && (forall i, j :: 0 <= i <= j < |q| ==> DepthAt(t, q, i) <= DepthAt(t, q, j))
    && (forall i :: 0 <= i < |q| ==> DepthAt(t, q, i) <= DepthAt(t, q, 0) + 1)
  }

  /** A layered queue hands out nodes by non-decreasing depth, none above
      the front entry's. */
  lemma {:induction false} LevelDepths(t: Tree, q: seq<Tree>)
    requires Unique(t) && Layered(t, q)
    ensures forall i, j :: 0 <= i < j < |Level(q)| ==> Depth(t, Level(q)[i]) <= Depth(t, Level(q)[j])
    ensures q != [] ==> forall i :: 0 <= i < |Level(q)| ==> DepthAt(t, q, 0) <= Depth(t, Level(q)[i])
    decreases Weight(q), |q|
  {
    if q != [] {
      var g := q[0];
      var p := q[1..] + Kids(g);
      WeightConcat(q[1..], Kids(g));
      KidsWeight(g);
      LayeredStep(t, q);
      LevelDepths(t, p);
      assert Level(q) == [g.id] + Level(p);
    }
  }

  /** Handing out the front of a layered queue and queueing its children
      leaves a layered queue, none of it above the old front. */
  lemma {:induction false} LayeredStep(t: Tree, q: seq<Tree>)
    requires Unique(t) && Layered(t, q) && q != []
    ensures Layered(t, q[1..] + Kids(q[0]))
    ensures forall i :: 0 <= i < |q[1..] + Kids(q[0])| ==> DepthAt(t, q, 0) <= DepthAt(t, q[1..] + Kids(q[0]), i)
  {
    var g := q[0];
    var d := DepthAt(t, q, 0);
    var p := q[1..] + Kids(g);
      ChildDepth(t, g.id);
      SubChild(t, g.id);
      SubIds(t, g.id);
      if g.left != Nil {
        assert g.left.id in Ids(g);
      }
      if g.right != Nil {
        assert g.right.id in Ids(g);
      }
      assert forall i :: 0 <= i < |Kids(g)| ==> Queued(t, Kids(g)[i]) && Depth(t, Kids(g)[i].id) == d + 1;
      forall i | 0 <= i < |p| ensures Queued(t, p[i]) && d <= DepthAt(t, p, i) <= d + 1 {
        if i < |q| - 1 {
          assert p[i] == q[i + 1];
          assert DepthAt(t, q, 0) <= DepthAt(t, q, i + 1) <= DepthAt(t, q, 0) + 1;
        } else {
          assert p[i] == Kids(g)[i - (|q| - 1)];
          assert DepthAt(t, p, i) == Depth(t, Kids(g)[i - (|q| - 1)].id);
        }
      }
      assert forall i, j :: 0 <= i <= j < |p| ==> DepthAt(t, p, i) <= DepthAt(t, p, j) by {
        forall i, j | 0 <= i <= j < |p| ensures DepthAt(t, p, i) <= DepthAt(t, p, j) {
          if j < |q| - 1 {
            assert p[i] == q[i + 1] && p[j] == q[j + 1];
            assert DepthAt(t, q, i + 1) <= DepthAt(t, q, j + 1);
          } else if i < |q| - 1 {
            assert p[i] == q[i + 1] && p[j] == Kids(g)[j - (|q| - 1)];
            assert DepthAt(t, q, i + 1) <= d + 1;
          } else {
            assert p[i] == Kids(g)[i - (|q| - 1)] && p[j] == Kids(g)[j - (|q| - 1)];
          }
        }
      }
      if p != [] {
        assert forall i :: 0 <= i < |p| ==> DepthAt(t, p, i) <= DepthAt(t, p, 0) + 1 by {
          if |q| > 1 {
            assert p[0] == q[1];
          }
        }
      }
  }

  /** `breadth_first_traverse_nodes` visits the nodes level by level: no
      node comes before a node nearer the root. */
  lemma {:induction false} LevelOrderByDepth(t: Tree)
    requires Unique(t)
    ensures forall i, j :: 0 <= i < j < |LevelOrder(t)| ==> Depth(t, LevelOrder(t)[i]) <= Depth(t, LevelOrder(t)[j])
  {
    if t.Br? {
      SubTop(t, t.id);
      assert Layered(t, [t]);
      LevelDepths(t, [t]);
    } else {
      assert LevelOrder(t) == Level([]);
    }
  }

  /** Two sequences of nodes with the same elements have keys with the same
      elements. */
  lemma {:induction false} SameElementsKeys(o1: seq<int>, o2: seq<int>, a: seq<Node>)
    requires multiset(o1) == multiset(o2)
    ensures |KeysOf(o1, a)| == |KeysOf(o2, a)|
    ensures forall k :: k in KeysOf(o1, a) <==> k in KeysOf(o2, a)
  {
    assert |o1| == |multiset(o1)| == |o2|;
    forall k | k in KeysOf(o1, a) ensures k in KeysOf(o2, a) {
      var i :| 0 <= i < |o1| && KeysOf(o1, a)[i] == k;
      assert o1[i] in multiset(o2);
      var j :| 0 <= j < |o2| && o2[j] == o1[i];
      assert KeysOf(o2, a)[j] == k;
    }
    forall k | k in KeysOf(o2, a) ensures k in KeysOf(o1, a) {
      var j :| 0 <= j < |o2| && KeysOf(o2, a)[j] == k;
      assert o2[j] in multiset(o1);
      var i :| 0 <= i < |o1| && o1[i] == o2[j];
      assert KeysOf(o1, a)[i] == k;
    }
  }

  // ---------------------------------------------------------------------
  // The shape of the keys.

  /** A tree of keys: a shape with each node replaced by its key. */
  datatype KeyShape = KNil | KBr(left: KeyShape, key: int, right: KeyShape)

  /** The keys of arena `a` in the shape `t`. */
  ghost function KeyTree(t: Tree, a: seq<Node>): KeyShape
  {
    match t
    case Nil => KNil
    case Br(l, x, r) => KBr(KeyTree(l, a), KeyOf(a, x), KeyTree(r, a))
  }

  /** `node::add` on a tree of keys: a new leaf left of a larger key, right
      of a smaller one, and nothing for a key already there. */
  function KInsert(kt: KeyShape, k: int): KeyShape
  {
    match kt
    case KNil => KBr(KNil, k, KNil)
    case KBr(l, x, r) =>
      if k < x then KBr(KInsert(l, k), x, r)
      else if x < k then KBr(l, x, KInsert(r, k))
      else kt
  }

  /** The plain tree that `add`ing the keys `xs` in turn builds. */
  function KBuild(xs: seq<int>): KeyShape
  {
    if xs == [] then KNil else KInsert(KBuild(xs[..|xs| - 1]), xs[|xs| - 1])
  }

  /** One key more: the prefix grows by it and so does the tree built. */
  lemma {:induction false} KBuildStep(xs: seq<int>, i: nat)
    requires i < |xs|
    ensures xs[..i + 1] == xs[..i] + [xs[i]]
    ensures KBuild(xs[..i + 1]) == KInsert(KBuild(xs[..i]), xs[i])
  {
    assert xs[..i + 1][..i] == xs[..i];
  }

  /** Hanging a leaf, seen on the keys, is `KInsert`. */
  lemma {:induction false} InsertLeafKeyTree(t: Tree, a: seq<Node>, v: int)
    ensures KeyTree(InsertLeaf(t, a, v), a) == KInsert(KeyTree(t, a), KeyOf(a, v))
  {
    match t
    case Nil =>
    case Br(l, x, r) =>
      if KeyOf(a, v) < KeyOf(a, x) {
        InsertLeafKeyTree(l, a, v);
      } else if KeyOf(a, x) < KeyOf(a, v) {
        InsertLeafKeyTree(r, a, v);
      }
  }

  /** `KeyTree` reads only the keys of the shape's own nodes. */
  lemma {:induction false} KeyTreeFrame(t: Tree, a: seq<Node>, b: seq<Node>)
    requires forall x :: x in Ids(t) ==> KeyOf(b, x) == KeyOf(a, x)
    ensures KeyTree(t, b) == KeyTree(t, a)
  {
    match t
    case Nil =>
    case Br(l, x, r) =>
      KeyTreeFrame(l, a, b);
      KeyTreeFrame(r, a, b);
  }

  /** What `add` does to the keys of a plain tree. */
  lemma {:induction false} NullAdded(t: Tree, a: seq<Node>, k: int, b: seq<Node>)
    requires InArena(t, |a|) && SamePayload(Hung(a, k), b)
    ensures KeyTree(InsertLeaf(t, Hung(a, k), |a|), b) == KInsert(KeyTree(t, a), k)
  {
    var h := Hung(a, k);
    var u := InsertLeaf(t, h, |a|);
    forall x | x in Ids(u) ensures KeyOf(b, x) == KeyOf(h, x) {
    }
    KeyTreeFrame(u, h, b);
    InsertLeafKeyTree(t, h, |a|);
    forall x | x in Ids(t) ensures KeyOf(h, x) == KeyOf(a, x) {
    }
    KeyTreeFrame(t, a, h);
  }

  /** The keys of the nodes of `t` that are in `s`, cut below the first
      node that is not. */
  ghost function TopOf(t: Tree, s: set<int>, a: seq<Node>): KeyShape
  {
    match t
    case Nil => KNil
    case Br(l, x, r) => if x in s then KBr(TopOf(l, s, a), KeyOf(a, x), TopOf(r, s, a)) else KNil
  }

  /** The elements of a sequence of nodes. */
  ghost function Elems(o: seq<int>): set<int>
  {
    set y | y in o
  }

  /** Every node of `t` in `s` other than the top has its parent in `s`. */
  ghost predicate Closed(t: Tree, s: set<int>)
  {
    forall y :: y in Ids(t) && y in s && y != Root(t) ==> Parent(t, y) in s
  }

  lemma {:induction false} TopOfAll(t: Tree, s: set<int>, a: seq<Node>)
    requires Ids(t) <= s
    ensures TopOf(t, s, a) == KeyTree(t, a)
  {
    match t
    case Nil =>
    case Br(l, x, r) =>
      TopOfAll(l, s, a);
      TopOfAll(r, s, a);
  }

  lemma {:induction false} TopOfFrame(t: Tree, s: set<int>, s2: set<int>, a: seq<Node>)
    requires forall y :: y in Ids(t) ==> (y in s <==> y in s2)
    ensures TopOf(t, s, a) == TopOf(t, s2, a)
  {
    match t
    case Nil =>
    case Br(l, x, r) =>
      TopOfFrame(l, s, s2, a);
      TopOfFrame(r, s, s2, a);
  }

  /** A closed set that holds a node of `t` holds its top. */
  lemma {:induction false} ClosedRoot(t: Tree, s: set<int>, y: int)
    requires Unique(t) && Closed(t, s) && y in Ids(t) && y in s
    ensures Root(t) in s
    decreases Depth(t, y)
  {
    if y != Root(t) {
      ParentIn(t, y);
      ClosedRoot(t, s, Parent(t, y));
    }
  }

  lemma {:induction false} ClosedBelow(l: Tree, x: int, r: Tree, s: set<int>)
    requires Unique(Br(l, x, r)) && Closed(Br(l, x, r), s)
    ensures Closed(l, s) && Closed(r, s)
  {
    var t := Br(l, x, r);
    forall y | y in Ids(l) && y in s && y != Root(l) ensures Parent(l, y) in s {
      assert Parent(t, y) == Parent(l, y);
    }
    forall y | y in Ids(r) && y in s && y != Root(r) ensures Parent(r, y) in s {
      assert y !in Ids(l) && Parent(t, y) == Parent(r, y);
    }
  }

  /** The key of a node is among the keys of the shape. */
  lemma {:induction false} KeyAmongKeys(t: Tree, a: seq<Node>, v: int)
    requires v in Ids(t)
    ensures KeyOf(a, v) in Keys(t, a)
  {
    OrderIds(t);
    var i :| 0 <= i < |Order(t)| && Order(t)[i] == v;
    assert Keys(t, a)[i] == KeyOf(a, v);
  }

  /** Adding the key of a node whose parent is already in the closed set
      `s` grows the part of the tree on `s` by that node. */
  lemma {:induction false} TopStep(t: Tree, s: set<int>, v: int, a: seq<Node>)
    requires Unique(t) && Ordered(t, a) && Closed(t, s)
    requires v in Ids(t) && v !in s && (v == Root(t) || Parent(t, v) in s)
    ensures KInsert(TopOf(t, s, a), KeyOf(a, v)) == TopOf(t, s + {v}, a)
  {
    match t
    case Br(l, x, r) =>
      OrderedBr(l, x, r, a);
      ClosedBelow(l, x, r, s);
      if v == x {
        assert l.Br? ==> l.id in Ids(l) && Parent(t, l.id) == x;
        assert r.Br? ==> r.id in Ids(r) && r.id !in Ids(l) && Parent(t, r.id) == x;
      } else if v in Ids(l) {
        if v != Root(l) {
          ParentIn(l, v);
          ClosedRoot(l, s, Parent(l, v));
        }
        assert l.id in Ids(l) && Parent(t, l.id) == x;
        KeyAmongKeys(l, a, v);
        TopStep(l, s, v, a);
        TopOfFrame(r, s, s + {v}, a);
      } else {
        if v != Root(r) {
          ParentIn(r, v);
          ClosedRoot(r, s, Parent(r, v));
        }
        assert r.id in Ids(r) && r.id !in Ids(l) && Parent(t, r.id) == x;
        KeyAmongKeys(r, a, v);
        TopStep(r, s, v, a);
        TopOfFrame(l, s, s + {v}, a);
      }
  }

  /** The same elements as a sequence without repeats have no repeats. */
  lemma {:induction false} DistinctPermutes(o: seq<int>, p: seq<int>)
    requires Distinct(o) && multiset(o) == multiset(p)
    ensures Distinct(p)
  {
    forall i, j | 0 <= i < j < |p| ensures p[i] != p[j] {
      if p[i] == p[j] {
        assert p == p[..j] + [p[j]] + p[j + 1..];
        assert p[i] in multiset(p[..j]);
        assert multiset(p)[p[i]] >= 2;
        Multiplicity(o, p[i]);
      }
    }
  }

  /** A sequence without repeats holds each element once. */
  lemma {:induction false} Multiplicity(o: seq<int>, m: int)
    requires Distinct(o)
    ensures multiset(o)[m] <= 1
  {
    if o != [] {
      assert o == [o[0]] + o[1..];
      assert Distinct(o[1..]) && o[0] !in o[1..];
      Multiplicity(o[1..], m);
    }
  }

  /** The breadth-first order lists the nodes of the shape. */
  lemma {:induction false} LevelOrderIds(t: Tree)
    ensures forall y :: y in LevelOrder(t) <==> y in Ids(t)
    ensures Ids(t) == Elems(LevelOrder(t))
  {
    var o := LevelOrder(t);
    LevelOrderPermutes(t);
    OrderIds(t);
    forall y ensures y in o <==> y in Ids(t) {
      assert y in o <==> y in multiset(o);
      assert y in Order(t) <==> y in multiset(Order(t));
    }
  }

  /** The breadth-first order lists every node of the shape once, each
      after its parent. */
  lemma {:induction false} LevelOrderFacts(t: Tree)
    requires Unique(t)
    ensures forall y :: y in LevelOrder(t) <==> y in Ids(t)
    ensures Distinct(LevelOrder(t))
    ensures forall i :: 0 <= i < |LevelOrder(t)| && LevelOrder(t)[i] != Root(t) ==>
      Parent(t, LevelOrder(t)[i]) in LevelOrder(t)[..i]
  {
    var o := LevelOrder(t);
    LevelOrderIds(t);
    LevelOrderPermutes(t);
    UniqueDistinct(t);
    DistinctPermutes(Order(t), o);
    LevelOrderByDepth(t);
    forall i | 0 <= i < |o| && o[i] != Root(t) ensures Parent(t, o[i]) in o[..i] {
      var v := o[i];
      ParentIn(t, v);
      var j :| 0 <= j < |o| && o[j] == Parent(t, v);
      assert j < i;
      assert o[..i][j] == Parent(t, v);
    }
  }

  lemma {:induction false} BuildPrefix(t: Tree, a: seq<Node>, i: nat)
    requires Unique(t) && Ordered(t, a) && i <= |LevelOrder(t)|
    ensures KBuild(KeysOf(LevelOrder(t)[..i], a)) == TopOf(t, Elems(LevelOrder(t)[..i]), a)
  {
    if i == 0 {
      assert Elems(LevelOrder(t)[..0]) == {};
    } else {
      BuildPrefix(t, a, i - 1);
      LevelOrderFacts(t);
      PrefixStep(t, a, LevelOrder(t), i);
    }
  }

  /** In an order that lists each node after its parent, the nodes of a
      prefix form a closed set. */
  lemma {:induction false} PrefixClosed(t: Tree, o: seq<int>, i: nat)
    requires i <= |o|
    requires forall j :: 0 <= j < |o| && o[j] != Root(t) ==> Parent(t, o[j]) in o[..j]
    ensures Closed(t, Elems(o[..i]))
  {
    var s := Elems(o[..i]);
    forall y | y in Ids(t) && y in s && y != Root(t) ensures Parent(t, y) in s {
      var j :| 0 <= j < i && o[j] == y;
      var k :| 0 <= k < j && o[..j][k] == Parent(t, y);
      assert o[..i][k] == Parent(t, y);
    }
  }

  /** One more key of the breadth-first order grows the rebuilt tree by its
      node. */
  lemma {:induction false} PrefixStep(t: Tree, a: seq<Node>, o: seq<int>, i: nat)
    requires Unique(t) && Ordered(t, a) && 0 < i <= |o|
    requires Distinct(o) && forall y :: y in o ==> y in Ids(t)
    requires forall j :: 0 <= j < |o| && o[j] != Root(t) ==> Parent(t, o[j]) in o[..j]
    requires KBuild(KeysOf(o[..i - 1], a)) == TopOf(t, Elems(o[..i - 1]), a)
    ensures KBuild(KeysOf(o[..i], a)) == TopOf(t, Elems(o[..i]), a)
  {
    var v, p := o[i - 1], o[..i - 1];
    KBuildStep(o, i - 1);
    Snoc(p, v, a);
    PrefixClosed(t, o, i - 1);
    assert v !in Elems(p) by {
      forall j | 0 <= j < i - 1 ensures p[j] != v {
        assert p[j] == o[j];
      }
    }
    assert v != Root(t) ==> Parent(t, v) in Elems(p);
    assert v in Ids(t);
    TopStep(t, Elems(p), v, a);
  }

  /** One node more at the end of a sequence of nodes. */
  lemma {:induction false} Snoc(p: seq<int>, v: int, a: seq<Node>)
    ensures KBuild(KeysOf(p + [v], a)) == KInsert(KBuild(KeysOf(p, a)), KeyOf(a, v))
    ensures Elems(p + [v]) == Elems(p) + {v}
  {
    var ks := KeysOf(p + [v], a);
    assert ks[..|p|] == KeysOf(p, a);
  }

  /** `add`ing the keys of a binary search tree in breadth-first order to
      an empty plain tree builds a tree of the same keys in the same shape. */
  lemma {:induction false} LevelOrderRebuilds(t: Tree, a: seq<Node>)
    requires Unique(t) && Ordered(t, a)
    ensures KBuild(KeysOf(LevelOrder(t), a)) == KeyTree(t, a)
  {
    var o := LevelOrder(t);
    BuildPrefix(t, a, |o|);
    assert o[..|o|] == o;
    LevelOrderIds(t);
    TopOfAll(t, Elems(o), a);
  }

  /** The children the traversal queues for two nodes of equal key trees
      have equal key trees. */
  lemma {:induction false} KidsKeyTrees(g1: Tree, a1: seq<Node>, g2: Tree, a2: seq<Node>)
    requires KeyTree(g1, a1) == KeyTree(g2, a2)
    ensures |Kids(g1)| == |Kids(g2)| && forall i :: 0 <= i < |Kids(g1)| ==> KeyTree(Kids(g1)[i], a1) == KeyTree(Kids(g2)[i], a2)
  {
    if g1.Br? {
      assert KeyTree(g1.left, a1) == KeyTree(g2.left, a2) && KeyTree(g1.right, a1) == KeyTree(g2.right, a2);
      assert g1.left == Nil <==> g2.left == Nil;
      assert g1.right == Nil <==> g2.right == Nil;
    }
  }

  /** The queues after one step from two queues of equal key trees are
      again pointwise equal. */
  lemma {:induction false} NextQueues(q1: seq<Tree>, a1: seq<Node>, q2: seq<Tree>, a2: seq<Node>)
    requires |q1| == |q2| > 0 && forall i :: 0 <= i < |q1| ==> KeyTree(q1[i], a1) == KeyTree(q2[i], a2)
    ensures var n1, n2 := q1[1..] + Kids(q1[0]), q2[1..] + Kids(q2[0]);
      |n1| == |n2| && forall i :: 0 <= i < |n1| ==> KeyTree(n1[i], a1) == KeyTree(n2[i], a2)
  {
    var n1, n2 := q1[1..] + Kids(q1[0]), q2[1..] + Kids(q2[0]);
    assert KeyTree(q1[0], a1) == KeyTree(q2[0], a2);
    KidsKeyTrees(q1[0], a1, q2[0], a2);
    forall i | 0 <= i < |n1| ensures KeyTree(n1[i], a1) == KeyTree(n2[i], a2) {
      if i < |q1| - 1 {
        assert n1[i] == q1[i + 1] && n2[i] == q2[i + 1];
      } else {
        assert n1[i] == Kids(q1[0])[i - (|q1| - 1)] && n2[i] == Kids(q2[0])[i - (|q1| - 1)];
      }
    }
  }

  /** The keys of a node followed by more nodes. */
  lemma KeysOfCons(x: int, l: seq<int>, a: seq<Node>)
    ensures KeysOf([x] + l, a) == [KeyOf(a, x)] + KeysOf(l, a)
  {
  }

  /** The breadth-first keys are determined by the tree of keys. */
  lemma {:induction false} LevelKeys(q1: seq<Tree>, a1: seq<Node>, q2: seq<Tree>, a2: seq<Node>)
    requires |q1| == |q2| && forall i :: 0 <= i < |q1| ==> KeyTree(q1[i], a1) == KeyTree(q2[i], a2)
    ensures KeysOf(Level(q1), a1) == KeysOf(Level(q2), a2)
    decreases Weight(q1), |q1|
  {
    if q1 != [] {
      WeightConcat(q1[1..], Kids(q1[0]));
      KidsWeight(q1[0]);
      assert KeyTree(q1[0], a1) == KeyTree(q2[0], a2);
      NextQueues(q1, a1, q2, a2);
      var n1, n2 := q1[1..] + Kids(q1[0]), q2[1..] + Kids(q2[0]);
      if q1[0] == Nil {
        LevelKeys(q1[1..], a1, q2[1..], a2);
      } else {
        LevelKeys(n1, a1, n2, a2);
        KeysOfCons(q1[0].id, Level(n1), a1);
        KeysOfCons(q2[0].id, Level(n2), a2);
      }
    }
  }

  /** Equal trees of keys agree on whether the top has a right subtree. */
  lemma {:induction false} SameKeyTreeSteppable(t1: Tree, a1: seq<Node>, t2: Tree, a2: seq<Node>)
    requires KeyTree(t1, a1) == KeyTree(t2, a2)
    ensures (t1.Nil? || t1.right.Br?) <==> (t2.Nil? || t2.right.Br?)
  {
    if t1.Br? && t2.Br? {
      assert KeyTree(t1.right, a1) == KeyTree(t2.right, a2);
    }
  }

  /** Equal trees of keys have the same breadth-first keys. */
  lemma {:induction false} SameKeyTreeLevels(t1: Tree, a1: seq<Node>, t2: Tree, a2: seq<Node>)
    requires KeyTree(t1, a1) == KeyTree(t2, a2)
    ensures KeysOf(LevelOrder(t1), a1) == KeysOf(LevelOrder(t2), a2)
  {
    LevelKeys([t1], a1, [t2], a2);
  }
}
