// The node store shared by the binary search tree and the red-black tree
// (binary_tree/tree_utils.hpp, `binary_tree_node`), and the ghost shape that
// says which nodes of the store form a tree.
//
// A `binary_tree_node` owns its children through `std::unique_ptr` and points
// back at its parent through a raw pointer. Here all nodes live in one
// sequence, the arena, and a pointer is an index into it, `Null` (-1) being
// `nullptr`. A tree is described by a `Tree` value, its shape, whose
// branches name arena indices; `Linked` says that the arena's `left`,
// `right` and `parent` fields are exactly the ones the shape dictates.
module TreeShape {

  const Null: int := -1

  /** `impl::Colour` of the red-black node metadata. The plain binary tree
      carries no metadata; its nodes' colours are never read. */
  datatype Colour = Red | Black

  /** One `binary_tree_node`: key `t`, the `left` and `right` children, the
      `parent` and the colour metadata. */
  datatype Node = Node(key: int, left: int, right: int, parent: int, colour: Colour)

  /** The shape of a (sub)tree: which node sits where. */
  datatype Tree = Nil | Br(left: Tree, id: int, right: Tree)

  /** The children of a shape (`Nil` for `Nil`). */
  function LeftOf(t: Tree): Tree
  {
    if t.Nil? then Nil else t.left
  }

  function RightOf(t: Tree): Tree
  {
    if t.Nil? then Nil else t.right
  }

  /** The pointer to the top of a shape. */
  function Root(t: Tree): int
  {
    if t.Nil? then Null else t.id
  }

  ghost function Ids(t: Tree): set<int>
  {
    match t
    case Nil => {}
    case Br(l, x, r) => Ids(l) + {x} + Ids(r)
  }

  /** No node appears twice in the shape. */
  ghost predicate Unique(t: Tree)
  {
    match t
    case Nil => true
    case Br(l, x, r) => Unique(l) && Unique(r) && x !in Ids(l) && x !in Ids(r) && Ids(l) !! Ids(r)
  }

  /** The arena holds the shape `t`, whose top node's parent is `p`. */
  ghost predicate Linked(t: Tree, p: int, a: seq<Node>)
  {
    match t
    case Nil => true
    case Br(l, x, r) =>
      && 0 <= x < |a|
      && a[x].left == Root(l) && a[x].right == Root(r) && a[x].parent == p
      && Linked(l, x, a) && Linked(r, x, a)
  }

  /** The nodes in in-order (the order of `inorder_traverse`). */
  ghost function Order(t: Tree): seq<int>
  {
    match t
    case Nil => []
    case Br(l, x, r) => Order(l) + [x] + Order(r)
  }

  ghost function KeyOf(a: seq<Node>, x: int): int
  {
    if 0 <= x < |a| then a[x].key else 0
  }

  /** `is_black`: a missing node counts as Black. */
  ghost function ColourOf(a: seq<Node>, x: int): Colour
  {
    if 0 <= x < |a| then a[x].colour else Black
  }

  ghost function KeysOf(s: seq<int>, a: seq<Node>): (r: seq<int>)
    ensures |r| == |s|
    ensures forall i :: 0 <= i < |s| ==> r[i] == KeyOf(a, s[i])
  {
    seq(|s|, i requires 0 <= i < |s| => KeyOf(a, s[i]))
  }

  /** The keys in in-order. */
  ghost function Keys(t: Tree, a: seq<Node>): seq<int>
  {
    KeysOf(Order(t), a)
  }

  ghost predicate Increasing(s: seq<int>)
  {
    forall i, j :: 0 <= i < j < |s| ==> s[i] < s[j]
  }

  /** Binary-search-tree order: the in-order keys strictly increase (`add`
      rejects a key equal to one already present). */
  ghost predicate Ordered(t: Tree, a: seq<Node>)
  {
    Increasing(Keys(t, a))
  }

  ghost predicate Distinct(s: seq<int>)
  {
    forall i, j :: 0 <= i < j < |s| ==> s[i] != s[j]
  }

  // ---------------------------------------------------------------------
  // Positions inside a shape.

  /** The subtree whose top is `x` (`Nil` when `x` is not in `t`). */
  ghost function Sub(t: Tree, x: int): Tree
  {
    match t
    case Nil => Nil
    case Br(l, y, r) => if y == x then t else if x in Ids(l) then Sub(l, x) else Sub(r, x)
  }

  /** `t` with the subtree topped by `x` replaced with `s`. */
  ghost function Replace(t: Tree, x: int, s: Tree): Tree
  {
    match t
    case Nil => Nil
    case Br(l, y, r) =>
      if y == x then s
      else if x in Ids(l) then Br(Replace(l, x, s), y, r)
      else if x in Ids(r) then Br(l, y, Replace(r, x, s))
      else t
  }

  /** The nodes that come before / after the subtree of `x` in in-order. */
  ghost function Pre(t: Tree, x: int): seq<int>
  {
    match t
    case Nil => []
    case Br(l, y, r) =>
      if y == x then [] else if x in Ids(l) then Pre(l, x) else Order(l) + [y] + Pre(r, x)
  }

  ghost function Post(t: Tree, x: int): seq<int>
  {
    match t
    case Nil => []
    case Br(l, y, r) =>
      if y == x then [] else if x in Ids(l) then Post(l, x) + [y] + Order(r) else Post(r, x)
  }

  /** The node whose child `x` is (`Null` for the top). */
  ghost function Parent(t: Tree, x: int): int
  {
    match t
    case Nil => Null
    case Br(l, y, r) =>
      if y == x then Null
      else if x in Ids(l) then (if Root(l) == x then y else Parent(l, x))
      else if Root(r) == x then y else Parent(r, x)
  }

  /** The number of edges from the top of `t` down to `x`. */
  ghost function Depth(t: Tree, x: int): nat
  {
    match t
    case Nil => 0
    case Br(l, y, r) =>
      if y == x then 0 else if x in Ids(l) then 1 + Depth(l, x) else 1 + Depth(r, x)
  }

  // ---------------------------------------------------------------------
  // Basic facts.

  lemma {:induction false} OrderIds(t: Tree)
    ensures forall x :: x in Order(t) <==> x in Ids(t)
  {
    match t
    case Nil =>
    case Br(l, x, r) =>
      OrderIds(l);
      OrderIds(r);
  }

  lemma {:induction false} UniqueDistinct(t: Tree)
    requires Unique(t)
    ensures Distinct(Order(t))
  {
    match t
    case Nil =>
    case Br(l, x, r) =>
      UniqueDistinct(l);
      UniqueDistinct(r);
      OrderIds(l);
      OrderIds(r);
      var o := Order(t);
      var n := |Order(l)|;
      forall i, j | 0 <= i < j < |o| ensures o[i] != o[j] {
        if j < n {
          assert o[i] == Order(l)[i] && o[j] == Order(l)[j];
        } else if j == n {
          assert o[i] == Order(l)[i] && o[i] in Ids(l);
        } else if i > n {
          assert o[i] == Order(r)[i - n - 1] && o[j] == Order(r)[j - n - 1];
        } else if i == n {
          assert o[j] == Order(r)[j - n - 1] && o[j] in Ids(r);
        } else {
          assert o[i] in Ids(l) && o[j] == Order(r)[j - n - 1] && o[j] in Ids(r);
        }
      }
  }

  lemma {:induction false} LinkedInArena(t: Tree, p: int, a: seq<Node>)
    requires Linked(t, p, a)
    ensures forall x :: x in Ids(t) ==> 0 <= x < |a|
  {
    match t
    case Nil =>
    case Br(l, x, r) =>
      LinkedInArena(l, x, a);
      LinkedInArena(r, x, a);
  }

  /** The top node's fields, and which children are empty. */
  lemma {:induction false} TopFields(t: Tree, p: int, a: seq<Node>)
    requires Linked(t, p, a) && t.Br?
    ensures 0 <= t.id < |a| && a[t.id].left == Root(t.left) && a[t.id].right == Root(t.right) && a[t.id].parent == p
    ensures Linked(t.left, t.id, a) && Linked(t.right, t.id, a)
    ensures (t.left == Nil <==> a[t.id].left == Null) && (t.right == Nil <==> a[t.id].right == Null)
    ensures t.left.Br? ==> 0 <= t.left.id < |a|
    ensures t.right.Br? ==> 0 <= t.right.id < |a|
  {
  }

  /** `Linked` reads only the link fields of the shape's own nodes. */
  lemma {:induction false} LinkedFrame(t: Tree, p: int, a: seq<Node>, b: seq<Node>)
    requires Linked(t, p, a) && forall y :: y in Ids(t) ==> SameLinksAt(a, b, y)
    ensures Linked(t, p, b)
  {
    match t
    case Nil =>
    case Br(l, x, r) =>
      assert x in Ids(t) && SameLinksAt(a, b, x);
      LinkedFrame(l, x, a, b);
      LinkedFrame(r, x, a, b);
  }

  /** `Keys` reads only the keys of the shape's own nodes. */
  lemma {:induction false} KeysFrame(t: Tree, a: seq<Node>, b: seq<Node>)
    requires forall x :: x in Ids(t) ==> KeyOf(b, x) == KeyOf(a, x)
    ensures Keys(t, b) == Keys(t, a)
  {
    OrderIds(t);
  }

  lemma {:induction false} KeysOfConcat(s: seq<int>, u: seq<int>, a: seq<Node>)
    ensures KeysOf(s + u, a) == KeysOf(s, a) + KeysOf(u, a)
  {
  }

  lemma {:induction false} KeysBr(l: Tree, x: int, r: Tree, a: seq<Node>)
    ensures Keys(Br(l, x, r), a) == Keys(l, a) + [KeyOf(a, x)] + Keys(r, a)
  {
    KeysOfConcat(Order(l) + [x], Order(r), a);
    KeysOfConcat(Order(l), [x], a);
  }

  lemma {:induction false} IncreasingConcat(s: seq<int>, k: int, u: seq<int>)
    ensures Increasing(s + [k] + u) <==>
      Increasing(s) && Increasing(u)
      && (forall i :: 0 <= i < |s| ==> s[i] < k) && (forall j :: 0 <= j < |u| ==> k < u[j])
  {
    var w := s + [k] + u;
    if Increasing(s) && Increasing(u) && (forall i :: 0 <= i < |s| ==> s[i] < k) && (forall j :: 0 <= j < |u| ==> k < u[j]) {
      forall i, j | 0 <= i < j < |w| ensures w[i] < w[j] {
        if j < |s| {
          assert w[i] == s[i] && w[j] == s[j];
        } else if i > |s| {
          assert w[i] == u[i - |s| - 1] && w[j] == u[j - |s| - 1];
        } else if i < |s| && j > |s| {
          assert w[i] == s[i] && w[j] == u[j - |s| - 1];
        }
      }
    }
    if Increasing(w) {
      forall i | 0 <= i < |s| ensures s[i] < k { assert w[i] == s[i] && w[|s|] == k; }
      forall j | 0 <= j < |u| ensures k < u[j] { assert w[|s| + 1 + j] == u[j] && w[|s|] == k; }
      forall i, j | 0 <= i < j < |s| ensures s[i] < s[j] { assert w[i] == s[i] && w[j] == s[j]; }
      forall i, j | 0 <= i < j < |u| ensures u[i] < u[j] { assert w[|s| + 1 + i] == u[i] && w[|s| + 1 + j] == u[j]; }
    }
  }

  /** Search-tree order taken apart at the top node. */
  lemma {:induction false} OrderedBr(l: Tree, x: int, r: Tree, a: seq<Node>)
    ensures Ordered(Br(l, x, r), a) <==>
      Ordered(l, a) && Ordered(r, a)
      && (forall k :: k in Keys(l, a) ==> k < KeyOf(a, x))
      && (forall k :: k in Keys(r, a) ==> KeyOf(a, x) < k)
  {
    var kl, k, kr := Keys(l, a), KeyOf(a, x), Keys(r, a);
    KeysBr(l, x, r, a);
    IncreasingConcat(kl, k, kr);
    if forall m :: m in kl ==> m < k {
      forall i | 0 <= i < |kl| ensures kl[i] < k { assert kl[i] in kl; }
    }
    if forall m :: m in kr ==> k < m {
      forall j | 0 <= j < |kr| ensures k < kr[j] { assert kr[j] in kr; }
    }
  }

  // ---------------------------------------------------------------------
  // Subtrees, their neighbours in in-order, and replacing them.

  lemma {:induction false} SubFacts(t: Tree, x: int)
    requires x in Ids(t) && Unique(t)
    ensures Sub(t, x).Br? && Sub(t, x).id == x
    ensures Ids(Sub(t, x)) <= Ids(t) && Unique(Sub(t, x))
    ensures Order(t) == Pre(t, x) + Order(Sub(t, x)) + Post(t, x)
  {
    SubTop(t, x);
    SubIds(t, x);
    SubOrder(t, x);
  }

  lemma {:induction false} SubTop(t: Tree, x: int)
    requires x in Ids(t)
    ensures Sub(t, x).Br? && Sub(t, x).id == x
  {
    match t
    case Br(l, y, r) =>
      if y != x {
        if x in Ids(l) {
          SubTop(l, x);
        } else {
          SubTop(r, x);
        }
      }
  }

  lemma {:induction false} SubIds(t: Tree, x: int)
    requires Unique(t)
    ensures Ids(Sub(t, x)) <= Ids(t) && Unique(Sub(t, x))
  {
    match t
    case Nil =>
    case Br(l, y, r) =>
      if y != x {
        if x in Ids(l) {
          SubIds(l, x);
        } else {
          SubIds(r, x);
        }
      }
  }

  lemma {:induction false} SubOrder(t: Tree, x: int)
    requires x in Ids(t)
    ensures Order(t) == Pre(t, x) + Order(Sub(t, x)) + Post(t, x)
  {
    match t
    case Br(l, y, r) =>
      if y != x {
        if x in Ids(l) {
          SubOrder(l, x);
        } else {
          SubOrder(r, x);
        }
      }
  }

  lemma {:induction false} SubLinked(t: Tree, p: int, a: seq<Node>, x: int)
    requires Linked(t, p, a) && x in Ids(t)
    ensures Linked(Sub(t, x), if x == Root(t) then p else Parent(t, x), a)
  {
    match t
    case Br(l, y, r) =>
      if y != x {
        if x in Ids(l) {
          SubLinked(l, y, a, x);
        } else {
          SubLinked(r, y, a, x);
        }
      }
  }

  /** Replacing a subtree changes only that stretch of the in-order, and the
      node set only by the nodes swapped in and out. */
  lemma {:induction false} ReplaceOrder(t: Tree, x: int, s: Tree)
    requires x in Ids(t) && Unique(t)
    ensures Order(Replace(t, x, s)) == Pre(t, x) + Order(s) + Post(t, x)
    ensures Ids(Replace(t, x, s)) == (Ids(t) - Ids(Sub(t, x))) + Ids(s)
    ensures Root(Replace(t, x, s)) == if x == Root(t) then Root(s) else Root(t)
  {
    ReplaceSeq(t, x, s);
    ReplaceIds(t, x, s);
  }

  lemma {:induction false} ReplaceSeq(t: Tree, x: int, s: Tree)
    requires x in Ids(t)
    ensures Order(Replace(t, x, s)) == Pre(t, x) + Order(s) + Post(t, x)
    ensures Root(Replace(t, x, s)) == if x == Root(t) then Root(s) else Root(t)
  {
    match t
    case Br(l, y, r) =>
      if y != x {
        if x in Ids(l) {
          ReplaceSeq(l, x, s);
          assert Order(Replace(t, x, s)) == Order(Replace(l, x, s)) + [y] + Order(r);
          Regroup(Pre(l, x), Order(s), Post(l, x), [y], Order(r));
        } else {
          assert x in Ids(r);
          ReplaceSeq(r, x, s);
          assert Order(Replace(t, x, s)) == Order(l) + [y] + Order(Replace(r, x, s));
          Regroup(Order(l), [y], Pre(r, x), Order(s), Post(r, x));
        }
      }
  }

  lemma Regroup(a: seq<int>, b: seq<int>, c: seq<int>, d: seq<int>, e: seq<int>)
    ensures (a + b + c) + d + e == a + b + (c + d + e)
  {
  }

  lemma {:induction false} ReplaceIds(t: Tree, x: int, s: Tree)
    requires x in Ids(t) && Unique(t)
    ensures Ids(Replace(t, x, s)) == (Ids(t) - Ids(Sub(t, x))) + Ids(s)
  {
    match t
    case Br(l, y, r) =>
      if y != x {
        if x in Ids(l) {
          ReplaceIds(l, x, s);
          SubIds(l, x);
          assert Ids(Br(Replace(l, x, s), y, r)) == Ids(Replace(l, x, s)) + {y} + Ids(r);
        } else {
          ReplaceIds(r, x, s);
          SubIds(r, x);
          assert Ids(Br(l, y, Replace(r, x, s))) == Ids(l) + {y} + Ids(Replace(r, x, s));
        }
      }
  }

  lemma {:induction false} ReplaceUnique(t: Tree, x: int, s: Tree)
    requires x in Ids(t) && Unique(t) && Unique(s)
    requires Ids(s) !! (Ids(t) - Ids(Sub(t, x)))
    ensures Unique(Replace(t, x, s))
  {
    match t
    case Br(l, y, r) =>
      if y != x {
        if x in Ids(l) {
          SubFacts(l, x);
          ReplaceUnique(l, x, s);
          ReplaceOrder(l, x, s);
        } else {
          SubFacts(r, x);
          ReplaceUnique(r, x, s);
          ReplaceOrder(r, x, s);
        }
      }
  }

  /** Node `y` has the same left, right and parent fields in `a` and `b`. */
  ghost predicate SameLinksAt(a: seq<Node>, b: seq<Node>, y: int)
  {
    0 <= y < |a| && 0 <= y < |b|
    && b[y].left == a[y].left && b[y].right == a[y].right && b[y].parent == a[y].parent
  }

  /** The arena `b` holds `s` where `a` held the subtree of `x`: `s` hangs
      from `x`'s parent `q`, the slot of `q` that held `x` now holds `s`'s
      top, and no other node outside the subtree has different links. Then
      `b` holds the tree with the subtree replaced. */
  lemma {:induction false} ReplaceLinked(t: Tree, p: int, a: seq<Node>, x: int, s: Tree, b: seq<Node>)
    requires Linked(t, p, a) && Unique(t) && x in Ids(t)
    requires var q := if x == Root(t) then p else Parent(t, x);
      Linked(s, q, b) && |a| <= |b|
      && (forall y :: 0 <= y < |a| && y != q && y !in Ids(Sub(t, x)) ==> SameLinksAt(a, b, y))
      && (q in Ids(t) ==>
            0 <= q < |a| && b[q].parent == a[q].parent
            && b[q].left == (if a[q].left == x then Root(s) else a[q].left)
            && b[q].right == (if a[q].right == x then Root(s) else a[q].right))
    ensures Linked(Replace(t, x, s), p, b)
    decreases t, 1
  {
    if t.id != x {
      if x in Ids(t.left) {
        ReplaceLinkedLeft(t, p, a, x, s, b);
      } else {
        ReplaceLinkedRight(t, p, a, x, s, b);
      }
    }
  }

  lemma {:induction false} ReplaceLinkedLeft(t: Tree, p: int, a: seq<Node>, x: int, s: Tree, b: seq<Node>)
    requires Linked(t, p, a) && Unique(t) && t.Br? && t.id != x && x in Ids(t.left)
    requires var q := if x == Root(t) then p else Parent(t, x);
      Linked(s, q, b) && |a| <= |b|
      && (forall y :: 0 <= y < |a| && y != q && y !in Ids(Sub(t, x)) ==> SameLinksAt(a, b, y))
      && (q in Ids(t) ==>
            0 <= q < |a| && b[q].parent == a[q].parent
            && b[q].left == (if a[q].left == x then Root(s) else a[q].left)
            && b[q].right == (if a[q].right == x then Root(s) else a[q].right))
    ensures Linked(Replace(t, x, s), p, b)
    decreases t, 0
  {
    var l, y, r := t.left, t.id, t.right;
    var q := Parent(t, x);
    assert Sub(t, x) == Sub(l, x);
    SubIds(l, x);
    if Root(l) == x {
      assert q == y && Sub(l, x) == l && Replace(l, x, s) == s;
      assert Root(r) != x by { LinkedInArena(r, y, a); }
    } else {
      ParentIn(l, x);
      assert q == Parent(l, x) && q in Ids(l);
      ReplaceSeq(l, x, s);
      ReplaceLinked(l, y, a, x, s, b);
    }
    LinkedInArena(r, y, a);
    forall z | z in Ids(r) ensures SameLinksAt(a, b, z) {
      assert z !in Ids(l) && z != y;
    }
    LinkedFrame(r, y, a, b);
  }

  lemma {:induction false} ReplaceLinkedRight(t: Tree, p: int, a: seq<Node>, x: int, s: Tree, b: seq<Node>)
    requires Linked(t, p, a) && Unique(t) && t.Br? && t.id != x && x !in Ids(t.left) && x in Ids(t.right)
    requires var q := if x == Root(t) then p else Parent(t, x);
      Linked(s, q, b) && |a| <= |b|
      && (forall y :: 0 <= y < |a| && y != q && y !in Ids(Sub(t, x)) ==> SameLinksAt(a, b, y))
      && (q in Ids(t) ==>
            0 <= q < |a| && b[q].parent == a[q].parent
            && b[q].left == (if a[q].left == x then Root(s) else a[q].left)
            && b[q].right == (if a[q].right == x then Root(s) else a[q].right))
    ensures Linked(Replace(t, x, s), p, b)
    decreases t, 0
  {
    var l, y, r := t.left, t.id, t.right;
    var q := Parent(t, x);
    assert Sub(t, x) == Sub(r, x);
    SubIds(r, x);
    if Root(r) == x {
      assert q == y && Sub(r, x) == r && Replace(r, x, s) == s;
      assert Root(l) != x by { LinkedInArena(l, y, a); }
    } else {
      ParentIn(r, x);
      assert q == Parent(r, x) && q in Ids(r);
      ReplaceSeq(r, x, s);
      ReplaceLinked(r, y, a, x, s, b);
    }
    LinkedInArena(l, y, a);
    forall z | z in Ids(l) ensures SameLinksAt(a, b, z) {
      assert z !in Ids(r) && z != y;
    }
    LinkedFrame(l, y, a, b);
  }

  /** Below the top, a node's parent is a node of the shape that has it as
      a child. */
  lemma {:induction false} ParentIn(t: Tree, x: int)
    requires x in Ids(t) && x != Root(t) && Unique(t)
    ensures Parent(t, x) in Ids(t) && Parent(t, x) !in Ids(Sub(t, x))
    ensures Sub(t, Parent(t, x)).Br?
    ensures Root(Sub(t, Parent(t, x)).left) == x || Root(Sub(t, Parent(t, x)).right) == x
    ensures Depth(t, x) == Depth(t, Parent(t, x)) + 1
  {
    match t
    case Br(l, y, r) =>
      if x in Ids(l) {
        SubFacts(l, x);
        if Root(l) != x {
          ParentIn(l, x);
          SubFacts(l, Parent(l, x));
        }
      } else {
        SubFacts(r, x);
        if Root(r) != x {
          ParentIn(r, x);
          SubFacts(r, Parent(r, x));
        }
      }
  }

  /** The link fields of a node of the shape, read off the shape. */
  lemma {:induction false} NodeFields(t: Tree, p: int, a: seq<Node>, x: int)
    requires Linked(t, p, a) && Unique(t) && x in Ids(t)
    ensures 0 <= x < |a|
    ensures a[x].left == Root(LeftOf(Sub(t, x))) && a[x].right == Root(RightOf(Sub(t, x)))
    ensures a[x].parent == if x == Root(t) then p else Parent(t, x)
  {
    SubLinked(t, p, a, x);
    SubTop(t, x);
  }

  /** A shape moved under a new parent: only its top node's `parent` field
      differs. */
  lemma {:induction false} Relink(t: Tree, p: int, a: seq<Node>, q: int, b: seq<Node>)
    requires Linked(t, p, a) && Unique(t)
    requires forall y :: y in Ids(t) && y != Root(t) ==> SameLinksAt(a, b, y)
    requires t.Br? ==>
      0 <= t.id < |b| && b[t.id].left == a[t.id].left && b[t.id].right == a[t.id].right && b[t.id].parent == q
    ensures Linked(t, q, b)
  {
    if t.Br? {
      LinkedFrame(t.left, t.id, a, b);
      LinkedFrame(t.right, t.id, a, b);
    }
  }

  // ---------------------------------------------------------------------
  // Rotations on shapes.

  /** `left_rotate`: the right child `x` of `g` takes `g`'s place, `g`
      becomes `x`'s left child and `x`'s old left subtree moves under `g`. */
  ghost function RotL(t: Tree): Tree
    requires t.Br? && t.right.Br?
  {
    Br(Br(t.left, t.id, t.right.left), t.right.id, t.right.right)
  }

  /** `right_rotate`, the mirror image of `RotL`. */
  ghost function RotR(t: Tree): Tree
    requires t.Br? && t.left.Br?
  {
    Br(t.left.left, t.left.id, Br(t.left.right, t.id, t.right))
  }

  /** A rotation keeps the in-order sequence and the node set. */
  lemma {:induction false} RotLFacts(t: Tree)
    requires t.Br? && t.right.Br?
    ensures Order(RotL(t)) == Order(t) && Ids(RotL(t)) == Ids(t)
    ensures Unique(t) ==> Unique(RotL(t))
  {
    match t
    case Br(a, g, Br(b, x, c)) =>
      assert Order(t) == Order(a) + [g] + (Order(b) + [x] + Order(c));
      assert Ids(t) == Ids(a) + {g} + (Ids(b) + {x} + Ids(c));
      if Unique(t) {
        Unique3(a, g, b, x, c);
      }
  }

  lemma {:induction false} RotRFacts(t: Tree)
    requires t.Br? && t.left.Br?
    ensures Order(RotR(t)) == Order(t) && Ids(RotR(t)) == Ids(t)
    ensures Unique(t) ==> Unique(RotR(t))
  {
    match t
    case Br(Br(a, x, b), g, c) =>
      assert Order(t) == (Order(a) + [x] + Order(b)) + [g] + Order(c);
      assert Ids(t) == (Ids(a) + {x} + Ids(b)) + {g} + Ids(c);
      if Unique(t) {
        Unique3(a, x, b, g, c);
      }
  }

  /** Three subtrees and two nodes without repeats, however they are
      grouped. */
  lemma {:induction false} Unique3(a: Tree, x: int, b: Tree, y: int, c: Tree)
    requires Unique(Br(a, x, Br(b, y, c))) || Unique(Br(Br(a, x, b), y, c))
    ensures Unique(Br(a, x, Br(b, y, c))) && Unique(Br(Br(a, x, b), y, c))
  {
    assert Ids(Br(b, y, c)) == Ids(b) + {y} + Ids(c);
    assert Ids(Br(a, x, b)) == Ids(a) + {x} + Ids(b);
  }

  // ---------------------------------------------------------------------
  // Positions in the in-order sequence.

  /** The index of `x` in `Order(t)`. */
  ghost function Rank(t: Tree, x: int): nat
  {
    |Pre(t, x)| + |Order(LeftOf(Sub(t, x)))|
  }

  lemma {:induction false} RankAt(t: Tree, x: int)
    requires x in Ids(t) && Unique(t)
    ensures Rank(t, x) < |Order(t)| && Order(t)[Rank(t, x)] == x
  {
    SubFacts(t, x);
    var s := Sub(t, x);
    assert Order(s) == Order(s.left) + [x] + Order(s.right);
  }

  /** In a shape without repeated nodes, `Rank` is the only index of `x`. */
  lemma {:induction false} RankUnique(t: Tree, x: int, i: int)
    requires x in Ids(t) && Unique(t) && 0 <= i < |Order(t)| && Order(t)[i] == x
    ensures i == Rank(t, x)
  {
    RankAt(t, x);
    UniqueDistinct(t);
  }

  /** `s` without its element at index `i`. */
  ghost function Without(s: seq<int>, i: nat): seq<int>
    requires i < |s|
  {
    s[..i] + s[i + 1..]
  }

  /** Removing the top of a subtree with at most one child splices that
      child into its place in the in-order sequence. */
  lemma {:induction false} SpliceOrder(t: Tree, x: int, s: Tree)
    requires x in Ids(t) && Unique(t)
    requires var st := Sub(t, x);
      (s == LeftOf(st) && RightOf(st) == Nil) || (s == RightOf(st) && LeftOf(st) == Nil)
    ensures Rank(t, x) < |Order(t)|
    ensures Order(Replace(t, x, s)) == Without(Order(t), Rank(t, x))
  {
    SubTop(t, x);
    SubOrder(t, x);
    ReplaceSeq(t, x, s);
    var st := Sub(t, x);
    var l, r := Order(st.left), Order(st.right);
    assert Order(st) == l + [x] + r;
    assert (Order(s) == l && r == []) || (Order(s) == r && l == []);
    SpliceWithout(Order(t), Pre(t, x), l, x, r, Post(t, x), Order(s));
  }

  lemma {:induction false} SpliceWithout(o: seq<int>, pre: seq<int>, l: seq<int>, x: int, r: seq<int>, post: seq<int>, m: seq<int>)
    requires o == pre + (l + [x] + r) + post
    requires (m == l && r == []) || (m == r && l == [])
    ensures |pre| + |l| < |o| && pre + m + post == Without(o, |pre| + |l|)
  {
    SpliceSeq(pre, l, x, r, post);
    assert pre + m + post == (pre + l) + (r + post);
  }

  lemma {:induction false} SpliceSeq(pre: seq<int>, l: seq<int>, x: int, r: seq<int>, post: seq<int>)
    ensures var o := pre + (l + [x] + r) + post;
      |pre| + |l| < |o| && o[..|pre| + |l|] == pre + l && o[|pre| + |l| + 1..] == r + post
  {
    var o := pre + (l + [x] + r) + post;
    assert o == (pre + l) + [x] + (r + post);
  }

  // ---------------------------------------------------------------------
  // Sorted sequences of keys.

  /** `k` placed in an increasing sequence at its place; a key already there
      is not added again. */
  ghost function SortedInsert(s: seq<int>, k: int): seq<int>
  {
    if s == [] then [k]
    else if k < s[0] then [k] + s
    else if s[0] < k then [s[0]] + SortedInsert(s[1..], k)
    else s
  }

  lemma {:induction false} SortedInsertFacts(s: seq<int>, k: int)
    requires Increasing(s)
    ensures Increasing(SortedInsert(s, k))
    ensures forall m :: m in SortedInsert(s, k) <==> m in s || m == k
    ensures k in s ==> SortedInsert(s, k) == s
    ensures k !in s ==> |SortedInsert(s, k)| == |s| + 1
  {
    SortedInsertMembers(s, k);
    SortedInsertIncreasing(s, k);
  }

  lemma {:induction false} SortedInsertMembers(s: seq<int>, k: int)
    requires Increasing(s)
    ensures forall m :: m in SortedInsert(s, k) <==> m in s || m == k
    ensures k in s ==> SortedInsert(s, k) == s
    ensures k !in s ==> |SortedInsert(s, k)| == |s| + 1
  {
    if s != [] && s[0] < k {
      SortedInsertMembers(s[1..], k);
      assert s == [s[0]] + s[1..];
    } else if s != [] && k < s[0] {
      assert k !in s by {
        forall j | 0 <= j < |s| ensures s[j] != k {
        }
      }
    }
  }

  lemma {:induction false} SortedInsertIncreasing(s: seq<int>, k: int)
    requires Increasing(s)
    ensures Increasing(SortedInsert(s, k))
  {
    if s != [] && s[0] < k {
      SortedInsertIncreasing(s[1..], k);
      SortedInsertMembers(s[1..], k);
      var u := SortedInsert(s[1..], k);
      forall j | 0 <= j < |u| ensures s[0] < u[j] {
        assert u[j] in u;
      }
      IncreasingCons(s[0], u);
    } else if s != [] && k < s[0] {
      IncreasingCons(k, s);
    }
  }

  lemma {:induction false} IncreasingCons(k: int, u: seq<int>)
    requires Increasing(u) && forall j :: 0 <= j < |u| ==> k < u[j]
    ensures Increasing([k] + u)
  {
    var w := [k] + u;
    forall i, j | 0 <= i < j < |w| ensures w[i] < w[j] {
      assert w[j] == u[j - 1];
      if i > 0 {
        assert w[i] == u[i - 1];
      }
    }
  }

  /** Inserting below the first key of the right part does not disturb it. */
  lemma {:induction false} SortedInsertLeft(s: seq<int>, x: int, u: seq<int>, k: int)
    requires k < x
    ensures SortedInsert(s + [x] + u, k) == SortedInsert(s, k) + [x] + u
  {
    if s != [] {
      assert (s + [x] + u)[1..] == s[1..] + [x] + u;
      SortedInsertLeft(s[1..], x, u, k);
    }
  }

  lemma {:induction false} SortedInsertRight(s: seq<int>, x: int, u: seq<int>, k: int)
    requires x < k && forall i :: 0 <= i < |s| ==> s[i] < k
    ensures SortedInsert(s + [x] + u, k) == s + [x] + SortedInsert(u, k)
  {
    if s != [] {
      assert (s + [x] + u)[1..] == s[1..] + [x] + u;
      SortedInsertRight(s[1..], x, u, k);
    }
  }

  /** `s` with every occurrence of `k` removed. */
  ghost function Remove(s: seq<int>, k: int): seq<int>
  {
    if s == [] then [] else if s[0] == k then Remove(s[1..], k) else [s[0]] + Remove(s[1..], k)
  }

  lemma {:induction false} RemoveAbsent(s: seq<int>, k: int)
    requires k !in s
    ensures Remove(s, k) == s
  {
    if s != [] {
      RemoveAbsent(s[1..], k);
    }
  }

  /** In an increasing sequence the key at `i` occurs only there. */
  lemma {:induction false} RemoveAt(s: seq<int>, i: nat)
    requires Increasing(s) && i < |s|
    ensures Remove(s, s[i]) == Without(s, i)
  {
    if i == 0 {
      assert s[0] !in s[1..];
      RemoveAbsent(s[1..], s[0]);
    } else {
      assert s[1..][i - 1] == s[i];
      RemoveAt(s[1..], i - 1);
      assert s[1..][..i - 1] == s[1..i] && s[1..][i..] == s[i + 1..];
      assert s[..i] == [s[0]] + s[1..i];
    }
  }

  lemma {:induction false} WithoutIncreasing(s: seq<int>, i: nat)
    requires Increasing(s) && i < |s|
    ensures Increasing(Without(s, i))
  {
    var w := Without(s, i);
    forall m, n | 0 <= m < n < |w| ensures w[m] < w[n] {
      var m' := if m < i then m else m + 1;
      var n' := if n < i then n else n + 1;
      assert w[m] == s[m'] && w[n] == s[n'];
    }
  }

  // ---------------------------------------------------------------------
  // Adding a leaf.

  /** The shape after `add` hangs the node `v` below the node it is
      compared with last: left of a larger key, right of a smaller one, and
      nowhere when a node with the same key exists. */
  ghost function InsertLeaf(t: Tree, a: seq<Node>, v: int): Tree
  {
    match t
    case Nil => Br(Nil, v, Nil)
    case Br(l, x, r) =>
      if KeyOf(a, v) < KeyOf(a, x) then Br(InsertLeaf(l, a, v), x, r)
      else if KeyOf(a, x) < KeyOf(a, v) then Br(l, x, InsertLeaf(r, a, v))
      else t
  }

  /** Adding a key that is not there makes `v` a new leaf; the keys become the
      sorted insertion of the new key. */
  lemma {:induction false} InsertLeafFacts(t: Tree, a: seq<Node>, v: int)
    requires Unique(t) && v !in Ids(t) && Ordered(t, a) && KeyOf(a, v) !in Keys(t, a)
    ensures Ids(InsertLeaf(t, a, v)) == Ids(t) + {v} && Unique(InsertLeaf(t, a, v))
    ensures Keys(InsertLeaf(t, a, v), a) == SortedInsert(Keys(t, a), KeyOf(a, v))
    ensures Ordered(InsertLeaf(t, a, v), a)
  {
    InsertLeafIds(t, a, v);
    InsertLeafKeys(t, a, v);
    SortedInsertFacts(Keys(t, a), KeyOf(a, v));
  }

  lemma {:induction false} InsertLeafIds(t: Tree, a: seq<Node>, v: int)
    requires Unique(t) && v !in Ids(t)
    ensures Ids(InsertLeaf(t, a, v)) <= Ids(t) + {v} && Unique(InsertLeaf(t, a, v))
    ensures KeyOf(a, v) !in Keys(t, a) ==> Ids(InsertLeaf(t, a, v)) == Ids(t) + {v}
  {
    match t
    case Nil =>
    case Br(l, x, r) =>
      KeysBr(l, x, r, a);
      var k := KeyOf(a, v);
      if k < KeyOf(a, x) {
        InsertLeafIds(l, a, v);
        assert Ids(InsertLeaf(t, a, v)) == Ids(InsertLeaf(l, a, v)) + {x} + Ids(r);
        assert k !in Keys(t, a) ==> k !in Keys(l, a);
      } else if KeyOf(a, x) < k {
        InsertLeafIds(r, a, v);
        assert Ids(InsertLeaf(t, a, v)) == Ids(l) + {x} + Ids(InsertLeaf(r, a, v));
        assert k !in Keys(t, a) ==> k !in Keys(r, a);
      }
  }

  lemma {:induction false} InsertLeafKeys(t: Tree, a: seq<Node>, v: int)
    requires v !in Ids(t) && Ordered(t, a)
    ensures Keys(InsertLeaf(t, a, v), a) == SortedInsert(Keys(t, a), KeyOf(a, v))
  {
    var k := KeyOf(a, v);
    match t
    case Nil =>
    case Br(l, x, r) =>
      KeysBr(l, x, r, a);
      OrderedBr(l, x, r, a);
      forall i | 0 <= i < |Keys(l, a)| ensures Keys(l, a)[i] < KeyOf(a, x) {
        assert Keys(l, a)[i] in Keys(l, a);
      }
      if k < KeyOf(a, x) {
        InsertLeafKeys(l, a, v);
        KeysBr(InsertLeaf(l, a, v), x, r, a);
        SortedInsertLeft(Keys(l, a), KeyOf(a, x), Keys(r, a), k);
      } else if KeyOf(a, x) < k {
        InsertLeafKeys(r, a, v);
        KeysBr(l, x, InsertLeaf(r, a, v), a);
        SortedInsertRight(Keys(l, a), KeyOf(a, x), Keys(r, a), k);
      } else {
        SortedInsertEqual(Keys(l, a), KeyOf(a, x), Keys(r, a));
      }
  }

  lemma {:induction false} SortedInsertEqual(s: seq<int>, x: int, u: seq<int>)
    requires forall i :: 0 <= i < |s| ==> s[i] < x
    ensures SortedInsert(s + [x] + u, x) == s + [x] + u
  {
    if s != [] {
      assert (s + [x] + u)[1..] == s[1..] + [x] + u;
      SortedInsertEqual(s[1..], x, u);
    }
  }

  /** Adding a key that is there already changes nothing. */
  lemma {:induction false} InsertLeafPresent(t: Tree, a: seq<Node>, v: int)
    requires Ordered(t, a) && KeyOf(a, v) in Keys(t, a)
    ensures InsertLeaf(t, a, v) == t
  {
    match t
    case Nil =>
    case Br(l, x, r) =>
      KeysBr(l, x, r, a);
      OrderedBr(l, x, r, a);
      var k := KeyOf(a, v);
      if k < KeyOf(a, x) {
        InsertLeafPresent(l, a, v);
      } else if KeyOf(a, x) < k {
        InsertLeafPresent(r, a, v);
      }
  }

  /** Link and payload fields: one arena that differs from another in its
      links only. */
  ghost predicate SamePayload(a: seq<Node>, b: seq<Node>)
  {
    |a| == |b| && forall y :: 0 <= y < |a| ==> b[y].key == a[y].key && b[y].colour == a[y].colour
  }

  lemma {:induction false} SamePayloadKeys(t: Tree, a: seq<Node>, b: seq<Node>)
    requires SamePayload(a, b)
    ensures Keys(t, b) == Keys(t, a)
  {
    OrderIds(t);
  }

  /** Where a node sits below its parent. */
  lemma {:induction false} ChildSlot(t: Tree, p: int, a: seq<Node>, x: int)
    requires Linked(t, p, a) && Unique(t) && x in Ids(t) && x != Root(t)
    ensures var q := Parent(t, x);
      q in Ids(t) && q !in Ids(Sub(t, x)) && 0 <= x < |a| && 0 <= q < |a| && a[x].parent == q
      && (a[q].left == x || a[q].right == x) && !(a[q].left == x && a[q].right == x)
      && (a[q].left == x <==> Root(LeftOf(Sub(t, q))) == x)
      && Depth(t, x) == Depth(t, q) + 1
  {
    ParentIn(t, x);
    var q := Parent(t, x);
    NodeFields(t, p, a, x);
    NodeFields(t, p, a, q);
    SubFacts(t, q);
    var sq := Sub(t, q);
    LinkedInArena(t, p, a);
    if Root(sq.right) == x {
      assert x in Ids(sq.right) && x !in Ids(sq.left);
    }
    if Root(sq.left) == x {
      assert x in Ids(sq.left) && x !in Ids(sq.right);
    }
  }

  // ---------------------------------------------------------------------
  // Double rotations.

  /** `left_right_rotate`: a left rotation at the left child, then a right
      rotation at the top. */
  ghost function RotLR(t: Tree): Tree
    requires t.Br? && t.left.Br? && t.left.right.Br?
  {
    RotR(Br(RotL(t.left), t.id, t.right))
  }

  /** `right_left_rotate`: a right rotation at the right child, then a left
      rotation at the top. */
  ghost function RotRL(t: Tree): Tree
    requires t.Br? && t.right.Br? && t.right.left.Br?
  {
    RotL(Br(t.left, t.id, RotR(t.right)))
  }

  lemma {:induction false} RotLRFacts(t: Tree)
    requires t.Br? && t.left.Br? && t.left.right.Br?
    ensures Order(RotLR(t)) == Order(t) && Ids(RotLR(t)) == Ids(t)
    ensures Unique(t) ==> Unique(RotLR(t))
    ensures RotLR(t).id == t.left.right.id
  {
    RotLFacts(t.left);
    var u := Br(RotL(t.left), t.id, t.right);
    RotRFacts(u);
    assert Order(u) == Order(t) && Ids(u) == Ids(t);
    if Unique(t) {
      assert Unique(u);
    }
  }

  lemma {:induction false} RotRLFacts(t: Tree)
    requires t.Br? && t.right.Br? && t.right.left.Br?
    ensures Order(RotRL(t)) == Order(t) && Ids(RotRL(t)) == Ids(t)
    ensures Unique(t) ==> Unique(RotRL(t))
    ensures RotRL(t).id == t.right.left.id
  {
    RotRFacts(t.right);
    var u := Br(t.left, t.id, RotR(t.right));
    RotLFacts(u);
    assert Order(u) == Order(t) && Ids(u) == Ids(t);
    if Unique(t) {
      assert Unique(u);
    }
  }

  // ---------------------------------------------------------------------
  // Children, keys-only frames.

  /** The arenas hold the same keys (colours and links may differ). */
  ghost predicate SameKeys(a: seq<Node>, b: seq<Node>)
  {
    |a| == |b| && forall y :: 0 <= y < |a| ==> b[y].key == a[y].key
  }

  lemma {:induction false} SameKeysKeys(t: Tree, a: seq<Node>, b: seq<Node>)
    requires SameKeys(a, b)
    ensures Keys(t, b) == Keys(t, a)
  {
    OrderIds(t);
  }

  /** The subtree of a child of `q` is that child's subtree. */
  lemma {:induction false} SubChild(t: Tree, q: int)
    requires Unique(t) && q in Ids(t)
    ensures LeftOf(Sub(t, q)).Br? ==> Sub(t, LeftOf(Sub(t, q)).id) == LeftOf(Sub(t, q))
    ensures RightOf(Sub(t, q)).Br? ==> Sub(t, RightOf(Sub(t, q)).id) == RightOf(Sub(t, q))
  {
    match t
    case Br(l, y, r) =>
      if y == q {
        if l.Br? {
          assert l.id in Ids(l);
        }
        if r.Br? {
          assert r.id in Ids(r) && r.id !in Ids(l);
        }
      } else if q in Ids(l) {
        SubChild(l, q);
        SubIds(l, q);
        SubTop(l, q);
        var sq := Sub(l, q);
        if sq.left.Br? {
          assert sq.left.id in Ids(sq) && sq.left.id != y;
        }
        if sq.right.Br? {
          assert sq.right.id in Ids(sq) && sq.right.id != y;
        }
      } else {
        SubChild(r, q);
        SubIds(r, q);
        SubTop(r, q);
        var sq := Sub(r, q);
        if sq.left.Br? {
          assert sq.left.id in Ids(sq) && sq.left.id != y && sq.left.id !in Ids(l);
        }
        if sq.right.Br? {
          assert sq.right.id in Ids(sq) && sq.right.id != y && sq.right.id !in Ids(l);
        }
      }
  }

  /** Putting a subtree back where it came from changes nothing. */
  lemma {:induction false} ReplaceSelf(t: Tree, x: int)
    ensures Replace(t, x, Sub(t, x)) == t
  {
    match t
    case Nil =>
    case Br(l, y, r) =>
      if y != x {
        if x in Ids(l) {
          ReplaceSelf(l, x);
        } else if x in Ids(r) {
          ReplaceSelf(r, x);
        }
      }
  }

  /** A node other than the top is exactly one of its parent's two children. */
  lemma {:induction false} ChildSide(t: Tree, x: int)
    requires Unique(t) && x in Ids(t) && x != Root(t) && x != Null
    ensures var sq := Sub(t, Parent(t, x));
      (Root(LeftOf(sq)) == x) != (Root(RightOf(sq)) == x)
  {
    ParentIn(t, x);
    var q := Parent(t, x);
    SubIds(t, q);
  }
}
