// Red-black insertion balancing (red_black_tree/red_black_tree.hpp): the
// `red_black_tree_balancing` policy that `binary_tree::add` runs after
// hanging a new node, with `find_aunt`, the four shape tests and `is_black`.
//
// The policy's functions receive the root and the node just added; here they
// also receive the arena (the nodes of the tree) and, as a ghost parameter,
// the shape of the tree. They return the new root and, as a ghost result,
// the new shape. Colours are read from the arena through `ColourOf`, which
// makes a missing node (`nullptr`) Black, as `is_black` does.
module RedBlackTree {
  import opened TreeShape
  import opened TreeUtils

  // ---------------------------------------------------------------------
  // The red-black conditions.

  /** The number of Black nodes on the path down the left spine. */
  ghost function BlackHeight(t: Tree, a: seq<Node>): nat
  {
    match t
    case Nil => 0
    case Br(l, x, _) => BlackHeight(l, a) + (if ColourOf(a, x) == Black then 1 else 0)
  }

  /** Every path from a node down to an empty subtree meets the same number
      of Black nodes. */
  ghost predicate BlackBalanced(t: Tree, a: seq<Node>)
  {
    match t
    case Nil => true
    case Br(l, _, r) => BlackBalanced(l, a) && BlackBalanced(r, a) && BlackHeight(l, a) == BlackHeight(r, a)
  }

  /** A Red node may have child `c`: `c` is empty or Black, or it is the
      node `z` exempted from the rule (`Null` exempts nothing). */
  ghost predicate RedEdgeOk(c: Tree, z: int, a: seq<Node>)
  {
    c == Nil || ColourOf(a, c.id) == Black || (z != Null && c.id == z)
  }

  /** No Red node has a Red child, except possibly `z`. */
  ghost predicate RedOkBut(t: Tree, z: int, a: seq<Node>)
  {
    match t
    case Nil => true
    case Br(l, x, r) =>
      && RedOkBut(l, z, a) && RedOkBut(r, z, a)
      && (ColourOf(a, x) == Red ==> RedEdgeOk(l, z, a) && RedEdgeOk(r, z, a))
  }

  /** No Red node has a Red child. */
  ghost predicate RedOk(t: Tree, a: seq<Node>)
  {
    RedOkBut(t, Null, a)
  }

  /** A red-black tree: balanced Black heights, no Red-Red edge, Black top. */
  ghost predicate IsRedBlack(t: Tree, a: seq<Node>)
  {
    BlackBalanced(t, a) && RedOk(t, a) && ColourOf(a, Root(t)) == Black
  }

  /** The state `balance_impl(root, z)` works in: `z` is a Red node of the
      tree, the Black heights are balanced, the only Red-Red edge that may
      exist is the one from `z`'s parent down to `z`, and the top is Black
      unless it is `z` itself. */
  ghost predicate Pending(t: Tree, z: int, a: seq<Node>)
  {
    && z in Ids(t) && ColourOf(a, z) == Red
    && BlackBalanced(t, a) && RedOkBut(t, z, a)
    && (z == Root(t) || ColourOf(a, Root(t)) == Black)
  }

  /** What every balancing step promises: arena `b` holds shape `u`, which
      has the nodes of `t` (arena `a`) in the same in-order sequence, keys
      are untouched, `u` is a red-black tree and `newRoot` is its top. */
  ghost predicate Balanced(t: Tree, a: seq<Node>, u: Tree, b: seq<Node>, newRoot: int)
  {
    && Linked(u, Null, b) && Unique(u) && Order(u) == Order(t) && newRoot == Root(u)
    && SameKeys(a, b) && IsRedBlack(u, b)
  }

  // ---------------------------------------------------------------------
  // What balancing computes, as a function of the shape and the colours.

  /** Every node of `t` is one of the `n` slots of an arena. */
  ghost predicate InArena(t: Tree, n: int)
  {
    forall y :: y in Ids(t) ==> 0 <= y < n
  }

  /** `b` and `c` have the same length and give every node the same colour. */
  ghost predicate SameColours(b: seq<Node>, c: seq<Node>)
  {
    |b| == |c| && forall y :: ColourOf(b, y) == ColourOf(c, y)
  }

  /** The grandparent of `z`. */
  ghost function Grand(t: Tree, z: int): int
  {
    Parent(t, Parent(t, z))
  }

  /** The subtree `rotate` makes of the grandparent's subtree `sg` for the
      grandchild `z`: a right rotation when `z` is the left child of a left
      child, a left-right rotation when it is the right child of a left
      child, a left rotation for the right child of a right child and a
      right-left rotation for the left child of a right child. */
  ghost function RotationFor(sg: Tree, z: int): (s: Tree)
    ensures sg.Br? ==> s.Br?
    ensures Ids(s) == Ids(sg) && Order(s) == Order(sg)
    ensures Unique(sg) ==> Unique(s)
  {
    if z == Null || sg.Nil? then sg
    else if sg.left.Br? && Root(sg.left.left) == z then RotRFacts(sg); RotR(sg)
    else if sg.left.Br? && Root(sg.left.right) == z then RotLRFacts(sg); RotLR(sg)
    else if sg.right.Br? && Root(sg.right.right) == z then RotLFacts(sg); RotL(sg)
    else if sg.right.Br? && Root(sg.right.left) == z then RotRLFacts(sg); RotRL(sg)
    else sg
  }

  /** `recolour`'s three writes for a Red parent and a Red aunt: the
      grandparent turns Red, the aunt and the parent Black. Nothing else
      changes, and the grandparent, two levels up, is now the pending node. */
  ghost function RecolourAt(t: Tree, a: seq<Node>, z: int): (b: seq<Node>)
    requires Unique(t) && InArena(t, |a|) && Pending(t, z, a) && z != Root(t)
    requires ColourOf(a, Parent(t, z)) == Red && ColourOf(a, Aunt(t, z)) == Red
    ensures |b| == |a| && forall y :: 0 <= y < |a| ==> b[y] == a[y].(colour := b[y].colour)
    ensures forall y ::
      ColourOf(b, y) == if y == Grand(t, z) then Red
        else if y == Parent(t, z) || y == Aunt(t, z) then Black
        else ColourOf(a, y)
    ensures Pending(t, Grand(t, z), b) && Depth(t, Grand(t, z)) < Depth(t, z)
  {
    assert Parent(t, z) != Root(t);
    FamilyShape(t, z);
    var p, g, w := Parent(t, z), Grand(t, z), Aunt(t, z);
    var a1 := a[g := a[g].(colour := Red)];
    var a2 := a1[w := a1[w].(colour := Black)];
    var c := a2[p := a2[p].(colour := Black)];
    RecolouredPending(t, z, a, c);
    c
  }

  /** What `balance(root, z)` makes of shape `t` with the colours of `a`: the
      new shape, and an arena holding the new colours (its links are not
      those of the new shape; only its colours are meant). The first node is
      made Black; a Black parent, or a `z` outside the tree, changes
      nothing; a Black aunt gives the rotation `RotationFor` at the
      grandparent with the colours of the new top and the grandparent
      exchanged; a Red aunt gives `RecolourAt` and balancing from the
      grandparent. The write of Black to the new root at the end of
      `balance` is left out: `Balance` shows the root is Black already. */
  ghost function Fixup(t: Tree, a: seq<Node>, z: int): (r: (Tree, seq<Node>))
    requires Unique(t) && t.Br? && InArena(t, |a|) && 0 <= z < |a|
    requires Pending(t, z, a) || (z !in Ids(t) && IsRedBlack(t, a))
    ensures SameKeys(a, r.1)
    decreases Depth(t, z)
  {
    if z == Root(t) then (t, a[z := a[z].(colour := Black)])
    else if z !in Ids(t) || ColourOf(a, Parent(t, z)) == Black then (t, a)
    else if ColourOf(a, Aunt(t, z)) == Black then
      assert Parent(t, z) != Root(t);
      FamilyShape(t, z);
      var g := Grand(t, z);
      var s := RotationFor(Sub(t, g), z);
      assert s.id in Ids(s);
      (Replace(t, g, s), Swap(a, s.id, g))
    else
      Fixup(t, RecolourAt(t, a, z), Grand(t, z))
  }

  /** The same colour written into two arenas with the same colours. */
  lemma {:induction false} SetColourSame(a: seq<Node>, b: seq<Node>, z: int, c: Colour)
    requires SameColours(a, b) && 0 <= z < |a|
    ensures SameColours(a[z := a[z].(colour := c)], b[z := b[z].(colour := c)])
  {
    var a1, b1 := a[z := a[z].(colour := c)], b[z := b[z].(colour := c)];
    forall y ensures ColourOf(a1, y) == ColourOf(b1, y) {
      assert ColourOf(a, y) == ColourOf(b, y);
    }
  }

  /** Which case of `RotationFor` applies, by where `z` sits below `sg`. */
  lemma {:induction false} RotationCases(sg: Tree, z: int)
    requires sg.Br? && Unique(sg) && z != Null
    ensures sg.left.Br? && sg.left.left.Br? && sg.left.left.id == z ==> RotationFor(sg, z) == RotR(sg)
    ensures sg.left.Br? && sg.left.right.Br? && sg.left.right.id == z ==> RotationFor(sg, z) == RotLR(sg)
    ensures sg.right.Br? && sg.right.right.Br? && sg.right.right.id == z ==> RotationFor(sg, z) == RotL(sg)
    ensures sg.right.Br? && sg.right.left.Br? && sg.right.left.id == z ==> RotationFor(sg, z) == RotRL(sg)
  {
    var l, r := sg.left, sg.right;
    if l.Br? {
      assert Ids(l) == Ids(l.left) + {l.id} + Ids(l.right);
      if l.left.Br? {
        assert l.left.id in Ids(l.left);
      }
      if l.right.Br? {
        assert l.right.id in Ids(l.right);
      }
    }
    if r.Br? {
      assert Ids(r) == Ids(r.left) + {r.id} + Ids(r.right);
      if r.left.Br? {
        assert r.left.id in Ids(r.left);
      }
      if r.right.Br? {
        assert r.right.id in Ids(r.right);
      }
    }
  }

  /** `Fixup` reads only the keys and colours of its arena, and the
      arenas it returns for two such arenas agree on both. */
  lemma {:induction false} FixupPayload(t: Tree, a: seq<Node>, b: seq<Node>, z: int)
    requires Unique(t) && t.Br? && InArena(t, |a|) && 0 <= z < |a|
    requires Pending(t, z, a) || (z !in Ids(t) && IsRedBlack(t, a))
    requires SamePayload(a, b)
    ensures Pending(t, z, b) || (z !in Ids(t) && IsRedBlack(t, b))
    ensures Fixup(t, a, z).0 == Fixup(t, b, z).0 && SamePayload(Fixup(t, a, z).1, Fixup(t, b, z).1)
  {
    SamePayloadColours(a, b);
    FixupColours(t, a, b, z);
    var fa, fb := Fixup(t, a, z).1, Fixup(t, b, z).1;
    forall y | 0 <= y < |fa| ensures fb[y].key == fa[y].key && fb[y].colour == fa[y].colour {
      assert ColourOf(fa, y) == ColourOf(fb, y);
    }
  }

  /** `Fixup` reads only the colours of its arena. */
  lemma {:induction false} FixupColours(t: Tree, a: seq<Node>, b: seq<Node>, z: int)
    requires Unique(t) && t.Br? && InArena(t, |a|) && 0 <= z < |a|
    requires Pending(t, z, a) || (z !in Ids(t) && IsRedBlack(t, a))
    requires SameColours(a, b)
    ensures Pending(t, z, b) || (z !in Ids(t) && IsRedBlack(t, b))
    ensures Fixup(t, a, z).0 == Fixup(t, b, z).0 && SameColours(Fixup(t, a, z).1, Fixup(t, b, z).1)
    decreases Depth(t, z)
  {
    ColourFrame(t, a, b, z);
    ColourFrame(t, a, b, Null);
    if z == Root(t) {
      SetColourSame(a, b, z, Black);
    } else if z !in Ids(t) || ColourOf(a, Parent(t, z)) == Black {
    } else if ColourOf(a, Aunt(t, z)) == Black {
      assert Parent(t, z) != Root(t);
      FamilyShape(t, z);
      var g := Grand(t, z);
      var s := RotationFor(Sub(t, g), z);
      assert s.id in Ids(s);
      SwapColours(a, s.id, g);
      SwapColours(b, s.id, g);
    } else {
      FixupColours(t, RecolourAt(t, a, z), RecolourAt(t, b, z), Grand(t, z));
    }
  }

  // ---------------------------------------------------------------------
  // Shape queries.

  /** `x` is its parent's left child in `t`. */
  ghost predicate IsLeftIn(t: Tree, x: int)
  {
    x != Root(t) && Root(LeftOf(Sub(t, Parent(t, x)))) == x
  }

  /** `x` is its parent's right child in `t`. */
  ghost predicate IsRightIn(t: Tree, x: int)
  {
    x != Root(t) && Root(RightOf(Sub(t, Parent(t, x)))) == x
  }

  /** The sibling of `n`'s parent, `Null` when `n` has no grandparent. */
  ghost function Aunt(t: Tree, n: int): int
  {
    if n !in Ids(t) || n == Root(t) || Parent(t, n) == Root(t) then Null
    else
      var q := Parent(t, n);
      var sg := Sub(t, Parent(t, q));
      if Root(LeftOf(sg)) == q then Root(RightOf(sg)) else Root(LeftOf(sg))
  }

  /** `find_aunt(n)`: the grandparent's other child, or `Null` when `n` is
      `nullptr` or has no parent or no grandparent. */
  function FindAunt(arena: Arena, n: int, ghost t: Tree): (r: int)
    reads arena
    requires Linked(t, Null, arena.nodes) && Unique(t) && (n == Null || n in Ids(t))
    ensures r == Aunt(t, n)
    ensures r != Null ==> r in Ids(t) && 0 <= r < |arena.nodes|
  {
    Lineage(t, n, arena.nodes);
    var a := arena.nodes;
    if n == Null || a[n].parent == Null || a[a[n].parent].parent == Null then Null
    else
      var g := a[a[n].parent].parent;
      if a[g].left == a[n].parent then a[g].right else a[g].left
  }

  /** `is_left_left(n)`: `n` is a left child of a left child. */
  function IsLeftLeft(arena: Arena, n: int, ghost t: Tree): (b: bool)
    reads arena
    requires Linked(t, Null, arena.nodes) && Unique(t) && n in Ids(t)
    requires n != Root(t) && Parent(t, n) != Root(t)
    ensures b <==> IsLeftIn(t, n) && IsLeftIn(t, Parent(t, n))
  {
    Lineage(t, n, arena.nodes);
    var a := arena.nodes;
    a[a[n].parent].left == n && a[a[a[n].parent].parent].left == a[n].parent
  }

  /** `is_left_right(n)`: `n` is a right child of a left child. */
  function IsLeftRight(arena: Arena, n: int, ghost t: Tree): (b: bool)
    reads arena
    requires Linked(t, Null, arena.nodes) && Unique(t) && n in Ids(t)
    requires n != Root(t) && Parent(t, n) != Root(t)
    ensures b <==> IsRightIn(t, n) && IsLeftIn(t, Parent(t, n))
  {
    Lineage(t, n, arena.nodes);
    var a := arena.nodes;
    a[a[n].parent].right == n && a[a[a[n].parent].parent].left == a[n].parent
  }

  /** `is_right_right(n)`: `n` is a right child of a right child. */
  function IsRightRight(arena: Arena, n: int, ghost t: Tree): (b: bool)
    reads arena
    requires Linked(t, Null, arena.nodes) && Unique(t) && n in Ids(t)
    requires n != Root(t) && Parent(t, n) != Root(t)
    ensures b <==> IsRightIn(t, n) && IsRightIn(t, Parent(t, n))
  {
    Lineage(t, n, arena.nodes);
    var a := arena.nodes;
    a[a[n].parent].right == n && a[a[a[n].parent].parent].right == a[n].parent
  }

  /** `is_right_left(n)`: `n` is a left child of a right child. */
  function IsRightLeft(arena: Arena, n: int, ghost t: Tree): (b: bool)
    reads arena
    requires Linked(t, Null, arena.nodes) && Unique(t) && n in Ids(t)
    requires n != Root(t) && Parent(t, n) != Root(t)
    ensures b <==> IsLeftIn(t, n) && IsRightIn(t, Parent(t, n))
  {
    Lineage(t, n, arena.nodes);
    var a := arena.nodes;
    a[a[n].parent].left == n && a[a[a[n].parent].parent].right == a[n].parent
  }

  /** A node with a grandparent is a left or a right child, never both, and
      so is its parent: exactly one of the four shape tests holds. */
  lemma ShapeCases(t: Tree, n: int, a: seq<Node>)
    requires Linked(t, Null, a) && Unique(t) && n in Ids(t)
    requires n != Root(t) && Parent(t, n) != Root(t)
    ensures IsLeftIn(t, n) != IsRightIn(t, n)
    ensures IsLeftIn(t, Parent(t, n)) != IsRightIn(t, Parent(t, n))
  {
    LinkedInArena(t, Null, a);
    ParentIn(t, n);
    ChildSide(t, n);
    ChildSide(t, Parent(t, n));
  }

  /** `is_black(n)`: `nullptr` counts as Black. */
  function IsBlack(arena: Arena, n: int): (b: bool)
    reads arena
    requires n == Null || 0 <= n < |arena.nodes|
    ensures b <==> ColourOf(arena.nodes, n) == Black
    ensures n == Null ==> b
  {
    n == Null || arena.nodes[n].colour == Black
  }

  // ---------------------------------------------------------------------
  // The balancing steps.

  /** `recolour(root, z)`, for a Red parent and a Red aunt: the grandparent
      turns Red, the aunt and the parent Black, and balancing goes on from
      the grandparent. */
  method Recolour(arena: Arena, root: int, z: int, ghost t: Tree) returns (newRoot: int, ghost u: Tree)
    requires Linked(t, Null, arena.nodes) && Unique(t) && root == Root(t) && InArena(t, |arena.nodes|)
    requires Pending(t, z, arena.nodes) && z != root
    requires ColourOf(arena.nodes, Parent(t, z)) == Red && ColourOf(arena.nodes, Aunt(t, z)) == Red
    modifies arena
    ensures Balanced(t, old(arena.nodes), u, arena.nodes, newRoot)
    ensures u == Fixup(t, RecolourAt(t, old(arena.nodes), z), Grand(t, z)).0
    ensures SameColours(arena.nodes, Fixup(t, RecolourAt(t, old(arena.nodes), z), Grand(t, z)).1)
    decreases Depth(t, z), 0
  {
    ghost var a := arena.nodes;
    RedParentFacts(t, z, a);
    Family(t, z, a);
    var g := arena.nodes[arena.nodes[z].parent].parent;
    arena.nodes := arena.nodes[g := arena.nodes[g].(colour := Red)];
    Recoloured(t, a, g, Red);
    var aunt := FindAunt(arena, z, t);
    ghost var a1 := arena.nodes;
    arena.nodes := arena.nodes[aunt := arena.nodes[aunt].(colour := Black)];
    Recoloured(t, a1, aunt, Black);
    ghost var a2 := arena.nodes;
    var p := arena.nodes[z].parent;
    arena.nodes := arena.nodes[p := arena.nodes[p].(colour := Black)];
    Recoloured(t, a2, p, Black);
    ghost var b := arena.nodes;
    assert b == RecolourAt(t, a, z);
    newRoot, u := Balance(arena, root, g, t);
    assert SameKeys(a, b);
  }

  /** `rotate(root, z)`, for a Red parent and a Black aunt: the single or
      double rotation that fits the shape is applied at the grandparent's
      slot (the root, or the great-grandparent's child link), and the new
      top of that subtree swaps colours with the old grandparent, which is
      now its child on the side the rotation moved it to. */
  method Rotate(arena: Arena, root: int, z: int, ghost t: Tree) returns (newRoot: int, ghost u: Tree)
    requires Linked(t, Null, arena.nodes) && Unique(t) && root == Root(t)
    requires Pending(t, z, arena.nodes) && z != root
    requires ColourOf(arena.nodes, Parent(t, z)) == Red && ColourOf(arena.nodes, Aunt(t, z)) == Black
    modifies arena
    ensures Balanced(t, old(arena.nodes), u, arena.nodes, newRoot)
    ensures u == Replace(t, Grand(t, z), RotationFor(Sub(t, Grand(t, z)), z))
    ensures var x, g := Root(RotationFor(Sub(t, Grand(t, z)), z)), Grand(t, z);
      forall y :: ColourOf(arena.nodes, y) ==
        (if y == x then ColourOf(old(arena.nodes), g)
         else if y == g then ColourOf(old(arena.nodes), x)
         else ColourOf(old(arena.nodes), y))
  {
    ghost var a := arena.nodes;
    RedParentFacts(t, z, a);
    Family(t, z, a);
    var g := arena.nodes[arena.nodes[z].parent].parent;
    var gg := arena.nodes[g].parent;
    var linkIsLeft := gg != Null && arena.nodes[gg].left == g;
    ghost var s;
    var x, swapRight;
    x, s, swapRight := RotateShape(arena, z, g, t);
    ghost var m := arena.nodes;
    // `*link = ...`: the rotated subtree goes where the grandparent was.
    if gg == Null {
      newRoot := x;
    } else {
      newRoot := root;
      Relink(arena, gg, x, linkIsLeft);
    }
    SamePayloadColours(a, m);
    RotatedInPlace(t, g, s, a, m, arena.nodes);
    u := Replace(t, g, s);
    ghost var b := arena.nodes;
    // `std::swap` of the colours of the new top and the old grandparent.
    var y := if swapRight then arena.nodes[x].right else arena.nodes[x].left;
    SwapColour(arena, x, y);
    RotateTail(t, z, g, s, a, m, b, arena.nodes);
  }

  /** `*link = x` for the great-grandparent's child link on the given side. */
  method Relink(arena: Arena, gg: int, x: int, linkIsLeft: bool)
    requires 0 <= gg < |arena.nodes|
    modifies arena
    ensures arena.nodes == old(arena.nodes)[gg := if linkIsLeft then old(arena.nodes)[gg].(left := x) else old(arena.nodes)[gg].(right := x)]
  {
    if linkIsLeft {
      arena.nodes := arena.nodes[gg := arena.nodes[gg].(left := x)];
    } else {
      arena.nodes := arena.nodes[gg := arena.nodes[gg].(right := x)];
    }
  }

  /** `std::swap` of the colours of nodes `x` and `y`. */
  method SwapColour(arena: Arena, x: int, y: int)
    requires 0 <= x < |arena.nodes| && 0 <= y < |arena.nodes|
    modifies arena
    ensures arena.nodes == old(arena.nodes)[x := old(arena.nodes)[x].(colour := old(arena.nodes)[y].colour)]
      [y := old(arena.nodes)[y].(colour := old(arena.nodes)[x].colour)]
  {
    var cx := arena.nodes[x].colour;
    arena.nodes := arena.nodes[x := arena.nodes[x].(colour := arena.nodes[y].colour)];
    arena.nodes := arena.nodes[y := arena.nodes[y].(colour := cx)];
  }

  /** The rotation `rotate` chooses by the shape of `z`, its parent and its
      grandparent `g`: right for left-left, left-right, left for
      right-right, and right-left otherwise. The rotated subtree `s` hangs
      from `g`'s old parent; with the colours of its new top and `g`
      exchanged, it satisfies the red-black conditions. */
  method RotateShape(arena: Arena, z: int, g: int, ghost t: Tree) returns (x: int, ghost s: Tree, swapRight: bool)
    requires Linked(t, Null, arena.nodes) && Unique(t) && Pending(t, z, arena.nodes) && z != Root(t)
    requires ColourOf(arena.nodes, Parent(t, z)) == Red && ColourOf(arena.nodes, Aunt(t, z)) == Black
    requires g == Parent(t, Parent(t, z)) && Parent(t, z) != Root(t)
    modifies arena
    ensures s == RotationFor(Sub(t, g), z)
    ensures var sg := Sub(t, g);
      && s.Br? && x == s.id && Unique(s) && Ids(s) == Ids(sg) && Order(s) == Order(sg)
      && 0 <= g < |old(arena.nodes)| && 0 <= x < |old(arena.nodes)| && x != g
      && (swapRight ==> s.right.Br? && s.right.id == g) && (!swapRight ==> s.left.Br? && s.left.id == g)
    ensures var w := Swap(old(arena.nodes), x, g);
      && BlackBalanced(s, w) && BlackHeight(s, w) == BlackHeight(Sub(t, g), old(arena.nodes))
      && RedOk(s, w) && ColourOf(w, x) == Black
    ensures Linked(s, old(arena.nodes)[g].parent, arena.nodes) && SamePayload(old(arena.nodes), arena.nodes)
    ensures forall y :: 0 <= y < |arena.nodes| && y !in Ids(Sub(t, g)) ==> arena.nodes[y] == old(arena.nodes[y])
  {
    ghost var a := arena.nodes;
    Family(t, z, a);
    ghost var sg := Sub(t, g);
    RbSub(t, g, a, z);
    RotationCases(sg, z);
    var gg := arena.nodes[g].parent;
    if IsLeftLeft(arena, z, t) {
      x := arena.RightRotate(g, sg, gg);
      s, swapRight := RotR(sg), true;
      RotRFacts(sg);
      RotateLL(sg, z, a);
    } else if IsLeftRight(arena, z, t) {
      x := arena.LeftRightRotate(g, sg, gg);
      s, swapRight := RotLR(sg), true;
      RotLRFacts(sg);
      RotateLR(sg, z, a);
    } else if IsRightRight(arena, z, t) {
      x := arena.LeftRotate(g, sg, gg);
      s, swapRight := RotL(sg), false;
      RotLFacts(sg);
      RotateRR(sg, z, a);
    } else {
      x := arena.RightLeftRotate(g, sg, gg);
      s, swapRight := RotRL(sg), false;
      RotRLFacts(sg);
      RotateRL(sg, z, a);
    }
  }

  /** `balance_impl(root, z)`. The first node of a tree only needs to be
      Black; a Black parent leaves nothing to repair; otherwise the aunt's
      colour chooses between `rotate` and `recolour`. A `z` that is not in
      the tree (the node of a rejected duplicate, which has no parent) is
      treated like a node with a Black parent. */
  method BalanceImpl(arena: Arena, root: int, z: int, ghost t: Tree) returns (newRoot: int, ghost u: Tree)
    requires Linked(t, Null, arena.nodes) && Unique(t) && t.Br? && root == Root(t)
    requires 0 <= z < |arena.nodes|
    requires Pending(t, z, arena.nodes) || (z !in Ids(t) && arena.nodes[z].parent == Null && IsRedBlack(t, arena.nodes))
    requires InArena(t, |arena.nodes|)
    modifies arena
    ensures Balanced(t, old(arena.nodes), u, arena.nodes, newRoot)
    ensures u == Fixup(t, old(arena.nodes), z).0 && SameColours(arena.nodes, Fixup(t, old(arena.nodes), z).1)
    ensures z != root && ColourOf(old(arena.nodes), old(arena.nodes[z].parent)) == Black ==>
      u == t && arena.nodes == old(arena.nodes)
    decreases Depth(t, z), 1
  {
    ghost var a := arena.nodes;
    TopFields(t, Null, a);
    if root == z {
      arena.nodes := arena.nodes[root := arena.nodes[root].(colour := Black)];
      Recoloured(t, a, root, Black);
      BlackenRoot(t, a, arena.nodes);
      newRoot, u := root, t;
      return;
    }
    if z in Ids(t) {
      ChildSlotOf(t, z, a);
    }
    if IsBlack(arena, arena.nodes[z].parent) {
      if z in Ids(t) {
        ExemptionUnused(t, z, a);
      }
      newRoot, u := root, t;
      return;
    }
    RedParentFacts(t, z, a);
    var aunt := FindAunt(arena, z, t);
    if IsBlack(arena, aunt) {
      newRoot, u := Rotate(arena, root, z, t);
      ghost var x := Root(RotationFor(Sub(t, Grand(t, z)), z));
      FamilyShape(t, z);
      assert x in Ids(Sub(t, Grand(t, z)));
      SwapColours(a, x, Grand(t, z));
    } else {
      newRoot, u := Recolour(arena, root, z, t);
    }
  }

  /** `balance(root, z)`: `balance_impl`, then the root is made Black. */
  method Balance(arena: Arena, root: int, z: int, ghost t: Tree) returns (newRoot: int, ghost u: Tree)
    requires Linked(t, Null, arena.nodes) && Unique(t) && t.Br? && root == Root(t)
    requires 0 <= z < |arena.nodes|
    requires Pending(t, z, arena.nodes) || (z !in Ids(t) && arena.nodes[z].parent == Null && IsRedBlack(t, arena.nodes))
    requires InArena(t, |arena.nodes|)
    modifies arena
    ensures Balanced(t, old(arena.nodes), u, arena.nodes, newRoot)
    ensures u == Fixup(t, old(arena.nodes), z).0 && SameColours(arena.nodes, Fixup(t, old(arena.nodes), z).1)
    decreases Depth(t, z), 2
  {
    newRoot, u := BalanceImpl(arena, root, z, t);
    OrderIds(t);
    OrderIds(u);
    assert u.Br? by {
      assert t.id in Order(t);
    }
    TopFields(u, Null, arena.nodes);
    ghost var b := arena.nodes;
    assert b[newRoot].(colour := Black) == b[newRoot];
    arena.nodes := arena.nodes[newRoot := arena.nodes[newRoot].(colour := Black)];
    assert arena.nodes == b;
  }

  // ---------------------------------------------------------------------
  // General facts about the red-black conditions.

  /** The conditions read only the colours of the shape's own nodes. */
  lemma {:induction false} ColourFrame(t: Tree, a: seq<Node>, b: seq<Node>, z: int)
    requires forall y :: y in Ids(t) ==> ColourOf(b, y) == ColourOf(a, y)
    ensures BlackHeight(t, b) == BlackHeight(t, a)
    ensures BlackBalanced(t, b) == BlackBalanced(t, a)
    ensures RedOkBut(t, z, b) == RedOkBut(t, z, a)
  {
    match t
    case Nil =>
    case Br(l, x, r) =>
      ColourFrame(l, a, b, z);
      ColourFrame(r, a, b, z);
      if l.Br? {
        assert l.id in Ids(l);
      }
      if r.Br? {
        assert r.id in Ids(r);
      }
  }

  /** Without a Red-Red edge at all, any exemption holds. */
  lemma {:induction false} RedOkWeaken(t: Tree, a: seq<Node>, w: int)
    requires RedOk(t, a)
    ensures RedOkBut(t, w, a)
  {
    match t
    case Nil =>
    case Br(l, _, r) =>
      RedOkWeaken(l, a, w);
      RedOkWeaken(r, a, w);
  }

  /** An exemption for a node that is not a child inside `t` is unused:
      either `z` is not in `t`, or it is `t`'s top. */
  lemma {:induction false} RedOkChild(t: Tree, z: int, a: seq<Node>)
    requires Unique(t) && RedOkBut(t, z, a)
    requires z !in Ids(t) || z == Root(t)
    ensures RedOk(t, a)
  {
    match t
    case Nil =>
    case Br(l, x, r) =>
      assert z !in Ids(l) && z !in Ids(r);
      RedOkChild(l, z, a);
      RedOkChild(r, z, a);
      if l.Br? {
        assert l.id in Ids(l);
      }
      if r.Br? {
        assert r.id in Ids(r);
      }
  }

  /** The conditions hold on every subtree. */
  lemma {:induction false} RbSub(t: Tree, x: int, a: seq<Node>, z: int)
    requires x in Ids(t)
    ensures BlackBalanced(t, a) ==> BlackBalanced(Sub(t, x), a)
    ensures RedOkBut(t, z, a) ==> RedOkBut(Sub(t, x), z, a)
  {
    match t
    case Br(l, y, r) =>
      if y != x {
        if x in Ids(l) {
          RbSub(l, x, a, z);
        } else {
          RbSub(r, x, a, z);
        }
      }
  }

  /** A subtree beside the replaced one keeps its conditions, and the edge
      down to it from its parent, when that parent is Red, stays allowed. */
  lemma {:induction false} Beside(c: Tree, z: int, w: int, a: seq<Node>, b: seq<Node>, red: bool)
    requires Unique(c) && z !in Ids(c)
    requires forall y :: y in Ids(c) ==> ColourOf(b, y) == ColourOf(a, y)
    requires BlackBalanced(c, a) && RedOkBut(c, z, a) && (red ==> RedEdgeOk(c, z, a))
    ensures BlackBalanced(c, b) && BlackHeight(c, b) == BlackHeight(c, a)
    ensures RedOkBut(c, w, b) && (red ==> RedEdgeOk(c, w, b))
  {
    ColourFrame(c, a, b, Null);
    RedOkChild(c, z, a);
    RedOkWeaken(c, b, w);
    if c.Br? {
      assert c.id in Ids(c);
    }
  }

  /** Replacing the subtree at `x` with a shape `s` that has the same Black
      height, satisfies the conditions with exemption `w`, and may hang
      below a Red node with that exemption keeps the conditions of the
      whole tree, provided nothing outside the subtree changes colour and
      the old exemption `z` lay inside it. */
  lemma {:induction false} RbReplace(t: Tree, x: int, s: Tree, a: seq<Node>, b: seq<Node>, z: int, w: int)
    requires Unique(t) && x in Ids(t) && z in Ids(Sub(t, x))
    requires forall y :: y in Ids(t) && y !in Ids(Sub(t, x)) ==> ColourOf(b, y) == ColourOf(a, y)
    requires BlackBalanced(t, a) && RedOkBut(t, z, a)
    requires BlackBalanced(s, b) && BlackHeight(s, b) == BlackHeight(Sub(t, x), a)
    requires RedOkBut(s, w, b) && RedEdgeOk(s, w, b)
    ensures BlackBalanced(Replace(t, x, s), b) && BlackHeight(Replace(t, x, s), b) == BlackHeight(t, a)
    ensures RedOkBut(Replace(t, x, s), w, b)
  {
    match t
    case Br(l, y, r) =>
      if y != x {
        var red := ColourOf(a, y) == Red;
        if x in Ids(l) {
          SubIds(l, x);
          RbReplace(l, x, s, a, b, z, w);
          assert z !in Ids(r);
          Beside(r, z, w, a, b, red);
          ReplaceEdge(l, x, s, a, b, z, w, red);
        } else {
          SubIds(r, x);
          RbReplace(r, x, s, a, b, z, w);
          assert z !in Ids(l);
          Beside(l, z, w, a, b, red);
          ReplaceEdge(r, x, s, a, b, z, w, red);
        }
      }
  }

  /** The edge from a Red node down to the child on the path to the
      replaced subtree stays allowed. */
  lemma {:induction false} ReplaceEdge(c: Tree, x: int, s: Tree, a: seq<Node>, b: seq<Node>, z: int, w: int, red: bool)
    requires Unique(c) && x in Ids(c) && z in Ids(Sub(c, x))
    requires forall y :: y in Ids(c) && y !in Ids(Sub(c, x)) ==> ColourOf(b, y) == ColourOf(a, y)
    requires (red ==> RedEdgeOk(c, z, a)) && RedEdgeOk(s, w, b)
    ensures red ==> RedEdgeOk(Replace(c, x, s), w, b)
  {
    ReplaceSeq(c, x, s);
    if c.id != x {
      SubIds(c.left, x);
      SubIds(c.right, x);
      assert c.id !in Ids(Sub(c, x));
      assert c.id in Ids(c);
    }
  }

  /** A node made Black at the top keeps the tree red-black. */
  lemma {:induction false} BlackenRoot(t: Tree, a: seq<Node>, b: seq<Node>)
    requires t.Br? && Unique(t)
    requires ColourOf(b, t.id) == Black
    requires forall y :: y in Ids(t) && y != t.id ==> ColourOf(b, y) == ColourOf(a, y)
    requires BlackBalanced(t, a) && RedOkBut(t, t.id, a)
    ensures IsRedBlack(t, b)
  {
    var l, r := t.left, t.right;
    ColourFrame(l, a, b, Null);
    ColourFrame(r, a, b, Null);
    RedOkChild(l, t.id, a);
    RedOkChild(r, t.id, a);
  }

  /** When `z`'s parent is Black, the exempted edge is not Red-Red. */
  lemma {:induction false} ExemptionUnused(t: Tree, z: int, a: seq<Node>)
    requires Unique(t) && Pending(t, z, a) && z != Root(t) && z != Null
    requires ColourOf(a, Parent(t, z)) == Black
    ensures IsRedBlack(t, a)
  {
    ExemptionUnusedAt(t, z, a);
  }

  lemma {:induction false} ExemptionUnusedAt(t: Tree, z: int, a: seq<Node>)
    requires Unique(t) && z in Ids(t) && z != Root(t) && z != Null && RedOkBut(t, z, a)
    requires ColourOf(a, Parent(t, z)) == Black
    ensures RedOk(t, a)
  {
    match t
    case Br(l, y, r) =>
      if z in Ids(l) {
        assert z !in Ids(r);
        RedOkChild(r, z, a);
        if Root(l) == z {
          RedOkChild(l, z, a);
        } else {
          ExemptionUnusedAt(l, z, a);
          assert l.id in Ids(l);
        }
      } else {
        assert z !in Ids(l);
        RedOkChild(l, z, a);
        if Root(r) == z {
          RedOkChild(r, z, a);
        } else {
          ExemptionUnusedAt(r, z, a);
          assert r.id in Ids(r);
        }
      }
  }

  /** A Red leaf hung by `add` leaves the Black heights as they were and
      makes the edge down to it the only possible Red-Red edge. */
  lemma {:induction false} InsertRedLeaf(t: Tree, a: seq<Node>, v: int)
    requires v != Null && v !in Ids(t) && ColourOf(a, v) == Red
    requires BlackBalanced(t, a) && RedOk(t, a)
    ensures BlackBalanced(InsertLeaf(t, a, v), a) && BlackHeight(InsertLeaf(t, a, v), a) == BlackHeight(t, a)
    ensures RedOkBut(InsertLeaf(t, a, v), v, a)
  {
    match t
    case Nil =>
    case Br(l, x, r) =>
      if KeyOf(a, v) < KeyOf(a, x) {
        InsertRedLeaf(l, a, v);
        RedOkWeaken(r, a, v);
      } else if KeyOf(a, x) < KeyOf(a, v) {
        InsertRedLeaf(r, a, v);
        RedOkWeaken(l, a, v);
      } else {
        RedOkWeaken(t, a, v);
      }
  }

  // ---------------------------------------------------------------------
  // Proof steps of the balancing methods.

  /** Where `z`, its Red parent `p` and its grandparent `g` are, for a `z`
      in a pending state below a Red parent. */
  lemma {:induction false} RedParentFacts(t: Tree, z: int, a: seq<Node>)
    requires Linked(t, Null, a) && Unique(t) && Pending(t, z, a) && z != Root(t)
    requires ColourOf(a, Parent(t, z)) == Red
    ensures var p := Parent(t, z);
      && p in Ids(t) && p != Root(t) && 0 <= z < |a| && a[z].parent == p
      && 0 <= p < |a| && a[p].parent == Parent(t, p)
      && Parent(t, p) in Ids(t) && 0 <= Parent(t, p) < |a|
      && Depth(t, z) == Depth(t, Parent(t, p)) + 2
  {
    ChildSlot(t, Null, a, z);
    var p := Parent(t, z);
    assert p != Root(t);
    ChildSlot(t, Null, a, p);
  }

  /** The facts `find_aunt` and the shape tests read. */
  lemma {:induction false} Lineage(t: Tree, n: int, a: seq<Node>)
    requires Linked(t, Null, a) && Unique(t) && (n == Null || n in Ids(t))
    ensures n != Null ==> 0 <= n < |a| && (a[n].parent == Null <==> n == Root(t))
    ensures n !in Ids(t) <==> n == Null
    ensures Aunt(t, n) != Null ==> Aunt(t, n) in Ids(t) && 0 <= Aunt(t, n) < |a|
    ensures n != Null && n != Root(t) ==>
      var q := Parent(t, n);
      && a[n].parent == q && q in Ids(t) && 0 <= q < |a|
      && (a[q].left == n <==> IsLeftIn(t, n)) && (a[q].right == n <==> IsRightIn(t, n))
      && (a[q].parent == Null <==> q == Root(t))
      && (q != Root(t) ==>
            var g := Parent(t, q);
            && a[q].parent == g && g in Ids(t) && 0 <= g < |a|
            && (a[g].left == q <==> IsLeftIn(t, q)) && (a[g].right == q <==> IsRightIn(t, q))
            && a[g].left == Root(LeftOf(Sub(t, g))) && a[g].right == Root(RightOf(Sub(t, g))))
  {
    LinkedInArena(t, Null, a);
    if n != Null {
      ChildSlotOf(t, n, a);
      if n != Root(t) {
        var q := Parent(t, n);
        ChildSlot(t, Null, a, n);
        ChildSlotOf(t, q, a);
        if q != Root(t) {
          ChildSlot(t, Null, a, q);
          NodeFields(t, Null, a, Parent(t, q));
          var sg := Sub(t, Parent(t, q));
          SubFacts(t, Parent(t, q));
          assert Ids(sg) == Ids(sg.left) + {sg.id} + Ids(sg.right);
        }
      }
    }
  }

  /** A colour write keeps the links, the keys and every other colour. */
  lemma {:induction false} Recoloured(t: Tree, a: seq<Node>, x: int, c: Colour)
    requires Linked(t, Null, a) && 0 <= x < |a|
    ensures var b := a[x := a[x].(colour := c)];
      && Linked(t, Null, b) && SameKeys(a, b)
      && (forall y :: ColourOf(b, y) == if y == x then c else ColourOf(a, y))
  {
    var b := a[x := a[x].(colour := c)];
    LinkedInArena(t, Null, a);
    forall y | y in Ids(t) ensures SameLinksAt(a, b, y) {
    }
    LinkedFrame(t, Null, a, b);
  }

  /** After `recolour`'s three writes the grandparent is pending. */
  lemma {:induction false} RecolouredPending(t: Tree, z: int, a: seq<Node>, b: seq<Node>)
    requires Unique(t) && InArena(t, |a|) && Pending(t, z, a) && z != Root(t)
    requires ColourOf(a, Parent(t, z)) == Red && ColourOf(a, Aunt(t, z)) == Red
    requires var p, g := Parent(t, z), Parent(t, Parent(t, z));
      forall y :: ColourOf(b, y) ==
        if y == g then Red else if y == p || y == Aunt(t, z) then Black else ColourOf(a, y)
    ensures Pending(t, Parent(t, Parent(t, z)), b)
  {
    var p := Parent(t, z);
    assert p != Root(t);
    var g := Parent(t, p);
    FamilyShape(t, z);
    var sg := Sub(t, g);
    var sp := Sub(t, p);
    assert z == Root(sp.left) || z == Root(sp.right);
    RbSub(t, g, a, z);
    RecolourLocal(sg.left, g, sg.right, a, b, z);
    ReplaceSelf(t, g);
    forall y | y in Ids(t) && y !in Ids(sg) ensures ColourOf(b, y) == ColourOf(a, y) {
      assert y != g && y != p && y != Aunt(t, z);
    }
    RbReplace(t, g, sg, a, b, z, g);
    assert Root(t) != p && Root(t) != Aunt(t, z) by {
      assert ColourOf(a, Root(t)) == Black;
    }
  }

  /** The family of `z` seen from its grandparent `g`: `g`'s subtree has
      the parent `p` on one side and the aunt on the other, and `z` tops one
      of `p`'s subtrees. */
  lemma {:induction false} Family(t: Tree, z: int, a: seq<Node>)
    requires Linked(t, Null, a) && Unique(t) && z in Ids(t) && z != Root(t)
    requires Parent(t, z) != Root(t)
    ensures var p := Parent(t, z); var g := Parent(t, p); var sg := Sub(t, g);
      && 0 <= z < |a| && p in Ids(t) && g in Ids(t) && 0 <= g < |a|
      && sg.Br? && sg.id == g && Unique(sg) && Ids(sg) <= Ids(t) && z in Ids(sg)
      && Linked(sg, a[g].parent, a) && (a[g].parent == Null <==> g == Root(t))
      && (a[g].parent != Null ==> 0 <= a[g].parent < |a|)
      && p != g && Aunt(t, z) != g && Aunt(t, z) != p
      && IsLeftIn(t, z) != IsRightIn(t, z) && IsLeftIn(t, p) != IsRightIn(t, p)
      && (IsLeftIn(t, p) ==> sg.left.Br? && sg.left.id == p && Sub(t, p) == sg.left && Aunt(t, z) == Root(sg.right))
      && (IsRightIn(t, p) ==> sg.right.Br? && sg.right.id == p && Sub(t, p) == sg.right && Aunt(t, z) == Root(sg.left))
      && (IsLeftIn(t, z) ==> Sub(t, p).left.Br? && Sub(t, p).left.id == z)
      && (IsRightIn(t, z) ==> Sub(t, p).right.Br? && Sub(t, p).right.id == z)
  {
    LinkedInArena(t, Null, a);
    FamilyShape(t, z);
    var g := Parent(t, Parent(t, z));
    SubLinked(t, Null, a, g);
    NodeFields(t, Null, a, g);
    if g != Root(t) {
      ParentIn(t, g);
    }
  }

  /** The shape part of `Family`, for a tree whose nodes are arena slots. */
  lemma {:induction false} FamilyShape(t: Tree, z: int)
    requires Unique(t) && z in Ids(t) && z != Root(t) && Parent(t, z) != Root(t)
    requires forall y :: y in Ids(t) ==> 0 <= y
    ensures var p := Parent(t, z); var g := Parent(t, p); var sg := Sub(t, g);
      && p in Ids(t) && g in Ids(t) && Depth(t, z) == Depth(t, g) + 2
      && sg.Br? && sg.id == g && Unique(sg) && Ids(sg) <= Ids(t) && z in Ids(sg)
      && p != g && Aunt(t, z) != g && Aunt(t, z) != p
      && IsLeftIn(t, z) != IsRightIn(t, z) && IsLeftIn(t, p) != IsRightIn(t, p)
      && (IsLeftIn(t, p) ==> sg.left.Br? && sg.left.id == p && Sub(t, p) == sg.left && Aunt(t, z) == Root(sg.right))
      && (IsRightIn(t, p) ==> sg.right.Br? && sg.right.id == p && Sub(t, p) == sg.right && Aunt(t, z) == Root(sg.left))
      && (IsLeftIn(t, z) ==> Sub(t, p).left.Br? && Sub(t, p).left.id == z)
      && (IsRightIn(t, z) ==> Sub(t, p).right.Br? && Sub(t, p).right.id == z)
  {
    var p := Parent(t, z);
    ParentIn(t, z);
    ParentIn(t, p);
    ChildSide(t, z);
    ChildSide(t, p);
    var g := Parent(t, p);
    SubFacts(t, g);
    SubFacts(t, p);
    SubChild(t, g);
    SubChild(t, p);
    var sg, sp := Sub(t, g), Sub(t, p);
    assert Ids(sg) == Ids(sg.left) + {g} + Ids(sg.right);
    assert Ids(sp) == Ids(sp.left) + {p} + Ids(sp.right);
  }

  /** `recolour` on the grandparent's subtree `Br(A, g, B)`: `A` and `B`
      (the parent and the aunt) go from Red to Black and `g` from Black to
      Red; the Black height stays, and only `g` may now sit below a Red
      node. */
  lemma {:induction false} RecolourLocal(A: Tree, g: int, B: Tree, a: seq<Node>, b: seq<Node>, z: int)
    requires A.Br? && B.Br? && Unique(Br(A, g, B)) && z != Null
    requires z == Root(A.left) || z == Root(A.right) || z == Root(B.left) || z == Root(B.right)
    requires BlackBalanced(Br(A, g, B), a) && RedOkBut(Br(A, g, B), z, a)
    requires ColourOf(a, A.id) == Red && ColourOf(a, B.id) == Red
    requires ColourOf(b, g) == Red && ColourOf(b, A.id) == Black && ColourOf(b, B.id) == Black
    requires forall y :: y in Ids(Br(A, g, B)) && y != g && y != A.id && y != B.id ==> ColourOf(b, y) == ColourOf(a, y)
    ensures BlackBalanced(Br(A, g, B), b) && BlackHeight(Br(A, g, B), b) == BlackHeight(Br(A, g, B), a)
    ensures RedOkBut(Br(A, g, B), g, b) && ColourOf(b, g) == Red
  {
    assert Ids(A) == Ids(A.left) + {A.id} + Ids(A.right);
    assert Ids(B) == Ids(B.left) + {B.id} + Ids(B.right);
    Below(A.left, a, b, z, g);
    Below(A.right, a, b, z, g);
    Below(B.left, a, b, z, g);
    Below(B.right, a, b, z, g);
  }

  /** A grandchild subtree in `RecolourLocal`: its colours are unchanged and
      it holds `z` only at its top, if at all. */
  lemma {:induction false} Below(c: Tree, a: seq<Node>, b: seq<Node>, z: int, w: int)
    requires Unique(c) && RedOkBut(c, z, a) && BlackBalanced(c, a)
    requires z !in Ids(c) || z == Root(c)
    requires forall y :: y in Ids(c) ==> ColourOf(b, y) == ColourOf(a, y)
    ensures BlackBalanced(c, b) && BlackHeight(c, b) == BlackHeight(c, a) && RedOkBut(c, w, b)
  {
    ColourFrame(c, a, b, Null);
    RedOkChild(c, z, a);
    RedOkWeaken(c, b, w);
  }

  /** The rotated subtree hung at the grandparent's old slot: the arena
      holds the tree with the grandparent's subtree replaced. */
  lemma {:induction false} RotatedInPlace(t: Tree, g: int, s: Tree, a: seq<Node>, m: seq<Node>, b: seq<Node>)
    requires Linked(t, Null, a) && Unique(t) && g in Ids(t) && 0 <= g < |a|
    requires Ids(s) == Ids(Sub(t, g)) && Order(s) == Order(Sub(t, g)) && Unique(s) && s.Br?
    requires Linked(s, a[g].parent, m) && |m| == |a|
    requires forall y :: 0 <= y < |a| && y !in Ids(Sub(t, g)) ==> m[y] == a[y]
    requires var q := a[g].parent;
      if q == Null then b == m
      else 0 <= q < |a| && b == if a[q].left == g then m[q := m[q].(left := s.id)] else m[q := m[q].(right := s.id)]
    ensures Linked(Replace(t, g, s), Null, b) && Unique(Replace(t, g, s))
    ensures Order(Replace(t, g, s)) == Order(t)
    ensures Root(Replace(t, g, s)) == if g == Root(t) then s.id else Root(t)
    ensures 0 <= s.id < |b| && b[s.id].left == Root(s.left) && b[s.id].right == Root(s.right)
    ensures SameKeys(m, b) && forall y :: ColourOf(b, y) == ColourOf(m, y)
  {
    NodeFields(t, Null, a, g);
    SubFacts(t, g);
    TopFields(s, a[g].parent, m);
    ReplaceIds(t, g, s);
    ReplaceUnique(t, g, s);
    ReplaceSeq(t, g, s);
    if g == Root(t) {
      assert t.id == g;
    } else {
      var q := a[g].parent;
      ChildSlot(t, Null, a, g);
      LinkedInArena(s, q, m);
      forall y | y in Ids(s) ensures SameLinksAt(m, b, y) {
      }
      LinkedFrame(s, q, m, b);
      forall y | 0 <= y < |a| && y != q && y !in Ids(Sub(t, g)) ensures SameLinksAt(a, b, y) {
      }
      ReplaceLinked(t, Null, a, g, s, b);
    }
  }

  /** The colour swap at the end of `rotate`: on top of an arena whose
      colours are those of `a`, the result has the colours of `Swap(a, x, y)`. */
  lemma {:induction false} SwappedColours(u: Tree, a: seq<Node>, b: seq<Node>, f: seq<Node>, x: int, y: int)
    requires Linked(u, Null, b) && |b| == |a| && 0 <= x < |b| && 0 <= y < |b| && x != y
    requires forall w :: ColourOf(b, w) == ColourOf(a, w)
    requires f == b[x := b[x].(colour := b[y].colour)][y := b[y].(colour := b[x].colour)]
    ensures Linked(u, Null, f) && SameKeys(b, f)
    ensures forall w :: ColourOf(f, w) == ColourOf(Swap(a, x, y), w)
  {
    LinkedInArena(u, Null, b);
    forall w | w in Ids(u) ensures SameLinksAt(b, f, w) {
    }
    LinkedFrame(u, Null, b, f);
    SwapColours(a, x, y);
    assert ColourOf(b, x) == ColourOf(a, x) && ColourOf(b, y) == ColourOf(a, y);
  }

  /** `a` with the colours of `x` and `y` exchanged. */
  ghost function Swap(a: seq<Node>, x: int, y: int): seq<Node>
    requires 0 <= x < |a| && 0 <= y < |a|
  {
    a[x := a[x].(colour := a[y].colour)][y := a[y].(colour := a[x].colour)]
  }

  lemma {:induction false} SwapColours(a: seq<Node>, x: int, y: int)
    requires 0 <= x < |a| && 0 <= y < |a|
    ensures forall w :: ColourOf(Swap(a, x, y), w) == (if w == x then ColourOf(a, y) else if w == y then ColourOf(a, x) else ColourOf(a, w))
  {
  }

  /** A change of links only leaves every colour as it was. */
  lemma {:induction false} SamePayloadColours(a: seq<Node>, b: seq<Node>)
    requires SamePayload(a, b)
    ensures forall y :: ColourOf(b, y) == ColourOf(a, y)
  {
    forall y ensures ColourOf(b, y) == ColourOf(a, y) {
      if 0 <= y < |a| {
        assert b[y].colour == a[y].colour;
      }
    }
  }

  /** Outside the subtree of a node below the top there is the top. */
  lemma {:induction false} RootOutside(t: Tree, x: int)
    requires Unique(t) && x in Ids(t) && x != Root(t)
    ensures Root(t) in Ids(t) && Root(t) !in Ids(Sub(t, x))
  {
    match t
    case Br(l, y, r) =>
      SubIds(l, x);
      SubIds(r, x);
  }

  /** `rotate` for a left child of a left child: a right rotation at the
      grandparent `g`, and the parent `p` (the new top) takes `g`'s Black
      while `g` takes `p`'s Red. */
  lemma {:induction false} RotateLL(sg: Tree, z: int, a: seq<Node>)
    requires sg.Br? && sg.left.Br? && sg.left.left.Br? && sg.left.left.id == z && Unique(sg)
    requires 0 <= sg.id < |a| && 0 <= sg.left.id < |a|
    requires BlackBalanced(sg, a) && RedOkBut(sg, z, a)
    requires ColourOf(a, sg.left.id) == Red && ColourOf(a, Root(sg.right)) == Black
    ensures var s, f := RotR(sg), Swap(a, sg.left.id, sg.id);
      && BlackBalanced(s, f) && BlackHeight(s, f) == BlackHeight(sg, a)
      && RedOk(s, f) && ColourOf(f, s.id) == Black && s.right.Br? && s.right.id == sg.id && s.id != sg.id
  {
    var zt, p, c, g, u := sg.left.left, sg.left.id, sg.left.right, sg.id, sg.right;
    var f := Swap(a, p, g);
    SwapColours(a, p, g);
    assert Ids(sg.left) == Ids(zt) + {p} + Ids(c);
    assert z in Ids(zt);
    assert ColourOf(a, g) == Black;
    Below(zt, a, f, z, Null);
    Below(c, a, f, z, Null);
    Below(u, a, f, z, Null);
  }

  /** `rotate` for a right child `z` of a left child: the double rotation
      makes `z` the top, which takes the grandparent's Black. */
  lemma {:induction false} RotateLR(sg: Tree, z: int, a: seq<Node>)
    requires sg.Br? && sg.left.Br? && sg.left.right.Br? && sg.left.right.id == z && Unique(sg)
    requires 0 <= sg.id < |a| && 0 <= z < |a|
    requires BlackBalanced(sg, a) && RedOkBut(sg, z, a)
    requires ColourOf(a, sg.left.id) == Red && ColourOf(a, z) == Red && ColourOf(a, Root(sg.right)) == Black
    ensures var s, f := RotLR(sg), Swap(a, z, sg.id);
      && BlackBalanced(s, f) && BlackHeight(s, f) == BlackHeight(sg, a)
      && RedOk(s, f) && ColourOf(f, s.id) == Black && s.right.Br? && s.right.id == sg.id && s.id != sg.id
  {
    var c, p, g, u := sg.left.left, sg.left.id, sg.id, sg.right;
    var z1, z2 := sg.left.right.left, sg.left.right.right;
    assert RotLR(sg) == Br(Br(c, p, z1), z, Br(z2, g, u));
    var f := Swap(a, z, g);
    SwapColours(a, z, g);
    assert Ids(sg.left.right) == Ids(z1) + {z} + Ids(z2);
    assert Ids(sg.left) == Ids(c) + {p} + Ids(sg.left.right);
    assert BlackBalanced(sg.left, a) && RedOkBut(sg.left, z, a) && Unique(sg.left);
    assert BlackBalanced(sg.left.right, a) && RedOkBut(sg.left.right, z, a) && Unique(sg.left.right);
    assert ColourOf(a, g) == Black;
    Below(c, a, f, z, Null);
    Below(z1, a, f, z, Null);
    Below(z2, a, f, z, Null);
    Below(u, a, f, z, Null);
  }

  /** `rotate` for a right child of a right child, the mirror image of
      `RotateLL`. */
  lemma {:induction false} RotateRR(sg: Tree, z: int, a: seq<Node>)
    requires sg.Br? && sg.right.Br? && sg.right.right.Br? && sg.right.right.id == z && Unique(sg)
    requires 0 <= sg.id < |a| && 0 <= sg.right.id < |a|
    requires BlackBalanced(sg, a) && RedOkBut(sg, z, a)
    requires ColourOf(a, sg.right.id) == Red && ColourOf(a, Root(sg.left)) == Black
    ensures var s, f := RotL(sg), Swap(a, sg.right.id, sg.id);
      && BlackBalanced(s, f) && BlackHeight(s, f) == BlackHeight(sg, a)
      && RedOk(s, f) && ColourOf(f, s.id) == Black && s.left.Br? && s.left.id == sg.id && s.id != sg.id
  {
    var u, g, c, p, zt := sg.left, sg.id, sg.right.left, sg.right.id, sg.right.right;
    var f := Swap(a, p, g);
    SwapColours(a, p, g);
    assert Ids(sg.right) == Ids(c) + {p} + Ids(zt);
    assert z in Ids(zt);
    assert ColourOf(a, g) == Black;
    Below(zt, a, f, z, Null);
    Below(c, a, f, z, Null);
    Below(u, a, f, z, Null);
  }

  /** `rotate` for a left child `z` of a right child, the mirror image of
      `RotateLR`. */
  lemma {:induction false} RotateRL(sg: Tree, z: int, a: seq<Node>)
    requires sg.Br? && sg.right.Br? && sg.right.left.Br? && sg.right.left.id == z && Unique(sg)
    requires 0 <= sg.id < |a| && 0 <= z < |a|
    requires BlackBalanced(sg, a) && RedOkBut(sg, z, a)
    requires ColourOf(a, sg.right.id) == Red && ColourOf(a, z) == Red && ColourOf(a, Root(sg.left)) == Black
    ensures var s, f := RotRL(sg), Swap(a, z, sg.id);
      && BlackBalanced(s, f) && BlackHeight(s, f) == BlackHeight(sg, a)
      && RedOk(s, f) && ColourOf(f, s.id) == Black && s.left.Br? && s.left.id == sg.id && s.id != sg.id
  {
    var u, g, p, c := sg.left, sg.id, sg.right.id, sg.right.right;
    var z1, z2 := sg.right.left.left, sg.right.left.right;
    assert RotRL(sg) == Br(Br(u, g, z1), z, Br(z2, p, c));
    var f := Swap(a, z, g);
    SwapColours(a, z, g);
    assert Ids(sg.right.left) == Ids(z1) + {z} + Ids(z2);
    assert Ids(sg.right) == Ids(sg.right.left) + {p} + Ids(c);
    assert BlackBalanced(sg.right, a) && RedOkBut(sg.right, z, a) && Unique(sg.right);
    assert BlackBalanced(sg.right.left, a) && RedOkBut(sg.right.left, z, a) && Unique(sg.right.left);
    assert ColourOf(a, g) == Black;
    Below(c, a, f, z, Null);
    Below(z1, a, f, z, Null);
    Below(z2, a, f, z, Null);
    Below(u, a, f, z, Null);
  }

  /** The state after `rotate`'s colour swap, from the facts the single
      steps establish. */
  lemma {:induction false} RotateTail(t: Tree, z: int, g: int, s: Tree, a: seq<Node>, m: seq<Node>, b: seq<Node>, f: seq<Node>)
    requires Linked(t, Null, a) && Unique(t) && Pending(t, z, a) && z != Root(t)
    requires g in Ids(t) && z in Ids(Sub(t, g)) && 0 <= g < |a|
    requires s.Br? && Unique(s) && Ids(s) == Ids(Sub(t, g)) && 0 <= s.id < |a| && s.id != g
    requires var w := Swap(a, s.id, g);
      && BlackBalanced(s, w) && BlackHeight(s, w) == BlackHeight(Sub(t, g), a)
      && RedOk(s, w) && ColourOf(w, s.id) == Black
    requires SamePayload(a, m) && SameKeys(m, b) && |b| == |m| && forall y :: ColourOf(b, y) == ColourOf(m, y)
    requires Linked(Replace(t, g, s), Null, b) && Unique(Replace(t, g, s)) && Order(Replace(t, g, s)) == Order(t)
    requires f == b[s.id := b[s.id].(colour := b[g].colour)][g := b[g].(colour := b[s.id].colour)]
    ensures Balanced(t, a, Replace(t, g, s), f, Root(Replace(t, g, s)))
    ensures |f| == |a|
    ensures forall w ::
      ColourOf(f, w) == if w == s.id then ColourOf(a, g) else if w == g then ColourOf(a, s.id) else ColourOf(a, w)
  {
    var x, u := s.id, Replace(t, g, s);
    SamePayloadColours(a, m);
    SwappedColours(u, a, b, f, x, g);
    SwapColours(a, x, g);
    ColourFrame(s, Swap(a, x, g), f, Null);
    SubFacts(t, g);
    assert x in Ids(s) && g in Ids(Sub(t, g));
    RotateFinish(t, g, z, s, a, f);
  }

  /** The rotated, recoloured subtree `s` put in the grandparent's place
      gives a red-black tree. */
  lemma {:induction false} RotateFinish(t: Tree, g: int, z: int, s: Tree, a: seq<Node>, f: seq<Node>)
    requires Unique(t) && g in Ids(t) && z in Ids(Sub(t, g)) && z != Root(t)
    requires BlackBalanced(t, a) && RedOkBut(t, z, a) && ColourOf(a, Root(t)) == Black
    requires Unique(s) && Ids(s) == Ids(Sub(t, g)) && s.Br?
    requires BlackBalanced(s, f) && BlackHeight(s, f) == BlackHeight(Sub(t, g), a)
    requires RedOk(s, f) && ColourOf(f, s.id) == Black
    requires forall y :: y in Ids(t) && y !in Ids(Sub(t, g)) ==> ColourOf(f, y) == ColourOf(a, y)
    ensures IsRedBlack(Replace(t, g, s), f)
  {
    RbReplace(t, g, s, a, f, z, Null);
    ReplaceSeq(t, g, s);
    if g != Root(t) {
      RootOutside(t, g);
    }
  }

  // ---------------------------------------------------------------------
  // The properties the red-black test suite checks after every `add`.

  /** The test suite's `compute_black_height`: the Black height of a
      subtree, or -1 once a node with different Black heights below it is
      found. */
  ghost function ComputeBlackHeight(t: Tree, a: seq<Node>): (r: int)
    ensures r >= 0 <==> BlackBalanced(t, a)
    ensures r >= 0 ==> r == BlackHeight(t, a)
    ensures r >= -1
  {
    match t
    case Nil => 0
    case Br(l, x, rt) =>
      var hl := ComputeBlackHeight(l, a);
      var hr := ComputeBlackHeight(rt, a);
      if hl != hr || hl == -1 then -1
      else hl + (if ColourOf(a, x) == Black then 1 else 0)
  }

  /** The test suite's `tree_height`: 0 for nothing, 1 for a leaf; a node
      with one child adds nothing to that child's height; a node with two
      children adds 1 to the larger (`useMax`) or smaller of their heights. */
  ghost function TreeHeight(t: Tree, useMax: bool): (r: nat)
    ensures t != Nil ==> 1 <= r
    ensures r <= Height(t)
  {
    match t
    case Nil => 0
    case Br(l, _, rt) =>
      if l == Nil && rt == Nil then 1
      else if l == Nil then TreeHeight(rt, useMax)
      else if rt == Nil then TreeHeight(l, useMax)
      else
        var hl, hr := TreeHeight(l, useMax), TreeHeight(rt, useMax);
        (if useMax then (if hl < hr then hr else hl) else (if hl < hr then hl else hr)) + 1
  }

  /** The number of nodes on a longest downward path. */
  ghost function Height(t: Tree): nat
  {
    match t
    case Nil => 0
    case Br(l, _, r) => 1 + (if Height(l) < Height(r) then Height(r) else Height(l))
  }

  /** Every path meets at least as many binary nodes and leaves as Black
      nodes. */
  lemma {:induction false} MinHeightCoversBlack(t: Tree, a: seq<Node>)
    requires BlackBalanced(t, a)
    ensures BlackHeight(t, a) <= TreeHeight(t, false)
  {
    match t
    case Nil =>
    case Br(l, _, r) =>
      if l != Nil && r != Nil {
        MinHeightCoversBlack(l, a);
        MinHeightCoversBlack(r, a);
      }
  }

  /** Without a Red-Red edge a path holds at most as many Red nodes as Black
      ones, plus a Red top. */
  lemma {:induction false} HeightBound(t: Tree, a: seq<Node>)
    requires BlackBalanced(t, a) && RedOk(t, a)
    ensures Height(t) <= 2 * BlackHeight(t, a) + (if t != Nil && ColourOf(a, t.id) == Red then 1 else 0)
  {
    match t
    case Nil =>
    case Br(l, _, r) =>
      HeightBound(l, a);
      HeightBound(r, a);
  }

  /** The test "distance to furthest leaf is <= 2 * distance to closest
      leaf": it holds for every red-black tree. */
  lemma RedBlackHeights(t: Tree, a: seq<Node>)
    requires IsRedBlack(t, a)
    ensures TreeHeight(t, true) <= 2 * TreeHeight(t, false)
  {
    HeightBound(t, a);
    MinHeightCoversBlack(t, a);
  }
}
