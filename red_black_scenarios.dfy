// The insertion scenarios of the red-black tree's own tests
// (red_black_tree/red_black_tree.test.cpp), followed through the model: each
// `add` is one `RbInsert` step on a known shape and payload, and the result
// is read back in level order, keys and colours, as the tests read it.
module RedBlackScenarios {
  import opened TreeShape
  import opened TreeUtils
  import opened RedBlackTree
  import opened BinaryTree

  /** A node with key `k` and colour `c`; the scenarios fix only these. */
  function U(k: int, c: Colour): Node
  {
    Node(k, Null, Null, Null, c)
  }

  /** The first key becomes a Black root. */
  lemma FirstInsert(k: int)
    ensures RbInsert(Nil, [], k) == (Br(Nil, 0, Nil), [U(k, Black)])
  {
    var h := Hung([], k);
    HungRed(Nil, [], k);
    var t := InsertLeaf(Nil, h, 0);
    assert t == Br(Nil, 0, Nil) && Root(t) == 0;
    assert RbInsert(Nil, [], k) == Fixup(t, h, 0);
    assert h[0 := h[0].(colour := Black)] == [U(k, Black)];
  }

  /** A Red child under a Black parent needs no balancing. */
  lemma FiveUnderTen()
    ensures RbInsert(Br(Nil, 0, Nil), [U(10, Black)], 5) == (Br(Br(Nil, 1, Nil), 0, Nil), [U(10, Black), U(5, Red)])
  {
    var a := [U(10, Black)];
    var h := Hung(a, 5);
    var t := InsertLeaf(Br(Nil, 0, Nil), h, 1);
    assert t == Br(Br(Nil, 1, Nil), 0, Nil);
    assert Parent(t, 1) == 0;
    assert RbInsert(Br(Nil, 0, Nil), a, 5) == Fixup(t, h, 1);
    assert h == [U(10, Black), U(5, Red)];
  }

  /** A Red child to the right of the Black root. */
  lemma FifteenRightOfTen()
    ensures RbInsert(Br(Br(Nil, 1, Nil), 0, Nil), [U(10, Black), U(5, Red)], 15)
      == (Br(Br(Nil, 1, Nil), 0, Br(Nil, 2, Nil)), [U(10, Black), U(5, Red), U(15, Red)])
  {
    var a := [U(10, Black), U(5, Red)];
    var h := Hung(a, 15);
    var t := InsertLeaf(Br(Br(Nil, 1, Nil), 0, Nil), h, 2);
    assert t == Br(Br(Nil, 1, Nil), 0, Br(Nil, 2, Nil));
    assert Parent(t, 2) == 0;
    assert RbInsert(Br(Br(Nil, 1, Nil), 0, Nil), a, 15) == Fixup(t, h, 2);
    assert h == [U(10, Black), U(5, Red), U(15, Red)];
  }

  /** Parent and aunt Red: both turn Black, the grandparent turns Red, and
      then, being the root, Black again. */
  lemma TwentyRecolours()
    ensures RbInsert(Br(Br(Nil, 1, Nil), 0, Br(Nil, 2, Nil)), [U(10, Black), U(5, Red), U(15, Red)], 20)
      == (Br(Br(Nil, 1, Nil), 0, Br(Nil, 2, Br(Nil, 3, Nil))), [U(10, Black), U(5, Black), U(15, Black), U(20, Red)])
  {
    var s := Br(Br(Nil, 1, Nil), 0, Br(Nil, 2, Nil));
    var a := [U(10, Black), U(5, Red), U(15, Red)];
    var h := Hung(a, 20);
    HungRed(s, a, 20);
    var t := InsertLeaf(s, h, 3);
    assert KeyOf(h, 3) == 20 && KeyOf(h, 0) == 10 && KeyOf(h, 2) == 15;
    assert InsertLeaf(Br(Nil, 2, Nil), h, 3) == Br(Nil, 2, Br(Nil, 3, Nil));
    assert t == Br(Br(Nil, 1, Nil), 0, Br(Nil, 2, Br(Nil, 3, Nil)));
    assert Parent(t, 3) == 2 && Parent(t, 2) == 0 && Grand(t, 3) == 0;
    assert Aunt(t, 3) == 1;
    assert RbInsert(s, a, 20) == Fixup(t, h, 3);
    var b := RecolourAt(t, h, 3);
    assert b == [U(10, Red), U(5, Black), U(15, Black), U(20, Red)] by {
      assert ColourOf(b, 0) == Red && ColourOf(b, 1) == Black && ColourOf(b, 2) == Black && ColourOf(b, 3) == Red;
    }
    assert Fixup(t, h, 3) == Fixup(t, b, 0);
    assert Fixup(t, b, 0) == (t, b[0 := b[0].(colour := Black)]);
    assert b[0 := b[0].(colour := Black)] == [U(10, Black), U(5, Black), U(15, Black), U(20, Red)];
  }

  /** The same on the right: no balancing. */
  lemma TwelveRightOfTen()
    ensures RbInsert(Br(Nil, 0, Nil), [U(10, Black)], 12) == (Br(Nil, 0, Br(Nil, 1, Nil)), [U(10, Black), U(12, Red)])
  {
    var a := [U(10, Black)];
    var h := Hung(a, 12);
    var t := InsertLeaf(Br(Nil, 0, Nil), h, 1);
    assert t == Br(Nil, 0, Br(Nil, 1, Nil));
    assert Parent(t, 1) == 0;
    assert RbInsert(Br(Nil, 0, Nil), a, 12) == Fixup(t, h, 1);
    assert h == [U(10, Black), U(12, Red)];
  }

  /** Left child of a left child with a Black (missing) aunt: rotate right
      at the grandparent and swap the two colours. */
  lemma TwoRotates()
    ensures RbInsert(Br(Br(Nil, 1, Nil), 0, Nil), [U(10, Black), U(5, Red)], 2)
      == (Br(Br(Nil, 2, Nil), 1, Br(Nil, 0, Nil)), [U(10, Red), U(5, Black), U(2, Red)])
  {
    var s := Br(Br(Nil, 1, Nil), 0, Nil);
    var a := [U(10, Black), U(5, Red)];
    var h := Hung(a, 2);
    HungRed(s, a, 2);
    var t := InsertLeaf(s, h, 2);
    assert KeyOf(h, 2) == 2 && KeyOf(h, 0) == 10 && KeyOf(h, 1) == 5;
    assert InsertLeaf(Br(Nil, 1, Nil), h, 2) == Br(Br(Nil, 2, Nil), 1, Nil);
    assert t == Br(Br(Br(Nil, 2, Nil), 1, Nil), 0, Nil);
    assert Parent(t, 2) == 1 && Parent(t, 1) == 0 && Grand(t, 2) == 0;
    assert Aunt(t, 2) == Null;
    assert RbInsert(s, a, 2) == Fixup(t, h, 2);
    assert RotationFor(t, 2) == RotR(t);
    assert Fixup(t, h, 2) == (RotR(t), Swap(h, 1, 0));
    assert Swap(h, 1, 0) == [U(10, Red), U(5, Black), U(2, Red)];
  }

  /** Right child of a left child: rotate left then right. */
  lemma SevenRotates()
    ensures RbInsert(Br(Br(Nil, 1, Nil), 0, Nil), [U(10, Black), U(5, Red)], 7)
      == (Br(Br(Nil, 1, Nil), 2, Br(Nil, 0, Nil)), [U(10, Red), U(5, Red), U(7, Black)])
  {
    var s := Br(Br(Nil, 1, Nil), 0, Nil);
    var a := [U(10, Black), U(5, Red)];
    var h := Hung(a, 7);
    HungRed(s, a, 7);
    var t := InsertLeaf(s, h, 2);
    assert KeyOf(h, 2) == 7 && KeyOf(h, 0) == 10 && KeyOf(h, 1) == 5;
    assert InsertLeaf(Br(Nil, 1, Nil), h, 2) == Br(Nil, 1, Br(Nil, 2, Nil));
    assert t == Br(Br(Nil, 1, Br(Nil, 2, Nil)), 0, Nil);
    assert Parent(t, 2) == 1 && Parent(t, 1) == 0 && Grand(t, 2) == 0;
    assert Aunt(t, 2) == Null;
    assert RbInsert(s, a, 7) == Fixup(t, h, 2);
    assert RotationFor(t, 2) == RotLR(t);
    assert RotLR(t) == Br(Br(Nil, 1, Nil), 2, Br(Nil, 0, Nil));
    assert Fixup(t, h, 2) == (RotLR(t), Swap(h, 2, 0));
    assert Swap(h, 2, 0) == [U(10, Red), U(5, Red), U(7, Black)];
  }

  /** Right child of a right child: rotate left at the grandparent. */
  lemma FifteenRotates()
    ensures RbInsert(Br(Nil, 0, Br(Nil, 1, Nil)), [U(10, Black), U(12, Red)], 15)
      == (Br(Br(Nil, 0, Nil), 1, Br(Nil, 2, Nil)), [U(10, Red), U(12, Black), U(15, Red)])
  {
    var s := Br(Nil, 0, Br(Nil, 1, Nil));
    var a := [U(10, Black), U(12, Red)];
    var h := Hung(a, 15);
    HungRed(s, a, 15);
    var t := InsertLeaf(s, h, 2);
    assert KeyOf(h, 2) == 15 && KeyOf(h, 0) == 10 && KeyOf(h, 1) == 12;
    assert InsertLeaf(Br(Nil, 1, Nil), h, 2) == Br(Nil, 1, Br(Nil, 2, Nil));
    assert t == Br(Nil, 0, Br(Nil, 1, Br(Nil, 2, Nil)));
    assert Parent(t, 2) == 1 && Parent(t, 1) == 0 && Grand(t, 2) == 0;
    assert Aunt(t, 2) == Null;
    assert RbInsert(s, a, 15) == Fixup(t, h, 2);
    assert RotationFor(t, 2) == RotL(t);
    assert Fixup(t, h, 2) == (RotL(t), Swap(h, 1, 0));
    assert Swap(h, 1, 0) == [U(10, Red), U(12, Black), U(15, Red)];
  }

  /** Left child of a right child: rotate right then left. */
  lemma ElevenRotates()
    ensures RbInsert(Br(Nil, 0, Br(Nil, 1, Nil)), [U(10, Black), U(12, Red)], 11)
      == (Br(Br(Nil, 0, Nil), 2, Br(Nil, 1, Nil)), [U(10, Red), U(12, Red), U(11, Black)])
  {
    var s := Br(Nil, 0, Br(Nil, 1, Nil));
    var a := [U(10, Black), U(12, Red)];
    var h := Hung(a, 11);
    HungRed(s, a, 11);
    var t := InsertLeaf(s, h, 2);
    assert KeyOf(h, 2) == 11 && KeyOf(h, 0) == 10 && KeyOf(h, 1) == 12;
    assert InsertLeaf(Br(Nil, 1, Nil), h, 2) == Br(Br(Nil, 2, Nil), 1, Nil);
    assert t == Br(Nil, 0, Br(Br(Nil, 2, Nil), 1, Nil));
    assert Parent(t, 2) == 1 && Parent(t, 1) == 0 && Grand(t, 2) == 0;
    assert Aunt(t, 2) == Null;
    assert RbInsert(s, a, 11) == Fixup(t, h, 2);
    assert RotationFor(t, 2) == RotRL(t);
    assert RotRL(t) == Br(Br(Nil, 0, Nil), 2, Br(Nil, 1, Nil));
    assert Fixup(t, h, 2) == (RotRL(t), Swap(h, 2, 0));
    assert Swap(h, 2, 0) == [U(10, Red), U(12, Red), U(11, Black)];
  }

  /** The colours of the nodes `s`, in order; the colour counterpart of
      `KeysOf`. */
  ghost function ColoursOf(s: seq<int>, a: seq<Node>): (r: seq<Colour>)
    ensures |r| == |s| && forall i :: 0 <= i < |s| ==> r[i] == ColourOf(a, s[i])
  {
    seq(|s|, i requires 0 <= i < |s| => ColourOf(a, s[i]))
  }

  /** A perfect three-node shape in level order: top, left, right. */
  lemma LevelOrderThree(x: int, y: int, z: int)
    ensures LevelOrder(Br(Br(Nil, x, Nil), y, Br(Nil, z, Nil))) == [y, x, z]
  {
    var l, r := Br(Nil, x, Nil), Br(Nil, z, Nil);
    var t := Br(l, y, r);
    assert Kids(t) == [l, r];
    assert Kids(l) == [] && Kids(r) == [];
    assert [t][1..] + Kids(t) == [l, r];
    assert Level([t]) == [y] + Level([l, r]);
    assert Level([l, r]) == [x] + Level([r]);
    assert Level([r]) == [z] + Level([]);
  }

  /** The red-black conditions and the order read only keys and colours. */
  lemma PayloadFacts(u: Tree, c: seq<Node>, m: seq<Node>)
    requires SamePayload(c, m) && InArena(u, |m|) && Ordered(u, m) && IsRedBlack(u, m)
    ensures InArena(u, |c|) && Ordered(u, c) && IsRedBlack(u, c)
  {
    SamePayloadKeys(u, c, m);
    SamePayloadColours(c, m);
    ColourFrame(u, m, c, Null);
  }

  /** `add(k)` on a red-black tree whose shape and payload are known: the
      new shape and payload are those `RbInsert` computes on the known ones. */
  method AddKnown(t: BinaryTree, k: int, ghost s: Tree, ghost lit: seq<Node>, ghost u: Tree, ghost c: seq<Node>)
    requires t.Valid() && t.policy == RedBlackBalancing && t.shape == s && SamePayload(lit, t.arena.nodes)
    requires Unique(s) && InArena(s, |lit|) && Ordered(s, lit) && IsRedBlack(s, lit)
    requires RbInsert(s, lit, k) == (u, c)
    modifies t, t.arena
    ensures t.Valid() && t.policy == RedBlackBalancing && t.shape == u && SamePayload(c, t.arena.nodes)
    ensures Unique(u) && InArena(u, |c|) && Ordered(u, c) && IsRedBlack(u, c)
  {
    ghost var b := t.arena.nodes;
    t.Add(k);
    RbInsertPayload(s, lit, b, k);
    PayloadFacts(u, c, t.arena.nodes);
  }

  /** The four-node tree after the recolouring, in level order. */
  lemma LevelOrderFour()
    ensures LevelOrder(Br(Br(Nil, 1, Nil), 0, Br(Nil, 2, Br(Nil, 3, Nil)))) == [0, 1, 2, 3]
  {
    var d := Br(Nil, 3, Nil);
    var l, r := Br(Nil, 1, Nil), Br(Nil, 2, d);
    var t := Br(l, 0, r);
    assert [t][1..] + Kids(t) == [l, r];
    assert Level([t]) == [0] + Level([l, r]);
    assert [l, r][1..] + Kids(l) == [r];
    assert Level([l, r]) == [1] + Level([r]);
    assert [r][1..] + Kids(r) == [d];
    assert Level([r]) == [2] + Level([d]);
    assert Level([d]) == [3] + Level([]);
  }

  /** The recoloured tree read back. */
  lemma RecolouredRead()
    ensures var t, c := Br(Br(Nil, 1, Nil), 0, Br(Nil, 2, Br(Nil, 3, Nil))), [U(10, Black), U(5, Black), U(15, Black), U(20, Red)];
      && Keys(t, c) == [5, 10, 15, 20]
      && KeysOf(LevelOrder(t), c) == [10, 5, 15, 20]
      && ColoursOf(LevelOrder(t), c) == [Black, Black, Black, Red]
  {
    LevelOrderFour();
    var t, c := Br(Br(Nil, 1, Nil), 0, Br(Nil, 2, Br(Nil, 3, Nil))), [U(10, Black), U(5, Black), U(15, Black), U(20, Red)];
    assert Keys(Br(Nil, 2, Br(Nil, 3, Nil)), c) == [15, 20];
    assert Keys(t, c) == [5] + [10] + [15, 20];
  }

  /** The keys and colours read through the tree depend on the payload only. */
  lemma Seen(u: Tree, c: seq<Node>, m: seq<Node>)
    requires SamePayload(c, m)
    ensures Keys(u, m) == Keys(u, c)
    ensures KeysOf(LevelOrder(u), m) == KeysOf(LevelOrder(u), c)
    ensures ColoursOf(LevelOrder(u), m) == ColoursOf(LevelOrder(u), c)
  {
    SamePayloadKeys(u, c, m);
  }

  /** 10, 5, 15, then 20 under 15: parent and aunt are recoloured. */
  method RecolourScenario() returns (t: BinaryTree)
    ensures t.Valid() && t.policy == RedBlackBalancing && t.Contents() == [5, 10, 15, 20]
    ensures KeysOf(LevelOrder(t.shape), t.arena.nodes) == [10, 5, 15, 20]
    ensures ColoursOf(LevelOrder(t.shape), t.arena.nodes) == [Black, Black, Black, Red]
  {
    t := new BinaryTree(RedBlackBalancing);
    FirstInsert(10);
    AddKnown(t, 10, Nil, [], Br(Nil, 0, Nil), [U(10, Black)]);
    FiveUnderTen();
    AddKnown(t, 5, Br(Nil, 0, Nil), [U(10, Black)], Br(Br(Nil, 1, Nil), 0, Nil), [U(10, Black), U(5, Red)]);
    FifteenRightOfTen();
    AddKnown(t, 15, Br(Br(Nil, 1, Nil), 0, Nil), [U(10, Black), U(5, Red)],
      Br(Br(Nil, 1, Nil), 0, Br(Nil, 2, Nil)), [U(10, Black), U(5, Red), U(15, Red)]);
    TwentyRecolours();
    ghost var c := [U(10, Black), U(5, Black), U(15, Black), U(20, Red)];
    AddKnown(t, 20, Br(Br(Nil, 1, Nil), 0, Br(Nil, 2, Nil)), [U(10, Black), U(5, Red), U(15, Red)],
      Br(Br(Nil, 1, Nil), 0, Br(Nil, 2, Br(Nil, 3, Nil))), c);
    RecolouredRead();
    Seen(t.shape, c, t.arena.nodes);
  }

  /** A perfect three-node tree read in level order and in order. */
  lemma ThreeRead(x: int, y: int, z: int, c: seq<Node>)
    requires |c| == 3 && 0 <= x < 3 && 0 <= y < 3 && 0 <= z < 3
    ensures var t := Br(Br(Nil, x, Nil), y, Br(Nil, z, Nil));
      && Keys(t, c) == [c[x].key, c[y].key, c[z].key]
      && KeysOf(LevelOrder(t), c) == [c[y].key, c[x].key, c[z].key]
      && ColoursOf(LevelOrder(t), c) == [c[y].colour, c[x].colour, c[z].colour]
  {
    LevelOrderThree(x, y, z);
    var t := Br(Br(Nil, x, Nil), y, Br(Nil, z, Nil));
    assert Order(t) == [x, y, z] by {
      assert Order(t.left) == [x] && Order(t.right) == [z];
    }
  }

  /** `add(42)` on an empty red-black tree: the one node is Black. */
  method FirstElementScenario() returns (t: BinaryTree)
    ensures t.Valid() && t.policy == RedBlackBalancing && t.Contents() == [42]
    ensures KeysOf(LevelOrder(t.shape), t.arena.nodes) == [42]
    ensures ColoursOf(LevelOrder(t.shape), t.arena.nodes) == [Black]
  {
    t := new BinaryTree(RedBlackBalancing);
    FirstInsert(42);
    AddKnown(t, 42, Nil, [], Br(Nil, 0, Nil), [U(42, Black)]);
    assert LevelOrder(Br(Nil, 0, Nil)) == [0] by {
      assert [Br(Nil, 0, Nil)][1..] + Kids(Br(Nil, 0, Nil)) == [];
    }
    Seen(t.shape, [U(42, Black)], t.arena.nodes);
  }

  /** 10, 5, then 2 under 5: one right rotation at 10. */
  method LeftLeftScenario() returns (t: BinaryTree)
    ensures t.Valid() && t.policy == RedBlackBalancing && t.Contents() == [2, 5, 10]
    ensures KeysOf(LevelOrder(t.shape), t.arena.nodes) == [5, 2, 10]
    ensures ColoursOf(LevelOrder(t.shape), t.arena.nodes) == [Black, Red, Red]
  {
    t := new BinaryTree(RedBlackBalancing);
    FirstInsert(10);
    AddKnown(t, 10, Nil, [], Br(Nil, 0, Nil), [U(10, Black)]);
    FiveUnderTen();
    AddKnown(t, 5, Br(Nil, 0, Nil), [U(10, Black)], Br(Br(Nil, 1, Nil), 0, Nil), [U(10, Black), U(5, Red)]);
    TwoRotates();
    ghost var c := [U(10, Red), U(5, Black), U(2, Red)];
    AddKnown(t, 2, Br(Br(Nil, 1, Nil), 0, Nil), [U(10, Black), U(5, Red)], Br(Br(Nil, 2, Nil), 1, Br(Nil, 0, Nil)), c);
    ThreeRead(2, 1, 0, c);
    Seen(t.shape, c, t.arena.nodes);
  }

  /** 10, 5, then 7 under 5: rotations at 5 and then at 10. */
  method LeftRightScenario() returns (t: BinaryTree)
    ensures t.Valid() && t.policy == RedBlackBalancing && t.Contents() == [5, 7, 10]
    ensures KeysOf(LevelOrder(t.shape), t.arena.nodes) == [7, 5, 10]
    ensures ColoursOf(LevelOrder(t.shape), t.arena.nodes) == [Black, Red, Red]
  {
    t := new BinaryTree(RedBlackBalancing);
    FirstInsert(10);
    AddKnown(t, 10, Nil, [], Br(Nil, 0, Nil), [U(10, Black)]);
    FiveUnderTen();
    AddKnown(t, 5, Br(Nil, 0, Nil), [U(10, Black)], Br(Br(Nil, 1, Nil), 0, Nil), [U(10, Black), U(5, Red)]);
    SevenRotates();
    ghost var c := [U(10, Red), U(5, Red), U(7, Black)];
    AddKnown(t, 7, Br(Br(Nil, 1, Nil), 0, Nil), [U(10, Black), U(5, Red)], Br(Br(Nil, 1, Nil), 2, Br(Nil, 0, Nil)), c);
    ThreeRead(1, 2, 0, c);
    Seen(t.shape, c, t.arena.nodes);
  }

  /** 10, 12, then 15 under 12: one left rotation at 10. */
  method RightRightScenario() returns (t: BinaryTree)
    ensures t.Valid() && t.policy == RedBlackBalancing && t.Contents() == [10, 12, 15]
    ensures KeysOf(LevelOrder(t.shape), t.arena.nodes) == [12, 10, 15]
    ensures ColoursOf(LevelOrder(t.shape), t.arena.nodes) == [Black, Red, Red]
  {
    t := new BinaryTree(RedBlackBalancing);
    FirstInsert(10);
    AddKnown(t, 10, Nil, [], Br(Nil, 0, Nil), [U(10, Black)]);
    TwelveRightOfTen();
    AddKnown(t, 12, Br(Nil, 0, Nil), [U(10, Black)], Br(Nil, 0, Br(Nil, 1, Nil)), [U(10, Black), U(12, Red)]);
    FifteenRotates();
    ghost var c := [U(10, Red), U(12, Black), U(15, Red)];
    AddKnown(t, 15, Br(Nil, 0, Br(Nil, 1, Nil)), [U(10, Black), U(12, Red)], Br(Br(Nil, 0, Nil), 1, Br(Nil, 2, Nil)), c);
    ThreeRead(0, 1, 2, c);
    Seen(t.shape, c, t.arena.nodes);
  }

  /** 10, 12, then 11 under 12: rotations at 12 and then at 10. */
  method RightLeftScenario() returns (t: BinaryTree)
    ensures t.Valid() && t.policy == RedBlackBalancing && t.Contents() == [10, 11, 12]
    ensures KeysOf(LevelOrder(t.shape), t.arena.nodes) == [11, 10, 12]
    ensures ColoursOf(LevelOrder(t.shape), t.arena.nodes) == [Black, Red, Red]
  {
    t := new BinaryTree(RedBlackBalancing);
    FirstInsert(10);
    AddKnown(t, 10, Nil, [], Br(Nil, 0, Nil), [U(10, Black)]);
    TwelveRightOfTen();
    AddKnown(t, 12, Br(Nil, 0, Nil), [U(10, Black)], Br(Nil, 0, Br(Nil, 1, Nil)), [U(10, Black), U(12, Red)]);
    ElevenRotates();
    ghost var c := [U(10, Red), U(12, Red), U(11, Black)];
    AddKnown(t, 11, Br(Nil, 0, Br(Nil, 1, Nil)), [U(10, Black), U(12, Red)], Br(Br(Nil, 0, Nil), 2, Br(Nil, 1, Nil)), c);
    ThreeRead(0, 2, 1, c);
    Seen(t.shape, c, t.arena.nodes);
  }
}
