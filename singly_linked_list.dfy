// A singly linked list with a cached element count
// (linked_list/singly_linked_list.hpp).
//
// The nodes live in an arena `nodes: seq<Node>` inside the list object: a
// pointer `node<T>*` is an index into the arena and `nullptr` is `Null`.
// Allocating a node appends to the arena; a node the source frees simply
// becomes unreachable. The ghost `order` lists the node indices from `_head`
// to the tail. Elements are modelled as `int` (the source needs `==` and, for
// `merge`, `<`). An iterator is the node index it points to; `end()` is `Null`.
module SinglyLinkedList {
  import opened Reverse

  const Null: int := -1

  /** `std::size_t` is 64 bits wide and wraps around. */
  const SIZE_MAX: int := 0xFFFF_FFFF_FFFF_FFFF
  type SizeT = x: int | 0 <= x <= SIZE_MAX

  /** `++` on a `size_t`: arithmetic modulo 2^64. */
  function Inc(n: SizeT): (r: SizeT)
    ensures r == (n + 1) % (SIZE_MAX + 1)
    ensures n < SIZE_MAX ==> r == n + 1
    ensures n == SIZE_MAX ==> r == 0
  {
    if n == SIZE_MAX then 0 else n + 1
  }

  /** `--` on a `size_t`: arithmetic modulo 2^64, so 0 goes to `SIZE_MAX`. */
  function Dec(n: SizeT): (r: SizeT)
    ensures r == (n - 1) % (SIZE_MAX + 1)
    ensures n > 0 ==> r == n - 1
    ensures n == 0 ==> r == SIZE_MAX
  {
    if n == 0 then SIZE_MAX else n - 1
  }

  function AddSize(n: SizeT, k: nat): (r: SizeT)
    ensures n + k <= SIZE_MAX ==> r == n + k
  {
    (n + k) % (SIZE_MAX + 1)
  }

  /** `++` and `--` undo each other, also across the wrap-around. */
  lemma IncDecInverse(n: SizeT)
    ensures Dec(Inc(n)) == n && Inc(Dec(n)) == n
  {
  }

  /** `impl::node<T>`: a value and the owning pointer to the next node. */
  datatype Node = Node(value: int, next: int)

  /** A slot that holds a `std::unique_ptr<node>`: the list's `_head`, or the
      `next` member of a node. The source walks `next_t*` pointers to slots. */
  datatype Link = HeadLink | NextLink(node: int)

  // ---------------------------------------------------------------------
  // Chains of nodes in an arena.

  ghost predicate InArena(ids: seq<int>, nodes: seq<Node>)
  {
    forall i :: 0 <= i < |ids| ==> 0 <= ids[i] < |nodes|
  }

  ghost predicate Distinct(ids: seq<int>)
  {
    forall i, j :: 0 <= i < j < |ids| ==> ids[i] != ids[j]
  }

  ghost predicate Disjoint(a: seq<int>, b: seq<int>)
  {
    forall x :: x in a ==> x !in b
  }

  /** The pointer found at position `i` of a segment that continues to `stop`. */
  ghost function Follow(ids: seq<int>, i: nat, stop: int): int
    requires i <= |ids|
  {
    if i < |ids| then ids[i] else stop
  }

  /** `ids` is a run of arena nodes starting at the pointer `first`, each
      node's `next` pointing at the following one and the last at `stop`. */
  ghost predicate Seg(ids: seq<int>, first: int, stop: int, nodes: seq<Node>)
  {
    && InArena(ids, nodes)
    && first == Follow(ids, 0, stop)
    && (forall i {:trigger nodes[ids[i]]} :: 0 <= i < |ids| ==> nodes[ids[i]].next == Follow(ids, i + 1, stop))
  }

  /** The values stored at `ids`, in order. */
  ghost function Values(ids: seq<int>, nodes: seq<Node>): (r: seq<int>)
    requires InArena(ids, nodes)
    ensures |r| == |ids|
    ensures forall i :: 0 <= i < |ids| ==> r[i] == nodes[ids[i]].value
  {
    seq(|ids|, i requires 0 <= i < |ids| => nodes[ids[i]].value)
  }

  /** Position of `x` in `ids`; `|ids|` when absent (the end position). */
  ghost function IndexOf(ids: seq<int>, x: int): (k: nat)
    ensures k <= |ids|
    ensures k < |ids| ==> ids[k] == x
    ensures x in ids <==> k < |ids|
  {
    if ids == [] then 0 else if ids[0] == x then 0 else 1 + IndexOf(ids[1..], x)
  }

  lemma IndexOfDistinct(ids: seq<int>, k: nat)
    requires k < |ids| && Distinct(ids)
    ensures IndexOf(ids, ids[k]) == k
  {
    if k > 0 {
      assert ids[0] != ids[k];
      IndexOfDistinct(ids[1..], k - 1);
    }
  }

  /** A segment is followed to its end only at its last position. */
  lemma FollowEnd(ids: seq<int>, i: nat, nodes: seq<Node>)
    requires InArena(ids, nodes) && i <= |ids|
    ensures Follow(ids, i, Null) == Null <==> i == |ids|
  {
  }

  lemma TakeSnoc(r: seq<int>, i: nat)
    requires i < |r|
    ensures r[..i + 1] == r[..i] + [r[i]]
  {
  }

  lemma ValuesConcat(x: seq<int>, y: seq<int>, nodes: seq<Node>)
    requires InArena(x, nodes) && InArena(y, nodes)
    ensures InArena(x + y, nodes)
    ensures Values(x + y, nodes) == Values(x, nodes) + Values(y, nodes)
  {
  }

  /** Values depend on nothing but the `value` fields. */
  lemma ValuesSameValues(ids: seq<int>, a: seq<Node>, c: seq<Node>)
    requires InArena(ids, a) && |c| == |a|
    requires forall x :: 0 <= x < |a| ==> c[x].value == a[x].value
    ensures InArena(ids, c) && Values(ids, c) == Values(ids, a)
  {
  }

  lemma SegFrame(ids: seq<int>, first: int, stop: int, a: seq<Node>, c: seq<Node>)
    requires Seg(ids, first, stop, a) && |a| <= |c|
    requires forall i :: 0 <= i < |ids| ==> c[ids[i]] == a[ids[i]]
    ensures Seg(ids, first, stop, c) && Values(ids, c) == Values(ids, a)
  {
  }

  /** Allocating a node leaves every existing segment alone. */
  lemma SegGrow(ids: seq<int>, first: int, stop: int, a: seq<Node>, nd: Node)
    requires Seg(ids, first, stop, a)
    ensures Seg(ids, first, stop, a + [nd]) && Values(ids, a + [nd]) == Values(ids, a)
    ensures |a| !in ids
  {
    SegFrame(ids, first, stop, a, a + [nd]);
  }

  /** Overwriting a node outside a segment leaves the segment alone. */
  lemma SegSet(ids: seq<int>, first: int, stop: int, a: seq<Node>, x: int, nd: Node)
    requires Seg(ids, first, stop, a) && 0 <= x < |a| && x !in ids
    ensures Seg(ids, first, stop, a[x := nd]) && Values(ids, a[x := nd]) == Values(ids, a)
  {
    SegFrame(ids, first, stop, a, a[x := nd]);
  }

  /** Overwriting a value changes no link. */
  lemma SegSetValue(ids: seq<int>, first: int, stop: int, a: seq<Node>, x: int, v: int)
    requires Seg(ids, first, stop, a) && 0 <= x < |a|
    ensures Seg(ids, first, stop, a[x := a[x].(value := v)])
  {
  }

  /** Re-pointing the last node of a segment moves its `stop`. */
  lemma SegRetarget(ids: seq<int>, first: int, stop: int, a: seq<Node>, s: int)
    requires Seg(ids, first, stop, a) && Distinct(ids) && ids != []
    ensures var l := ids[|ids| - 1];
      Seg(ids, first, s, a[l := a[l].(next := s)]) && Values(ids, a[l := a[l].(next := s)]) == Values(ids, a)
  {
  }

  lemma SegConcat(x: seq<int>, y: seq<int>, fx: int, fy: int, stop: int, nodes: seq<Node>)
    requires Seg(x, fx, fy, nodes) && Seg(y, fy, stop, nodes)
    ensures Seg(x + y, fx, stop, nodes)
    ensures Values(x + y, nodes) == Values(x, nodes) + Values(y, nodes)
  {
    var z := x + y;
    ValuesConcat(x, y, nodes);
    if x == [] {
      assert z == y;
    } else {
      assert z[0] == x[0];
      forall i | 0 <= i < |z|
        ensures nodes[z[i]].next == Follow(z, i + 1, stop)
      {
        if i < |x| {
          assert z[i] == x[i];
          assert nodes[x[i]].next == Follow(x, i + 1, fy);
          if i + 1 < |x| {
            assert z[i + 1] == x[i + 1];
          } else if y != [] {
            assert z[i + 1] == y[0];
          }
        } else {
          assert z[i] == y[i - |x|];
          assert nodes[y[i - |x|]].next == Follow(y, i - |x| + 1, stop);
          if i + 1 < |z| {
            assert z[i + 1] == y[i + 1 - |x|];
          }
        }
      }
    }
  }

  lemma SegSplit(ids: seq<int>, first: int, stop: int, nodes: seq<Node>, k: nat)
    requires Seg(ids, first, stop, nodes) && k <= |ids|
    ensures Seg(ids[..k], first, Follow(ids, k, stop), nodes)
    ensures Seg(ids[k..], Follow(ids, k, stop), stop, nodes)
    ensures ids[..k] + ids[k..] == ids
    ensures Values(ids[..k], nodes) == Values(ids, nodes)[..k]
    ensures Values(ids[k..], nodes) == Values(ids, nodes)[k..]
  {
    if k > 0 {
      assert Follow(ids[..k], 0, Follow(ids, k, stop)) == ids[0];
    }
  }

  lemma DistinctConcat(x: seq<int>, y: seq<int>)
    requires Distinct(x) && Distinct(y) && Disjoint(x, y)
    ensures Distinct(x + y)
  {
    forall i, j | 0 <= i < j < |x + y|
      ensures (x + y)[i] != (x + y)[j]
    {
      if j >= |x| && i < |x| {
        assert (x + y)[j] in y;
      }
    }
  }

  lemma DistinctSlice(ids: seq<int>, i: nat, j: nat)
    requires Distinct(ids) && i <= j <= |ids|
    ensures Distinct(ids[i..j])
    ensures forall x :: x in ids[i..j] ==> x in ids
  {
    forall x | x in ids[i..j]
      ensures x in ids
    {
      var k :| 0 <= k < j - i && ids[i..j][k] == x;
      assert ids[i + k] == x;
    }
  }

  /** Splitting a distinct sequence gives disjoint parts. */
  lemma DistinctParts(ids: seq<int>, k: nat)
    requires Distinct(ids) && k <= |ids|
    ensures Distinct(ids[..k]) && Distinct(ids[k..]) && Disjoint(ids[..k], ids[k..])
  {
    forall x | x in ids[..k]
      ensures x !in ids[k..]
    {
      var i :| 0 <= i < k && ids[..k][i] == x;
      forall j | 0 <= j < |ids| - k
        ensures ids[k..][j] != x
      {
        assert ids[k..][j] == ids[k + j];
      }
    }
  }

  /** The parts of a distinct sequence before `i` and from `j` on. */
  lemma DistinctApart(ids: seq<int>, i: nat, j: nat)
    requires Distinct(ids) && i <= j <= |ids|
    ensures Distinct(ids[..i]) && Distinct(ids[j..]) && Disjoint(ids[..i], ids[j..])
  {
    forall x | x in ids[..i]
      ensures x !in ids[j..]
    {
      forall m | 0 <= m < |ids| - j
        ensures ids[j..][m] != x
      {
        assert ids[j..][m] == ids[j + m];
      }
    }
  }

  // One lemma per kind of relinking, so that each method has one fact to use.

  /** `make_node(head, v)` in front of a chain. */
  lemma ConsNode(ids: seq<int>, first: int, a: seq<Node>, v: int)
    requires Seg(ids, first, Null, a) && Distinct(ids)
    ensures var c := a + [Node(v, first)];
      Seg([|a|] + ids, |a|, Null, c) && Distinct([|a|] + ids)
      && Values([|a|] + ids, c) == [v] + Values(ids, a)
  {
    var c := a + [Node(v, first)];
    SegGrow(ids, first, Null, a, Node(v, first));
    SegConcat([|a|], ids, |a|, first, Null, c);
    DistinctConcat([|a|], ids);
  }

  /** A new last node hung off the end of a chain (or made the first one). */
  lemma SnocNode(ids: seq<int>, first: int, a: seq<Node>, v: int, c: seq<Node>, first': int)
    requires Seg(ids, first, Null, a) && Distinct(ids)
    requires ids == [] ==> c == a + [Node(v, Null)] && first' == |a|
    requires ids != [] ==> var l := ids[|ids| - 1];
      c == (a + [Node(v, Null)])[l := a[l].(next := |a|)] && first' == first
    ensures |c| == |a| + 1 && c[|a|] == Node(v, Null)
    ensures Seg(ids + [|a|], first', Null, c) && Distinct(ids + [|a|])
    ensures Values(ids + [|a|], c) == Values(ids, a) + [v]
  {
    var b := a + [Node(v, Null)];
    SegGrow(ids, first, Null, a, Node(v, Null));
    if ids != [] {
      SegRetarget(ids, first, Null, b, |a|);
    }
    SegConcat(ids, [|a|], first', |a|, Null, c);
    DistinctConcat(ids, [|a|]);
  }

  /** A new node linked in after position `k`. */
  lemma InsertNode(o: seq<int>, first: int, a: seq<Node>, k: nat, v: int)
    requires Seg(o, first, Null, a) && Distinct(o) && k < |o|
    ensures var n := |a|;
      var c := (a + [Node(v, a[o[k]].next)])[o[k] := a[o[k]].(next := n)];
      Seg(o[..k + 1] + [n] + o[k + 1..], first, Null, c) && Distinct(o[..k + 1] + [n] + o[k + 1..])
      && Values(o[..k + 1] + [n] + o[k + 1..], c) == Values(o, a)[..k + 1] + [v] + Values(o, a)[k + 1..]
  {
    var n := |a|;
    var f := Follow(o, k + 1, Null);
    var b := a + [Node(v, a[o[k]].next)];
    var c := b[o[k] := a[o[k]].(next := n)];
    SegSplit(o, first, Null, a, k + 1);
    DistinctParts(o, k + 1);
    InsertLinks(o[..k + 1], o[k + 1..], first, f, a, v);
    SegGrow(o, first, Null, a, Node(v, f));
    DistinctInsert(o, k + 1, n);
  }

  /** Linking node `|a|` between a prefix ending at `f` and the suffix. */
  lemma InsertLinks(p: seq<int>, q: seq<int>, first: int, f: int, a: seq<Node>, v: int)
    requires Seg(p, first, f, a) && Seg(q, f, Null, a) && p != []
    requires Distinct(p) && Disjoint(p, q)
    ensures var n, l := |a|, p[|p| - 1];
      var c := (a + [Node(v, f)])[l := a[l].(next := n)];
      Seg(p + [n] + q, first, Null, c)
      && Values(p + [n] + q, c) == Values(p, a) + [v] + Values(q, a)
  {
    var n, l := |a|, p[|p| - 1];
    var b := a + [Node(v, f)];
    var c := b[l := a[l].(next := n)];
    SegGrow(p, first, f, a, Node(v, f));
    SegGrow(q, f, Null, a, Node(v, f));
    SegRetarget(p, first, f, b, n);
    assert l in p;
    SegSet(q, f, Null, b, l, c[l]);
    SegConcat(p, [n], first, n, f, c);
    SegConcat(p + [n], q, first, f, Null, c);
  }

  lemma DistinctInsert(o: seq<int>, k: nat, n: int)
    requires Distinct(o) && n !in o && k <= |o|
    ensures Distinct(o[..k] + [n] + o[k..])
  {
    DistinctParts(o, k);
    DistinctSlice(o, 0, k);
    assert o[0..k] == o[..k];
    DistinctConcat(o[..k], [n]);
    DistinctSlice(o, k, |o|);
    DistinctConcat(o[..k] + [n], o[k..]);
  }

  /** The node at position `k > 0` unlinked from its predecessor. */
  lemma UnlinkNode(o: seq<int>, first: int, a: seq<Node>, k: nat)
    requires Seg(o, first, Null, a) && Distinct(o) && 0 < k < |o|
    ensures var c := a[o[k - 1] := a[o[k - 1]].(next := Follow(o, k + 1, Null))];
      Seg(o[..k] + o[k + 1..], first, Null, c) && Distinct(o[..k] + o[k + 1..])
      && Values(o[..k] + o[k + 1..], c) == Values(o, a)[..k] + Values(o, a)[k + 1..]
  {
    var p, q := o[..k], o[k + 1..];
    var l, f := o[k - 1], Follow(o, k + 1, Null);
    var c := a[l := a[l].(next := f)];
    assert Seg(p, first, o[k], a) && Seg(q, f, Null, a)
      && Values(p, a) == Values(o, a)[..k] && Values(q, a) == Values(o, a)[k + 1..] by {
      SegSplit(o, first, Null, a, k);
      SegSplit(o[k..], o[k], Null, a, 1);
      assert o[k..][1..] == q;
    }
    assert Distinct(p) && Distinct(q) && Disjoint(p, q) && l == p[k - 1] by {
      DistinctApart(o, k, k + 1);
    }
    assert Seg(p, first, f, c) && Values(p, c) == Values(p, a) by {
      SegRetarget(p, first, o[k], a, f);
    }
    assert Seg(q, f, Null, c) && Values(q, c) == Values(q, a) by {
      assert l in p;
      SegSet(q, f, Null, a, l, c[l]);
    }
    SegConcat(p, q, first, f, Null, c);
    DistinctConcat(p, q);
  }

  /** The first node dropped. */
  lemma DropFirst(o: seq<int>, first: int, a: seq<Node>)
    requires Seg(o, first, Null, a) && Distinct(o) && o != []
    ensures Seg(o[1..], a[o[0]].next, Null, a) && Distinct(o[1..])
    ensures Values(o[1..], a) == Values(o, a)[1..]
  {
    SegSplit(o, first, Null, a, 1);
    DistinctSlice(o, 1, |o|);
  }

  lemma DisjointSym(a: seq<int>, b: seq<int>)
    ensures Disjoint(a, b) <==> Disjoint(b, a)
  {
  }

  /** One step of `reverse`: the first node of the unreversed part is turned
      round to point at the reversed part. */
  lemma ReverseStep(o: seq<int>, k: nat, a: seq<Node>, prev: int, curr: int)
    requires Distinct(o) && k <= |o| && curr != Null
    requires Seg(Reversed(o[..k]), prev, Null, a) && Seg(o[k..], curr, Null, a)
    ensures k < |o| && curr == o[k] && 0 <= curr < |a|
    ensures var c := a[curr := a[curr].(next := prev)];
      Seg(Reversed(o[..k + 1]), curr, Null, c) && Seg(o[k + 1..], a[curr].next, Null, c)
  {
    assert k < |o| && o[k..][0] == o[k];
    var x, r := o[k], Reversed(o[..k]);
    var c := a[x := a[x].(next := prev)];
    ReverseApart(o, k);
    assert Seg(o[k + 1..], a[x].next, Null, c) by {
      SegSplit(o[k..], curr, Null, a, 1);
      assert o[k..][1..] == o[k + 1..];
      SegSet(o[k + 1..], a[x].next, Null, a, x, c[x]);
    }
    assert Seg([x] + r, x, Null, c) by {
      SegSet(r, prev, Null, a, x, c[x]);
      assert Seg([x], x, prev, c);
      SegConcat([x], r, x, prev, Null, c);
    }
    assert o[..k + 1] == o[..k] + [x];
    ReversedSnoc(o[..k], x);
  }

  /** The node turned round by a step of `reverse` is in neither part. */
  lemma ReverseApart(o: seq<int>, k: nat)
    requires Distinct(o) && k < |o|
    ensures o[k] !in o[k + 1..] && o[k] !in Reversed(o[..k])
  {
    var x := o[k];
    DistinctApart(o, k, k + 1);
    assert o[..k + 1][k] == x;
    DistinctApart(o, k, k);
    assert x in o[k..];
    ReversedPermutes(o[..k]);
    assert x !in multiset(Reversed(o[..k]));
  }

  /** After the last step of `reverse` the chain holds the old values in the
      opposite order. */
  lemma ReverseDone(o: seq<int>, a0: seq<Node>, c: seq<Node>)
    requires Distinct(o) && InArena(o, a0)
    requires |c| == |a0| && forall x :: 0 <= x < |a0| ==> c[x].value == a0[x].value
    requires InArena(Reversed(o), c)
    ensures Distinct(Reversed(o))
    ensures Values(Reversed(o), c) == Reversed(Values(o, a0))
  {
    var r := Reversed(o);
    var vr := Values(r, c);
    var vo := Values(o, a0);
    forall i | 0 <= i < |o|
      ensures r[i] == o[|o| - 1 - i] && vr[i] == vo[|o| - 1 - i]
    {
      ReversedAt(o, i);
    }
    MirroredIsReversed(vo, vr);
  }

  /** One step of `merge`: the front node of `from` is moved to the end of
      the merged chain `ms`, whose old last node `tail` is pointed at it. */
  lemma TakeStep(ms: seq<int>, from: seq<int>, keep: seq<int>, a: seq<Node>, nb: int, tail: int, nb': int, c: seq<Node>, fk: int)
    requires from != [] && Seg(ms, nb, Null, a) && Seg(from, from[0], Null, a) && Seg(keep, fk, Null, a)
    requires Distinct(ms) && Distinct(from) && Distinct(keep)
    requires Disjoint(ms, from) && Disjoint(ms, keep) && Disjoint(from, keep)
    requires tail == (if ms == [] then Null else ms[|ms| - 1])
    requires var t := from[0]; var mid := if ms == [] then a else a[tail := a[tail].(next := t)];
      c == mid[t := mid[t].(next := Null)] && nb' == (if ms == [] then t else nb)
    ensures from[0] !in ms
    ensures Seg(ms + [from[0]], nb', Null, c) && Seg(from[1..], a[from[0]].next, Null, c) && Seg(keep, fk, Null, c)
    ensures Distinct(ms + [from[0]]) && Distinct(from[1..])
    ensures Disjoint(ms + [from[0]], from[1..]) && Disjoint(ms + [from[0]], keep)
    ensures Disjoint(from[1..], keep) && Disjoint(keep, from[1..])
    ensures Values(ms + [from[0]], c) == Values(ms, a) + [a[from[0]].value]
    ensures Values(from[1..], c) == Values(from, a)[1..] && Values(keep, c) == Values(keep, a)
  {
    var t := from[0];
    var mid := if ms == [] then a else a[tail := a[tail].(next := t)];
    TakeDistinct(ms, from, keep);
    SegSplit(from, t, Null, a, 1);
    if ms != [] {
      assert tail in ms;
      SegRetarget(ms, nb, Null, a, t);
      SegSet(ms, nb, t, mid, t, c[t]);
      SegSet(from[1..], a[t].next, Null, a, tail, mid[tail]);
      SegSet(keep, fk, Null, a, tail, mid[tail]);
      SegConcat(ms, [t], nb, t, Null, c);
    } else {
      assert Seg([t], t, Null, c);
    }
    SegSet(from[1..], a[t].next, Null, mid, t, c[t]);
    SegSet(keep, fk, Null, mid, t, c[t]);
  }

  /** The pointer bookkeeping of `TakeStep`: moving the front of `from` to
      the end of `ms` keeps the three chains free of repeats and apart. */
  lemma TakeDistinct(ms: seq<int>, from: seq<int>, keep: seq<int>)
    requires from != [] && Distinct(ms) && Distinct(from) && Distinct(keep)
    requires Disjoint(ms, from) && Disjoint(ms, keep) && Disjoint(from, keep)
    ensures from[0] !in ms && from[0] !in keep && from[0] !in from[1..]
    ensures Distinct(ms + [from[0]]) && Distinct(from[1..])
    ensures Disjoint(ms + [from[0]], from[1..]) && Disjoint(ms + [from[0]], keep)
    ensures Disjoint(from[1..], keep) && Disjoint(keep, from[1..])
  {
    var t := from[0];
    assert t in from;
    DistinctSlice(from, 1, |from|);
    DistinctParts(from, 1);
    assert from[..1] == [t];
    DistinctConcat(ms, [t]);
  }




  /** The body of a `merge` iteration on values: the smaller head (the left
      one on a tie) is the next element of the merge. */
  lemma MergeStep(ms: seq<int>, xs: seq<int>, ys: seq<int>, c: seq<Node>, hx: int, hy: int, goal: seq<int>)
    requires InArena(ms, c) && Seg(xs, hx, Null, c) && Seg(ys, hy, Null, c) && hx != Null && hy != Null
    requires Values(ms, c) + MergeSorted(Values(xs, c), Values(ys, c)) == goal
    ensures xs != [] && ys != [] && hx == xs[0] && hy == ys[0]
    ensures c[hy].value < c[hx].value ==>
      Values(ms, c) + [c[hy].value] + MergeSorted(Values(xs, c), Values(ys, c)[1..]) == goal
    ensures !(c[hy].value < c[hx].value) ==>
      Values(ms, c) + [c[hx].value] + MergeSorted(Values(xs, c)[1..], Values(ys, c)) == goal
  {
  }

  /** The state of the `merge` loop: the rest `xs` of this list starts at
      `hx`, the rest `ys` of the other list at `hy`, and the merged chain
      `ms` at `nb` ending in `tail`; the three are disjoint, and the merged
      values followed by the merge of the rests are the final result. */
  ghost predicate Merging(xs: seq<int>, ys: seq<int>, ms: seq<int>, hx: int, hy: int, nb: int, tail: int, c: seq<Node>, goal: seq<int>)
  {
    && Seg(xs, hx, Null, c) && Seg(ys, hy, Null, c) && Seg(ms, nb, Null, c)
    && Distinct(ms) && Distinct(xs) && Distinct(ys)
    && Disjoint(ms, xs) && Disjoint(ms, ys) && Disjoint(xs, ys)
    && tail == (if ms == [] then Null else ms[|ms| - 1])
    && Values(ms, c) + MergeSorted(Values(xs, c), Values(ys, c)) == goal
  }

  /** The arena after `*tail = std::move(*src); ...; tail->next = nullptr`
      has moved node `t` behind `tail`. */
  ghost function Moved(a: seq<Node>, tail: int, t: int): seq<Node>
    requires 0 <= t < |a| && (tail == Null || 0 <= tail < |a|)
  {
    var mid := if tail == Null then a else a[tail := a[tail].(next := t)];
    mid[t := mid[t].(next := Null)]
  }

  /** While both chains are non-empty their front nodes and the tail of the
      merged chain are three different nodes of the arena. */
  lemma MergingFronts(xs: seq<int>, ys: seq<int>, ms: seq<int>, hx: int, hy: int, nb: int, tail: int, a: seq<Node>, goal: seq<int>)
    requires Merging(xs, ys, ms, hx, hy, nb, tail, a, goal) && hx != Null && hy != Null
    ensures 0 <= hx < |a| && 0 <= hy < |a| && (tail == Null || 0 <= tail < |a|)
    ensures tail != hx && tail != hy
  {
    assert xs != [] && ys != [] && hx == xs[0] && hy == ys[0];
    if tail != Null {
      assert tail in ms;
    }
  }

  /** A round of `merge` that took this list's front node `hx` (no strictly
      smaller node at the front of the other) into the arena `c`. */
  lemma TakeLeft(xs: seq<int>, ys: seq<int>, ms: seq<int>, hx: int, hy: int, nb: int, tail: int, a: seq<Node>, goal: seq<int>,
                 nb': int, rest: int, c: seq<Node>)
    requires Merging(xs, ys, ms, hx, hy, nb, tail, a, goal) && hx != Null && hy != Null
    requires 0 <= hx < |a| && 0 <= hy < |a| && !(a[hy].value < a[hx].value)
    requires (tail == Null || 0 <= tail < |a|) && c == Moved(a, tail, hx)
    requires nb' == (if tail == Null then hx else nb) && rest == a[hx].next
    ensures Merging(xs[1..], ys, ms + [hx], rest, hy, nb', hx, c, goal)
  {
    MergeStep(ms, xs, ys, a, hx, hy, goal);
    TakeStep(ms, xs, ys, a, nb, tail, nb', c, hy);
  }

  /** A round of `merge` that took the other list's front node `hy`, which
      is strictly smaller, into the arena `c`. */
  lemma TakeRight(xs: seq<int>, ys: seq<int>, ms: seq<int>, hx: int, hy: int, nb: int, tail: int, a: seq<Node>, goal: seq<int>,
                  nb': int, rest: int, c: seq<Node>)
    requires Merging(xs, ys, ms, hx, hy, nb, tail, a, goal) && hx != Null && hy != Null
    requires 0 <= hx < |a| && 0 <= hy < |a| && a[hy].value < a[hx].value
    requires (tail == Null || 0 <= tail < |a|) && c == Moved(a, tail, hy)
    requires nb' == (if tail == Null then hy else nb) && rest == a[hy].next
    ensures Merging(xs, ys[1..], ms + [hy], hx, rest, nb', hy, c, goal)
  {
    MergeStep(ms, xs, ys, a, hx, hy, goal);
    DisjointSym(xs, ys);
    TakeStep(ms, ys, xs, a, nb, tail, nb', c, hx);
  }

  /** The last step of `merge`: whichever chain is left is hung off the end
      of the merged chain. */
  lemma MergeJoin(ms: seq<int>, rest: seq<int>, a: seq<Node>, nb: int, tail: int, f: int, c: seq<Node>, nb': int)
    requires Seg(ms, nb, Null, a) && Seg(rest, f, Null, a)
    requires Distinct(ms) && Distinct(rest) && Disjoint(ms, rest)
    requires tail == (if ms == [] then Null else ms[|ms| - 1])
    requires ms == [] ==> c == a && nb' == f
    requires ms != [] ==> c == a[tail := a[tail].(next := f)] && nb' == nb
    ensures Seg(ms + rest, nb', Null, c) && Distinct(ms + rest)
    ensures Values(ms + rest, c) == Values(ms, a) + Values(rest, a)
  {
    if ms == [] {
      assert ms + rest == rest;
    } else {
      assert tail in ms;
      SegRetarget(ms, nb, Null, a, f);
      SegSet(rest, f, Null, a, tail, c[tail]);
      SegConcat(ms, rest, nb, f, Null, c);
    }
    DistinctConcat(ms, rest);
  }

  /** One node of a chain copied: the values of a prefix grow by one. */
  lemma CopyStep(ids: seq<int>, i: nat, a: seq<Node>)
    requires InArena(ids, a) && i < |ids|
    ensures InArena(ids[..i], a) && InArena(ids[..i + 1], a)
    ensures Values(ids[..i + 1], a) == Values(ids[..i], a) + [a[ids[i]].value]
  {
    assert ids[..i + 1] == ids[..i] + [ids[i]];
  }

  /** The copy built in fresh nodes leaves the chains of older nodes alone. */
  lemma CopyDone(ids: seq<int>, h: int, copy: seq<int>, a0: seq<Node>, c: seq<Node>)
    requires Seg(ids, h, Null, a0) && |a0| <= |c|
    requires forall x :: 0 <= x < |a0| ==> c[x] == a0[x]
    requires forall j :: 0 <= j < |copy| ==> copy[j] >= |a0|
    ensures Seg(ids, h, Null, c) && Values(ids, c) == Values(ids, a0)
    ensures Disjoint(ids, copy)
  {
    SegFrame(ids, h, Null, a0, c);
  }

  /** The slot copy assignment is at holds the next unwritten node, or
      `nullptr` once the old chain is used up. */
  lemma AssignSlot(copied: seq<int>, r: seq<int>, a: seq<Node>, h: int, cur: int)
    requires Seg(copied + r, h, Null, a) && InArena(copied, a)
    requires copied == [] ==> cur == h
    requires copied != [] ==> cur == a[copied[|copied| - 1]].next
    ensures r == [] ==> cur == Null
    ensures r != [] ==> cur == r[0] && 0 <= cur < |a|
  {
    var z := copied + r;
    if copied != [] {
      assert z[|copied| - 1] == copied[|copied| - 1];
    }
    if r != [] {
      assert z[|copied|] == r[0];
    }
  }

  /** Copy assignment overwriting the value of an existing node. */
  lemma AssignReuse(copied: seq<int>, r: seq<int>, a: seq<Node>, h: int, v: int)
    requires Seg(copied + r, h, Null, a) && Distinct(copied + r) && r != [] && InArena(copied, a)
    ensures 0 <= r[0] < |a| && copied + [r[0]] + r[1..] == copied + r
    ensures var c := a[r[0] := a[r[0]].(value := v)];
      Seg(copied + r, h, Null, c) && InArena(copied + [r[0]], c)
      && Values(copied + [r[0]], c) == Values(copied, a) + [v]
  {
    assert (copied + r)[|copied|] == r[0];
    var x := r[0];
    var c := a[x := a[x].(value := v)];
    assert copied + [x] + r[1..] == copied + r;
    SegSetValue(copied + r, h, Null, a, x, v);
    DistinctParts(copied + r, |copied|);
    assert (copied + r)[..|copied|] == copied && (copied + r)[|copied|..] == r;
    assert x in r;
    assert Values(copied, c) == Values(copied, a);
    ValuesConcat(copied, [x], c);
  }

  /** `next->reset()` after the copy: the chain ends after the copied nodes. */
  lemma AssignTruncate(copied: seq<int>, r: seq<int>, a: seq<Node>, c: seq<Node>, h: int, h': int)
    requires Seg(copied + r, h, Null, a) && Distinct(copied + r) && InArena(copied, a)
    requires copied == [] ==> c == a && h' == Null
    requires copied != [] ==> var l := copied[|copied| - 1]; c == a[l := a[l].(next := Null)] && h' == h
    ensures Seg(copied, h', Null, c) && Distinct(copied) && Values(copied, c) == Values(copied, a)
  {
    if copied != [] {
      var k := |copied|;
      SegSplit(copied + r, h, Null, a, k);
      DistinctParts(copied + r, k);
      assert (copied + r)[..k] == copied;
      SegRetarget(copied, h, Follow(copied + r, k, Null), a, Null);
    }
  }

  // ---------------------------------------------------------------------
  // The element order `merge` works with.

  /** Non-decreasing order, the order `merge` expects and produces. */
  ghost predicate Sorted(s: seq<int>)
  {
    forall i, j :: 0 <= i < j < |s| ==> s[i] <= s[j]
  }

  /** The sequence `merge` builds: repeatedly take the smaller head, taking
      from the left list unless the right head is strictly smaller. */
  ghost function MergeSorted(xs: seq<int>, ys: seq<int>): seq<int>
    decreases |xs| + |ys|
  {
    if xs == [] then ys
    else if ys == [] then xs
    else if ys[0] < xs[0] then [ys[0]] + MergeSorted(xs, ys[1..])
    else [xs[0]] + MergeSorted(xs[1..], ys)
  }

  // ---------------------------------------------------------------------
  // Properties of merge.

  /** Merging two sorted lists gives a sorted list. */
  lemma {:induction false} MergeSortedIsSorted(xs: seq<int>, ys: seq<int>)
    requires Sorted(xs) && Sorted(ys)
    ensures Sorted(MergeSorted(xs, ys))
    ensures |MergeSorted(xs, ys)| == |xs| + |ys|
    ensures MergeSorted(xs, ys) != [] ==>
      MergeSorted(xs, ys)[0] == (if xs == [] then ys[0] else if ys == [] then xs[0] else if ys[0] < xs[0] then ys[0] else xs[0])
    decreases |xs| + |ys|
  {
    if xs == [] || ys == [] {
    } else if ys[0] < xs[0] {
      MergeSortedIsSorted(xs, ys[1..]);
      var m := MergeSorted(xs, ys[1..]);
      assert forall i :: 0 <= i < |m| ==> ys[0] <= m[i] by {
        MergeBounded(xs, ys[1..], ys[0]);
      }
    } else {
      MergeSortedIsSorted(xs[1..], ys);
      var m := MergeSorted(xs[1..], ys);
      assert forall i :: 0 <= i < |m| ==> xs[0] <= m[i] by {
        MergeBounded(xs[1..], ys, xs[0]);
      }
    }
  }

  /** Every element of a merge of lists bounded below by `b` is `>= b`. */
  lemma {:induction false} MergeBounded(xs: seq<int>, ys: seq<int>, b: int)
    requires forall i :: 0 <= i < |xs| ==> b <= xs[i]
    requires forall i :: 0 <= i < |ys| ==> b <= ys[i]
    ensures forall i :: 0 <= i < |MergeSorted(xs, ys)| ==> b <= MergeSorted(xs, ys)[i]
    decreases |xs| + |ys|
  {
    if xs == [] || ys == [] {
    } else if ys[0] < xs[0] {
      MergeBounded(xs, ys[1..], b);
    } else {
      MergeBounded(xs[1..], ys, b);
    }
  }

  /** The merge holds exactly the elements of both lists. */
  lemma {:induction false} MergeSortedPermutation(xs: seq<int>, ys: seq<int>)
    ensures multiset(MergeSorted(xs, ys)) == multiset(xs) + multiset(ys)
    decreases |xs| + |ys|
  {
    if xs == [] || ys == [] {
    } else if ys[0] < xs[0] {
      MergeSortedPermutation(xs, ys[1..]);
      assert ys == [ys[0]] + ys[1..];
    } else {
      MergeSortedPermutation(xs[1..], ys);
      assert xs == [xs[0]] + xs[1..];
    }
  }

  /** Ties go to the receiving list: when every element of `ys` is at least
      every element of `xs`, the merge is `xs` followed by `ys`. */
  lemma {:induction false} MergeKeepsLeftFirst(xs: seq<int>, ys: seq<int>)
    requires forall i, j :: 0 <= i < |xs| && 0 <= j < |ys| ==> xs[i] <= ys[j]
    ensures MergeSorted(xs, ys) == xs + ys
    decreases |xs|
  {
    if xs == [] || ys == [] {
    } else {
      MergeKeepsLeftFirst(xs[1..], ys);
      assert xs == [xs[0]] + xs[1..];
    }
  }

  class SinglyLinkedList {
    var nodes: seq<Node>
    var head: int
    var size: SizeT
    ghost var order: seq<int>

    ghost predicate Valid()
      reads this
    {
      Seg(order, head, Null, nodes) && Distinct(order)
    }

    /** The elements from `begin()` to `end()`. */
    ghost function Contents(): seq<int>
      reads this
      requires Valid()
    {
      Values(order, nodes)
    }

    /** `_size` agrees with the number of nodes (every operation but `merge`
        keeps this while the count stays below `SIZE_MAX`). */
    ghost predicate Counted()
      reads this
    {
      size == |order|
    }

    /** An iterator into this list: one of its nodes, or `end()`. */
    ghost predicate IsIterator(it: int)
      reads this
    {
      it == Null || it in order
    }

    /** The iterator at position `k` (`end()` when `k == |order|`). */
    ghost function At(k: nat): int
      reads this
      requires k <= |order|
    {
      Follow(order, k, Null)
    }

    constructor ()
      ensures Valid() && Contents() == [] && size == 0
    {
      nodes := [];
      head := Null;
      size := 0;
      order := [];
    }

    /** `begin()` */
    function Begin(): (it: int)
      reads this
      requires Valid()
      ensures it == At(0)
    {
      head
    }

    /** `size()`: the cached count, which `merge` does not maintain. */
    function Size(): (r: SizeT)
      reads this
      ensures Counted() ==> r == |order|
    {
      size
    }

    /** `is_empty()` tests the cached count, not the head pointer. */
    function IsEmpty(): (b: bool)
      reads this
      ensures b <==> Size() == 0
    {
      size == 0
    }

    /** Reads the pointer held by a slot. */
    function Load(link: Link): (p: int)
      reads this
      requires link.NextLink? ==> 0 <= link.node < |nodes|
      ensures link.HeadLink? ==> p == head
      ensures link.NextLink? ==> p == nodes[link.node].next
    {
      match link
      case HeadLink => head
      case NextLink(n) => nodes[n].next
    }

    /** Overwrites the pointer held by a slot. */
    method Store(link: Link, p: int)
      requires link.NextLink? ==> 0 <= link.node < |nodes|
      modifies this
      ensures order == old(order) && size == old(size)
      ensures link.HeadLink? ==> head == p && nodes == old(nodes)
      ensures link.NextLink? ==> head == old(head) && nodes == old(nodes)[link.node := old(nodes)[link.node].(next := p)]
    {
      match link
      case HeadLink =>
        head := p;
      case NextLink(n) =>
        nodes := nodes[n := nodes[n].(next := p)];
    }

    /** `make_node(next, v)`: a fresh node at the end of the arena. */
    method MakeNode(next: int, v: int) returns (n: int)
      modifies this
      ensures n == |old(nodes)| && nodes == old(nodes) + [Node(v, next)]
      ensures head == old(head) && size == old(size) && order == old(order)
    {
      n := |nodes|;
      nodes := nodes + [Node(v, next)];
    }

    /** `*next = make_node(nullptr, v)` where `next` is the slot that ends
        the list: the new node becomes the last one. */
    method LinkLast(next: Link, v: int) returns (n: int)
      requires Valid()
      requires next == (if order == [] then HeadLink else NextLink(order[|order| - 1]))
      modifies this
      ensures Valid() && order == old(order) + [n] && size == old(size)
      ensures Contents() == old(Contents()) + [v]
    {
      ghost var a, h := nodes, head;
      n := MakeNode(Null, v);
      Store(next, n);
      SnocNode(order, h, a, v, nodes, head);
      order := order + [n];
    }

    /** `b4->next = std::move(b4->next->next)`: unlinks the node after `b4`. */
    method UnlinkNext(b4: int, ghost k: nat)
      requires Valid() && 0 < k < |order| && b4 == order[k - 1]
      modifies this
      ensures Valid() && size == old(size) && head == old(head)
      ensures |nodes| == |old(nodes)| && 0 <= b4 < |nodes|
      ensures order == old(order)[..k] + old(order)[k + 1..]
      ensures Contents() == old(Contents())[..k] + old(Contents())[k + 1..]
      ensures nodes[b4].next == At(k)
    {
      ghost var o := order;
      UnlinkNode(o, head, nodes, k);
      var after := nodes[nodes[b4].next].next;
      nodes := nodes[b4 := nodes[b4].(next := after)];
      order := o[..k] + o[k + 1..];
      assert nodes[b4].next == Follow(o, k + 1, Null);
    }

    /** `push_front(t)`: the new element becomes the first; returns `begin()`. */
    method PushFront(t: int) returns (it: int)
      requires Valid()
      modifies this
      ensures Valid()
      ensures Contents() == [t] + old(Contents())
      ensures size == Inc(old(size))
      ensures it == head && it == At(0)
    {
      ConsNode(order, head, nodes, t);
      size := Inc(size);
      var n := MakeNode(head, t);
      head := n;
      order := [n] + order;
      it := head;
    }

    /** `push_back(t)`: walk to the last node and hang a new node after it;
        on an empty list this is `push_front`. Returns the new node. */
    method PushBack(t: int) returns (it: int)
      requires Valid()
      modifies this
      ensures Valid()
      ensures Contents() == old(Contents()) + [t]
      ensures size == Inc(old(size))
      ensures it == At(|old(order)|)
    {
      if head == Null {
        it := PushFront(t);
        return;
      }
      size := Inc(size);
      var front := head;
      ghost var k := 0;
      while nodes[front].next != Null
        invariant 0 <= k < |order| && front == order[k]
        decreases |order| - k
      {
        front := nodes[front].next;
        k := k + 1;
      }
      it := LinkLast(NextLink(front), t);
    }

    /** `append(r)`: copies the range onto the end of the list and returns an
        iterator to the first copied element, or `end()` for an empty range. */
    method Append(r: seq<int>) returns (it: int)
      requires Valid()
      modifies this
      ensures Valid()
      ensures Contents() == old(Contents()) + r
      ensures size == AddSize(old(size), |r|)
      ensures it == At(|old(order)|)
    {
      if |r| == 0 {
        return Null;
      }
      var next: Link;
      if head != Null {
        var l := Last(this);
        next := NextLink(l);
      } else {
        next := HeadLink;
      }
      var appendedBeg := next;
      ghost var o0 := order;
      LinkAll(next, r);
      size := AddSize(size, |r|);
      if o0 != [] {
        assert order[|o0| - 1] == o0[|o0| - 1];
        assert nodes[order[|o0| - 1]].next == Follow(order, |o0|, Null);
      }
      it := Load(appendedBeg);
    }

    /** The copying loop of `append`: `*next = make_node(nullptr, rmem)` for
        each element, `next` moving on to the new node's `next` slot. */
    method LinkAll(next: Link, r: seq<int>)
      requires Valid()
      requires next == (if order == [] then HeadLink else NextLink(order[|order| - 1]))
      modifies this
      ensures Valid() && size == old(size)
      ensures |order| == |old(order)| + |r| && order[..|old(order)|] == old(order)
      ensures Contents() == old(Contents()) + r
    {
      var link := next;
      ghost var o0 := order;
      ghost var c0 := Contents();
      ghost var added: seq<int> := [];
      var i := 0;
      while i < |r|
        invariant 0 <= i <= |r| && |added| == i
        invariant Valid() && size == old(size) && order == o0 + added
        invariant Contents() == c0 + r[..i]
        invariant link == (if order == [] then HeadLink else NextLink(order[|order| - 1]))
      {
        var n := LinkLast(link, r[i]);
        link := NextLink(n);
        added := added + [n];
        TakeSnoc(r, i);
        i := i + 1;
      }
      assert r[..i] == r;
      assert order[..|o0|] == o0;
    }

    /** `insert(pos, t)`: puts `t` immediately before `pos` (at the front when
        `pos == begin()`, at the back when `pos == end()`), returning an
        iterator to it. Away from the front this is `insert_after`, whose
        `!is_empty()` assertion reads the cached count. */
    method Insert(pos: int, t: int) returns (it: int)
      requires Valid() && IsIterator(pos)
      requires pos != head ==> size != 0
      modifies this
      ensures Valid()
      ensures var k := IndexOf(old(order), pos);
        Contents() == old(Contents())[..k] + [t] + old(Contents())[k..]
        && it == At(k)
      ensures size == Inc(old(size))
    {
      if pos == head {
        it := PushFront(t);
        assert IndexOf(old(order), pos) == 0;
        return;
      }
      ghost var k := IndexOf(order, pos);
      var b := Before(this, pos);
      IndexOfDistinct(order, k - 1);
      it := InsertAfter(b, t);
    }

    /** `insert_after(pos, value)`: asserts `pos != end()` and `!is_empty()`,
        then links a new node right after `pos` and returns it. */
    method InsertAfter(pos: int, value: int) returns (it: int)
      requires Valid() && pos in order && size != 0
      modifies this
      ensures Valid()
      ensures var k := IndexOf(old(order), pos);
        Contents() == old(Contents())[..k + 1] + [value] + old(Contents())[k + 1..]
        && it == At(k + 1)
      ensures size == Inc(old(size))
    {
      ghost var k := IndexOf(order, pos);
      ghost var o, a := order, nodes;
      assert k < |o| && o[k] == pos;
      InsertNode(o, head, nodes, k, value);
      size := Inc(size);
      var n := MakeNode(nodes[pos].next, value);
      nodes := nodes[pos := nodes[pos].(next := n)];
      assert nodes == (a + [Node(value, a[o[k]].next)])[o[k] := a[o[k]].(next := n)];
      order := o[..k + 1] + [n] + o[k + 1..];
      assert order[k + 1] == n && |order| == |o| + 1;
      it := n;
    }

    /** `pop_front()`: drops the first node; no-op on an empty list. The
        count is decremented whenever a node is dropped, wrapping below 0. */
    method PopFront()
      requires Valid()
      modifies this
      ensures Valid()
      ensures old(head) == Null ==> Contents() == old(Contents()) && size == old(size)
      ensures old(head) != Null ==> Contents() == old(Contents())[1..] && size == Dec(old(size))
      ensures old(head) != Null ==> order == old(order)[1..]
    {
      if head == Null {
        return;
      }
      DropFirst(order, head, nodes);
      size := Dec(size);
      head := nodes[head].next;
      order := order[1..];
    }

    /** `pop_back()`: a list whose cached count is at most 1 is emptied
        outright; otherwise the last node is unlinked from the one before it.
        The walk dereferences two nodes, so it needs at least two. */
    method PopBack()
      requires Valid()
      requires size > 1 ==> |order| >= 2
      modifies this
      ensures Valid()
      ensures old(size) <= 1 ==> Contents() == [] && size == 0
      ensures old(size) > 1 ==> Contents() == old(Contents())[..|old(order)| - 1] && size == old(size) - 1
    {
      if size <= 1 {
        size := 0;
        head := Null;
        order := [];
        return;
      }
      size := size - 1;
      var it := head;
      var trailing := it;
      it := nodes[it].next;
      ghost var k := 1;
      while nodes[it].next != Null
        invariant 1 <= k < |order| && it == order[k] && trailing == order[k - 1]
        decreases |order| - k
      {
        trailing := it;
        it := nodes[it].next;
        k := k + 1;
      }
      ghost var o := order;
      UnlinkNext(trailing, k);
      assert order == o[..|o| - 1];
    }

    /** `erase(pos)`: removes the element at `pos` and returns an iterator to
        the element after it. `erase(begin())` is `pop_front`, so on an empty
        list it does nothing and returns `end()`. */
    method Erase(pos: int) returns (it: int)
      requires Valid() && (pos in order || pos == head)
      modifies this
      ensures Valid()
      ensures old(order) == [] ==> Contents() == [] && size == old(size) && it == Null
      ensures old(order) != [] ==>
        var k := IndexOf(old(order), pos);
        Contents() == old(Contents())[..k] + old(Contents())[k + 1..]
        && size == Dec(old(size)) && it == At(k)
    {
      if pos == head {
        PopFront();
        it := head;
        return;
      }
      ghost var k := IndexOf(order, pos);
      assert 0 < k < |order|;
      var b4 := Before(this, pos);
      UnlinkNext(b4, k);
      size := Dec(size);
      it := nodes[b4].next;
    }

    /** `reverse()`: re-points every `next` at the previous node. */
    method ReverseLinks()
      requires Valid()
      modifies this
      ensures Valid()
      ensures Contents() == Reversed(old(Contents()))
      ensures size == old(size)
    {
      var prev := Null;
      var curr := head;
      ghost var k := 0;
      ghost var o := order;
      ghost var a0 := nodes;
      assert o[..0] == [] && o[0..] == o;
      while curr != Null
        invariant 0 <= k <= |o| && Distinct(o) && size == old(size) && InArena(o, a0)
        invariant |nodes| == |a0| && forall x :: 0 <= x < |nodes| ==> nodes[x].value == a0[x].value
        invariant Seg(Reversed(o[..k]), prev, Null, nodes) && Seg(o[k..], curr, Null, nodes)
        decreases |o| - k
      {
        var next := nodes[curr].next;
        ReverseStep(o, k, nodes, prev, curr);
        nodes := nodes[curr := nodes[curr].(next := prev)];
        prev := curr;
        curr := next;
        k := k + 1;
      }
      assert o[..k] == o;
      head := prev;
      order := Reversed(o);
      ReverseDone(o, a0, nodes);
    }

    /** `merge(other)`: `other` is taken by value, so its elements are first
        copied into fresh nodes (the copy constructor); the two chains are
        then interleaved by relinking. `_size` is left as it was. */
    method Merge(other: SinglyLinkedList)
      requires Valid() && other.Valid()
      modifies this
      ensures Valid()
      ensures Contents() == MergeSorted(old(Contents()), old(other.Contents()))
      ensures size == old(size)
      ensures old(Counted()) && old(other.order) != [] ==> !Counted()
    {
      ghost var xs0, ys0 := Contents(), other.Contents();
      var b: int;
      ghost var ys: seq<int>;
      b, ys := CopyChain(other.nodes, other.head, other.order);
      Interleave(b, ys);
      MergeSortedPermutation(xs0, ys0);
      assert |Contents()| == |multiset(Contents())|;
    }

    /** `merge(other)` with the count brought up to date: the merged list
        holds the nodes of both, so `_size` becomes the sum of the counts. */
    method MergeCounted(other: SinglyLinkedList)
      requires Valid() && other.Valid()
      modifies this
      ensures Valid()
      ensures Contents() == MergeSorted(old(Contents()), old(other.Contents()))
      ensures size == AddSize(old(size), old(other.size))
      ensures old(Counted()) && old(other.Counted()) && old(size) + old(other.size) <= SIZE_MAX ==> Counted()
    {
      ghost var xs0, ys0 := Contents(), other.Contents();
      var n := other.size;
      Merge(other);
      size := AddSize(size, n);
      MergeSortedPermutation(xs0, ys0);
      assert |Contents()| == |multiset(Contents())|;
    }

    /** The loop of `merge`: `a` is the slot `_head`, `b` the head of the
        chain `ys` (the by-value parameter) and `tail` the last node of the
        merged chain that starts at `newBegin`. Each round moves the smaller
        front node, this list's on a tie, to the merged chain; once either
        chain is used up the other is hung on the end. */
    method Interleave(b: int, ghost ys: seq<int>)
      requires Valid() && Seg(ys, b, Null, nodes) && Distinct(ys) && Disjoint(order, ys)
      modifies this
      ensures Valid()
      ensures Contents() == MergeSorted(old(Contents()), Values(ys, old(nodes)))
      ensures size == old(size)
    {
      ghost var goal := MergeSorted(Contents(), Values(ys, nodes));
      ghost var xs, ys := order, ys;
      var b := b;
      var newBegin, tail := Null, Null;
      ghost var ms: seq<int> := [];
      while true
        invariant Merging(xs, ys, ms, head, b, newBegin, tail, nodes, goal)
        invariant size == old(size)
        decreases |xs| + |ys|
      {
        if head == Null {
          assert xs == [];
          JoinRest(ms, ys, newBegin, tail, b);
          return;
        } else if b == Null {
          assert ys == [];
          JoinRest(ms, xs, newBegin, tail, head);
          return;
        }
        MergingFronts(xs, ys, ms, head, b, newBegin, tail, nodes, goal);
        ghost var a, nb := nodes, newBegin;
        var taken: int;
        if nodes[b].value < nodes[head].value {
          taken := b;
          newBegin, b := MoveFront(newBegin, tail, taken);
          TakeRight(xs, ys, ms, head, taken, nb, tail, a, goal, newBegin, b, nodes);
          ms, ys := ms + [taken], ys[1..];
        } else {
          taken := head;
          newBegin, head := MoveFront(newBegin, tail, taken);
          TakeLeft(xs, ys, ms, taken, b, nb, tail, a, goal, newBegin, head, nodes);
          ms, xs := ms + [taken], xs[1..];
        }
        tail := taken;
      }
    }

    /** `*tail = std::move(*src); *src = std::move(tail->next);
        tail->next = nullptr;` in `merge`: node `taken`, the front of one of
        the chains, moves behind `tail`. Returns the new start of the merged
        chain and the rest of the chain `taken` came from, which the caller
        stores back into the slot it took the node from. */
    method MoveFront(nb: int, tail: int, taken: int) returns (nb': int, rest: int)
      requires 0 <= taken < |nodes| && (tail == Null || 0 <= tail < |nodes|) && tail != taken
      modifies this
      ensures head == old(head) && order == old(order) && size == old(size)
      ensures nodes == Moved(old(nodes), tail, taken)
      ensures nb' == (if tail == Null then taken else nb) && rest == old(nodes)[taken].next
    {
      nb' := nb;
      if tail == Null { nb' := taken; } else { nodes := nodes[tail := nodes[tail].(next := taken)]; }
      rest := nodes[taken].next;
      nodes := nodes[taken := nodes[taken].(next := Null)];
    }

    /** `*tail = std::move(*src)` once the other chain is used up, then
        `_head = std::move(new_begin)`: the rest of the chain hangs off the
        end of the merged chain `ms`, which becomes the list. */
    method JoinRest(ghost ms: seq<int>, ghost rest: seq<int>, nb: int, tail: int, f: int)
      requires Seg(ms, nb, Null, nodes) && Seg(rest, f, Null, nodes)
      requires Distinct(ms) && Distinct(rest) && Disjoint(ms, rest)
      requires tail == (if ms == [] then Null else ms[|ms| - 1])
      modifies this
      ensures Valid() && size == old(size)
      ensures Contents() == Values(ms, old(nodes)) + Values(rest, old(nodes))
    {
      ghost var a := nodes;
      var nb' := nb;
      if tail == Null { nb' := f; } else { nodes := nodes[tail := nodes[tail].(next := f)]; }
      MergeJoin(ms, rest, a, nb, tail, f, nodes, nb');
      head := nb';
      order := ms + rest;
    }

    /** `*next = make_node(nullptr, v)` at the end of a chain `ids` of this
        arena that is not the list itself: the node after `last`, or the first
        one when the chain is empty. */
    method HangNode(ghost ids: seq<int>, first: int, last: int, v: int) returns (first': int, n: int)
      requires Seg(ids, first, Null, nodes) && Distinct(ids)
      requires last == (if ids == [] then Null else ids[|ids| - 1])
      modifies this
      ensures head == old(head) && order == old(order) && size == old(size)
      ensures n == |old(nodes)| && |nodes| == n + 1
      ensures forall x :: 0 <= x < n && x != last ==> nodes[x] == old(nodes)[x]
      ensures Seg(ids + [n], first', Null, nodes) && Distinct(ids + [n])
      ensures Values(ids + [n], nodes) == Values(ids, old(nodes)) + [v]
    {
      ghost var a := nodes;
      first' := first;
      n := MakeNode(Null, v);
      if last == Null { first' := n; } else { nodes := nodes[last := nodes[last].(next := n)]; }
      SnocNode(ids, first, a, v, nodes, first');
    }

    /** One element of copy assignment: `next` is the slot after the `copied`
        nodes and `r` the old nodes not yet overwritten. An existing node
        gets the value `v`; past the end of the old chain a node is added. */
    method AssignOne(next: Link, v: int, ghost copied: seq<int>, ghost r: seq<int>) returns (cur: int, ghost r': seq<int>)
      requires Valid() && order == copied + r && InArena(copied, nodes)
      requires next == (if copied == [] then HeadLink else NextLink(copied[|copied| - 1]))
      modifies this
      ensures Valid() && size == old(size)
      ensures order == copied + [cur] + r' && r' == (if r == [] then [] else r[1..])
      ensures InArena(copied + [cur], nodes)
      ensures Values(copied + [cur], nodes) == Values(copied, old(nodes)) + [v]
    {
      cur := Load(next);
      AssignSlot(copied, r, nodes, head, cur);
      if cur != Null {
        AssignReuse(copied, r, nodes, head, v);
        nodes := nodes[cur := nodes[cur].(value := v)];
        r' := r[1..];
      } else {
        assert order == copied;
        cur := LinkLast(next, v);
        r' := [];
      }
    }

    /** The copy constructor's loop, building the by-value parameter of
        `merge` in this list's arena: fresh nodes holding the values of the
        chain `srcOrder` of `src`. */
    method CopyChain(src: seq<Node>, srcHead: int, ghost srcOrder: seq<int>) returns (first: int, ghost ids: seq<int>)
      requires Valid() && Seg(srcOrder, srcHead, Null, src) && Distinct(srcOrder)
      modifies this
      ensures Valid() && order == old(order) && head == old(head) && size == old(size)
      ensures Contents() == old(Contents())
      ensures Seg(ids, first, Null, nodes) && Distinct(ids) && Disjoint(order, ids)
      ensures Values(ids, nodes) == Values(srcOrder, src)
    {
      first := Null;
      ids := [];
      var next := Null;
      var it := srcHead;
      ghost var i := 0;
      ghost var a0 := nodes;
      while it != Null
        invariant 0 <= i <= |srcOrder| && it == Follow(srcOrder, i, Null)
        invariant order == old(order) && head == old(head) && size == old(size)
        invariant |nodes| >= |a0| && forall x :: 0 <= x < |a0| ==> nodes[x] == a0[x]
        invariant Seg(ids, first, Null, nodes) && Distinct(ids)
        invariant forall j :: 0 <= j < |ids| ==> ids[j] >= |a0|
        invariant Values(ids, nodes) == Values(srcOrder[..i], src)
        invariant next == (if ids == [] then Null else ids[|ids| - 1])
        decreases |srcOrder| - i
      {
        var n: int;
        first, n := HangNode(ids, first, next, src[it].value);
        CopyStep(srcOrder, i, src);
        ids := ids + [n];
        next := n;
        it := src[it].next;
        i := i + 1;
      }
      CopyDone(order, head, ids, a0, nodes);
      FollowEnd(srcOrder, i, src);
      assert srcOrder[..i] == srcOrder;
    }

    /** Copy assignment: overwrites the values of the existing nodes, adds
        nodes when this list is shorter, cuts off the rest when it is longer,
        and copies the cached count. The source's nodes are read before
        anything is written, so self-assignment leaves the list as it was. */
    method Assign(other: SinglyLinkedList)
      requires Valid() && other.Valid()
      modifies this
      ensures Valid()
      ensures Contents() == old(other.Contents()) && size == old(other.size)
    {
      var src, srcHead := other.nodes, other.head;
      ghost var srcOrder := other.order;
      size := other.size;
      var next: Link;
      ghost var copied: seq<int>, r: seq<int>;
      next, copied, r := OverwriteChain(src, srcHead, srcOrder);
      ghost var pre, h := nodes, head;
      Store(next, Null);
      AssignTruncate(copied, r, pre, nodes, h, head);
      order := copied;
    }

    /** The loop of copy assignment: the values of the chain `srcOrder` of
        `src` are written into this list's nodes from the front, adding nodes
        once the old ones are used up. Returns the slot after the written
        nodes; the old nodes behind it are `r`. */
    method OverwriteChain(src: seq<Node>, srcHead: int, ghost srcOrder: seq<int>)
      returns (next: Link, ghost copied: seq<int>, ghost r: seq<int>)
      requires Valid() && Seg(srcOrder, srcHead, Null, src) && Distinct(srcOrder)
      modifies this
      ensures Valid() && size == old(size) && order == copied + r && InArena(copied, nodes)
      ensures Values(copied, nodes) == Values(srcOrder, src)
      ensures next == (if copied == [] then HeadLink else NextLink(copied[|copied| - 1]))
    {
      next := HeadLink;
      var it := srcHead;
      ghost var i := 0;
      copied, r := [], order;
      while it != Null
        invariant 0 <= i <= |srcOrder| && it == Follow(srcOrder, i, Null)
        invariant |copied| == i && order == copied + r
        invariant Valid() && size == old(size)
        invariant InArena(copied, nodes) && InArena(srcOrder[..i], src)
        invariant Values(copied, nodes) == Values(srcOrder[..i], src)
        invariant next == (if copied == [] then HeadLink else NextLink(copied[|copied| - 1]))
        decreases |srcOrder| - i
      {
        assert i < |srcOrder| && it == srcOrder[i];
        var cur;
        cur, r := AssignOne(next, src[it].value, copied, r);
        CopyStep(srcOrder, i, src);
        copied := copied + [cur];
        next := NextLink(cur);
        it := src[it].next;
        i := i + 1;
      }
      FollowEnd(srcOrder, i, src);
      assert srcOrder[..i] == srcOrder;
    }
  }

  /** The copy constructor: a new list whose nodes hold the values of
      `other`'s, in order, and whose counter is copied from `other`'s. */
  method CopyOf(other: SinglyLinkedList) returns (list: SinglyLinkedList)
    requires other.Valid()
    ensures fresh(list) && list.Valid()
    ensures list.Contents() == other.Contents() && list.size == other.size
  {
    list := new SinglyLinkedList();
    list.Assign(other);
  }

  // ---------------------------------------------------------------------
  // Free functions of the header.

  lemma AtInjective(list: SinglyLinkedList, i: nat, j: nat)
    requires list.Valid() && i <= |list.order| && j <= |list.order|
    ensures list.At(i) == list.At(j) ==> i == j
  {
  }

  /** `before(list, pos)`: the iterator just before `pos`, found by walking
      from `begin()`; `pos` itself when `pos == begin()`. `before(end())` is
      the last node. */
  method Before(list: SinglyLinkedList, pos: int) returns (trailing: int)
    requires list.Valid() && list.IsIterator(pos)
    ensures var k := IndexOf(list.order, pos);
      trailing == if k == 0 then pos else list.order[k - 1]
  {
    ghost var order := list.order;
    ghost var target := IndexOf(order, pos);
    assert pos == list.At(target);
    trailing := pos;
    var it := list.head;
    ghost var k := 0;
    while it != pos
      invariant 0 <= k <= target
      invariant it == list.At(k)
      invariant trailing == (if k == 0 then pos else order[k - 1])
      decreases |order| - k
    {
      trailing := it;
      it := list.nodes[it].next;
      k := k + 1;
    }
    AtInjective(list, k, target);
  }

  /** `last(list)`: the last node, or `end()` for an empty list. */
  method Last(list: SinglyLinkedList) returns (it: int)
    requires list.Valid()
    ensures it == if list.order == [] then Null else list.order[|list.order| - 1]
  {
    it := Before(list, Null);
  }

  /** One step of `operator==`: both walks stand on the `k`-th node, so
      comparing the two values decides whether the lists can still agree. */
  lemma EqualStep(l: SinglyLinkedList, r: SinglyLinkedList, k: nat)
    requires l.Valid() && r.Valid() && k <= |l.order| && k <= |r.order|
    requires l.At(k) != Null && r.At(k) != Null
    requires l.Contents()[..k] == r.Contents()[..k]
    ensures k < |l.order| && k < |r.order|
    ensures 0 <= l.At(k) < |l.nodes| && 0 <= r.At(k) < |r.nodes|
    ensures l.nodes[l.At(k)].next == l.At(k + 1) && r.nodes[r.At(k)].next == r.At(k + 1)
    ensures l.nodes[l.At(k)].value != r.nodes[r.At(k)].value ==> l.Contents() != r.Contents()
    ensures l.nodes[l.At(k)].value == r.nodes[r.At(k)].value ==> l.Contents()[..k + 1] == r.Contents()[..k + 1]
  {
    FollowEnd(l.order, k, l.nodes);
    FollowEnd(r.order, k, r.nodes);
    assert l.Contents()[k] == l.nodes[l.At(k)].value && r.Contents()[k] == r.nodes[r.At(k)].value;
    TakeSnoc(l.Contents(), k);
    TakeSnoc(r.Contents(), k);
  }

  /** `operator==`: walk both lists together comparing values; equal when
      both ends are reached at once. The cached counts are not compared. */
  method Equal(l: SinglyLinkedList, r: SinglyLinkedList) returns (b: bool)
    requires l.Valid() && r.Valid()
    ensures b <==> l.Contents() == r.Contents()
  {
    var lpos := l.head;
    var rpos := r.head;
    ghost var k := 0;
    while lpos != Null && rpos != Null
      invariant k <= |l.order| && k <= |r.order|
      invariant lpos == l.At(k) && rpos == r.At(k)
      invariant l.Contents()[..k] == r.Contents()[..k]
      decreases |l.order| - k
    {
      EqualStep(l, r, k);
      if l.nodes[lpos].value != r.nodes[rpos].value {
        return false;
      }
      lpos := l.nodes[lpos].next;
      rpos := r.nodes[rpos].next;
      k := k + 1;
    }
    FollowEnd(l.order, k, l.nodes);
    FollowEnd(r.order, k, r.nodes);
    b := lpos == Null && rpos == Null;
    if b {
      assert l.Contents() == l.Contents()[..k];
      assert r.Contents() == r.Contents()[..k];
    } else {
      assert |l.Contents()| != |r.Contents()|;
    }
  }

  /** `operator!=`: the negation of `operator==`. */
  method NotEqual(l: SinglyLinkedList, r: SinglyLinkedList) returns (b: bool)
    requires l.Valid() && r.Valid()
    ensures b <==> l.Contents() != r.Contents()
  {
    var e := Equal(l, r);
    b := !e;
  }

  /** Reversing a slice that starts one element earlier puts that element
      last. */
  lemma ReversedPrepend(s: seq<int>, c: nat, e: nat)
    requires c < e <= |s|
    ensures Reversed(s[c + 1..e]) + [s[c]] == Reversed(s[c..e])
  {
    assert s[c..e][1..] == s[c + 1..e];
  }

  /** The `next` of the node at position `s` is the iterator at `s + 1`. */
  lemma NextIterator(list: SinglyLinkedList, s: nat)
    requires list.Valid() && s < |list.order|
    ensures 0 <= list.At(s) < |list.nodes| && list.nodes[list.At(s)].next == list.At(s + 1)
    ensures list.IsIterator(list.At(s + 1)) && IndexOf(list.order, list.At(s + 1)) == s + 1
  {
    if s + 1 < |list.order| {
      IndexOfDistinct(list.order, s + 1);
    } else {
      assert list.At(s + 1) !in list.order;
    }
  }

  /** `apply_in_reverse_iterative(start, end, fn)`: for each element of
      [start, end), last one first, walk from `start` to the node just before
      the one visited previously and apply `fn` to it. The visitor `fn` is
      not modelled; the method returns the values it is applied to, in call
      order. `start` must not come after `end`. */
  method ApplyInReverseIterative(list: SinglyLinkedList, start: int, end: int) returns (visited: seq<int>)
    requires list.Valid() && list.IsIterator(start) && list.IsIterator(end)
    requires IndexOf(list.order, start) <= IndexOf(list.order, end)
    ensures var s, e := IndexOf(list.order, start), IndexOf(list.order, end);
      visited == Reversed(list.Contents()[s..e])
  {
    ghost var order := list.order;
    ghost var s := IndexOf(order, start);
    ghost var e := IndexOf(order, end);
    assert start == list.At(s) && end == list.At(e);
    var last := end;
    var current := end;
    visited := [];
    ghost var j := e;
    while start != last
      invariant s <= j <= e && last == list.At(j)
      invariant visited == Reversed(list.Contents()[j..e])
      decreases j
    {
      AtInjective(list, s, j);
      current := WalkToBefore(list, start, last, s, j);
      VisitStep(list, j, e, visited);
      visited := visited + [list.nodes[current].value];
      last := current;
      j := j - 1;
    }
    AtInjective(list, s, j);
  }

  /** Visiting the node before position `j` extends the reversed run
      `[j, e)` to `[j - 1, e)`. */
  lemma VisitStep(list: SinglyLinkedList, j: nat, e: nat, visited: seq<int>)
    requires list.Valid() && 0 < j <= e <= |list.order|
    requires visited == Reversed(list.Contents()[j..e])
    ensures 0 <= list.At(j - 1) < |list.nodes|
    ensures visited + [list.nodes[list.At(j - 1)].value] == Reversed(list.Contents()[j - 1..e])
  {
    assert list.Contents()[j - 1] == list.nodes[list.At(j - 1)].value;
    ReversedPrepend(list.Contents(), j - 1, e);
  }

  /** The inner walk of `apply_in_reverse_iterative`: from `start`, follow
      `next` until the following node is `last`. */
  method WalkToBefore(list: SinglyLinkedList, start: int, last: int, ghost s: nat, ghost j: nat) returns (current: int)
    requires list.Valid() && s < j <= |list.order|
    requires start == list.At(s) && last == list.At(j)
    ensures current == list.At(j - 1)
  {
    current := start;
    ghost var c := s;
    var next := current;
    next := list.nodes[next].next;
    while next != last
      invariant s <= c < j && current == list.At(c) && next == list.At(c + 1)
      decreases j - c
    {
      AtInjective(list, c + 1, j);
      current := list.nodes[current].next;
      c := c + 1;
      next := current;
      next := list.nodes[next].next;
    }
    AtInjective(list, c + 1, j);
  }

  /** `apply_in_reverse_recursive(start, end, fn)`: visit everything after
      `start` in reverse (through `apply_in_reverse`), then `start` itself. */
  method ApplyInReverseRecursive(list: SinglyLinkedList, start: int, end: int) returns (visited: seq<int>)
    requires list.Valid() && list.IsIterator(start) && list.IsIterator(end)
    requires IndexOf(list.order, start) <= IndexOf(list.order, end)
    ensures var s, e := IndexOf(list.order, start), IndexOf(list.order, end);
      visited == Reversed(list.Contents()[s..e])
  {
    ghost var s := IndexOf(list.order, start);
    ghost var e := IndexOf(list.order, end);
    ghost var c := list.Contents();
    assert start == list.At(s) && end == list.At(e);
    AtInjective(list, s, e);
    if start == end {
      return [];
    }
    var it := start;
    NextIterator(list, s);
    var next := list.nodes[it].next;
    var rest := ApplyInReverse(list, next, end);
    assert list.nodes[it].value == c[s];
    visited := rest + [list.nodes[it].value];
    ReversedPrepend(c, s, e);
  }

  /** `apply_in_reverse(start, end, fn)`: the iterative version. */
  method ApplyInReverse(list: SinglyLinkedList, start: int, end: int) returns (visited: seq<int>)
    requires list.Valid() && list.IsIterator(start) && list.IsIterator(end)
    requires IndexOf(list.order, start) <= IndexOf(list.order, end)
    ensures var s, e := IndexOf(list.order, start), IndexOf(list.order, end);
      visited == Reversed(list.Contents()[s..e])
  {
    visited := ApplyInReverseIterative(list, start, end);
  }
}
