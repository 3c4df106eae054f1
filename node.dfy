/** Virtual quadtree nodes and their breadth-first enumeration.

    A `VNode` names one cell of a complete quaternary tree per cube face of
    the planet: its face, its subdivision level (0 is the whole face) and its
    column and row within that level. Nodes are plain values; the tree is
    never stored, only walked. */
module Nodes {

  /** Number of level-0 nodes the walk starts from (one per cube face). */
  const FACES: nat := 6

  /** The finest level the terrain supports (cells of about 2 cm). */
  const LEVEL_CELL_2CM: nat := 22

  datatype VNode = VNode(face: nat, level: nat, x: nat, y: nat)

  /** Child `i` of `n`: bit 0 of `i` picks the column, bit 1 the row. This
      order fixes which bit of a visibility mask stands for which child. */
  function Child(n: VNode, i: nat): (c: VNode)
    requires i < 4
    ensures c.face == n.face && c.level == n.level + 1
  {
    VNode(n.face, n.level + 1, 2 * n.x + i % 2, 2 * n.y + i / 2)
  }

  /** The four children, in mask-bit order. */
  function Children(n: VNode): (cs: seq<VNode>)
    ensures |cs| == 4
    ensures forall i | 0 <= i < 4 :: cs[i] == Child(n, i)
  {
    [Child(n, 0), Child(n, 1), Child(n, 2), Child(n, 3)]
  }

  /** The node whose child `n` is. */
  function Parent(n: VNode): (p: VNode)
    requires n.level > 0
    ensures p.level == n.level - 1
    ensures exists i | 0 <= i < 4 :: Child(p, i) == n
  {
    var p := VNode(n.face, n.level - 1, n.x / 2, n.y / 2);
    assert Child(p, n.x % 2 + 2 * (n.y % 2)) == n;
    p
  }

  lemma ParentOfChild(n: VNode, i: nat)
    requires i < 4
    ensures Parent(Child(n, i)) == n
  {
  }

  /** Distinct positions have distinct children. */
  lemma ChildInjective(n: VNode, i: nat, m: VNode, j: nat)
    requires i < 4 && j < 4
    requires Child(n, i) == Child(m, j)
    ensures n == m && i == j
  {
    ParentOfChild(n, i);
    ParentOfChild(m, j);
  }

  /** The position of `c` among its parent's children: `Child(Parent(c), ChildIndex(c)) == c`. */
  function ChildIndex(c: VNode): (i: nat)
    ensures i < 4
  {
    c.x % 2 + 2 * (c.y % 2)
  }

  lemma ChildOfParent(c: VNode)
    requires c.level > 0
    ensures Child(Parent(c), ChildIndex(c)) == c
  {
  }

  /** Number of nodes per side of a face at `level`. */
  function Side(level: nat): (s: nat)
    ensures s >= 1
  {
    if level == 0 then 1 else 2 * Side(level - 1)
  }

  /** `n` is one of the cells of its face at its level. */
  predicate OnFace(n: VNode) {
    n.face < FACES && n.x < Side(n.level) && n.y < Side(n.level)
  }

  /** The ancestor of `n` at `level`, reached by repeated `Parent`. */
  function AncestorAt(n: VNode, level: nat): (a: VNode)
    requires level <= n.level
    ensures a.level == level && a.face == n.face
    decreases n.level
  {
    if n.level == level then n else AncestorAt(Parent(n), level)
  }

  /** Consecutive ancestors are parent and child. */
  lemma {:induction false} AncestorStep(n: VNode, level: nat)
    requires level < n.level
    ensures Parent(AncestorAt(n, level + 1)) == AncestorAt(n, level)
    decreases n.level
  {
    if n.level > level + 1 {
      AncestorStep(Parent(n), level);
    }
  }

  /** A cell of a face descends from that face's root. */
  lemma {:induction false} OnFaceRoot(n: VNode)
    requires OnFace(n)
    ensures IsRoot(AncestorAt(n, 0))
    decreases n.level
  {
    if n.level > 0 {
      var p := Parent(n);
      assert p.x < Side(p.level) && p.y < Side(p.level);
      OnFaceRoot(p);
    }
  }

  predicate IsRoot(n: VNode) {
    n.level == 0 && n.face < FACES && n.x == 0 && n.y == 0
  }

  /** The nodes the walk starts from: the whole of each face. */
  function Roots(): (rs: seq<VNode>)
    ensures |rs| == FACES
    ensures forall n :: n in rs <==> IsRoot(n)
  {
    var rs := seq(FACES, f requires 0 <= f => VNode(f, 0, 0, 0));
    assert forall n | IsRoot(n) :: rs[n.face] == n;
    rs
  }

  // ---------------------------------------------------------------------
  // The breadth-first walk.

  /** Number of nodes in the subtree of a node at `level`, cut at the finest
      level: a bound on the walk below one pending node. */
  function Weight(level: nat): (w: nat)
    ensures w >= 1
    decreases LEVEL_CELL_2CM - level
  {
    if level >= LEVEL_CELL_2CM then 1 else 1 + 4 * Weight(level + 1)
  }

  function QueueWeight(q: seq<VNode>): nat
  {
    if q == [] then 0 else Weight(q[0].level) + QueueWeight(q[1..])
  }

  lemma {:induction false} QueueWeightAppend(a: seq<VNode>, b: seq<VNode>)
    ensures QueueWeight(a + b) == QueueWeight(a) + QueueWeight(b)
  {
    if a == [] {
      assert a + b == b;
    } else {
      assert (a + b)[1..] == a[1..] + b;
      QueueWeightAppend(a[1..], b);
    }
  }

  lemma ChildrenWeight(n: VNode)
    ensures QueueWeight(Children(n)) == 4 * Weight(n.level + 1)
  {
    QueueWeightFour(Children(n), n.level + 1);
  }

  /** Four nodes of one level weigh four subtrees of that level. */
  lemma QueueWeightFour(q: seq<VNode>, level: nat)
    requires |q| == 4 && forall i | 0 <= i < 4 :: q[i].level == level
    ensures QueueWeight(q) == 4 * Weight(level)
  {
    var w := Weight(level);
    assert QueueWeight(q[3..]) == w by { assert q[3..][1..] == []; }
    assert QueueWeight(q[2..]) == 2 * w by { assert q[2..][1..] == q[3..]; }
    assert QueueWeight(q[1..]) == 3 * w by { assert q[1..][1..] == q[2..]; }
  }

  /** Whether the walk enqueues the children of `n` once `descend` answered
      for it: only when asked to, and never past the finest level. */
  predicate Expands(descend: VNode -> bool, n: VNode) {
    descend(n) && n.level < LEVEL_CELL_2CM
  }

  /** One step of the walk: drop the front node of the queue and, when the
      visitor asked for it and the node is above the finest level, append
      its four children. */
  function Advance(pending: seq<VNode>, refine: bool): seq<VNode>
    requires pending != []
  {
    var n := pending[0];
    if refine && n.level < LEVEL_CELL_2CM then pending[1..] + Children(n) else pending[1..]
  }

  /** A step of the walk lightens the queue: the children it may add weigh
      less than the node it drops. */
  lemma AdvanceWeight(pending: seq<VNode>, refine: bool)
    requires pending != []
    ensures QueueWeight(Advance(pending, refine)) < QueueWeight(pending)
  {
    var n := pending[0];
    assert QueueWeight(pending) == Weight(n.level) + QueueWeight(pending[1..]);
    if refine && n.level < LEVEL_CELL_2CM {
      QueueWeightAppend(pending[1..], Children(n));
      ChildrenWeight(n);
    }
  }

  /** The queue after visiting its front node. */
  function NextQueue(pending: seq<VNode>, descend: VNode -> bool): seq<VNode>
    requires pending != []
  {
    Advance(pending, descend(pending[0]))
  }

  /** The nodes a breadth-first walk visits, in visiting order, starting from
      the queue `pending`: the front node is visited, and its four children
      join the back of the queue when `Expands` holds of it. */
  function Walk(pending: seq<VNode>, descend: VNode -> bool): seq<VNode>
    decreases QueueWeight(pending)
  {
    if pending == [] then []
    else
      AdvanceWeight(pending, descend(pending[0]));
      [pending[0]] + Walk(NextQueue(pending, descend), descend)
  }

  /** One step of the walk, for a visitor that answered `refine` for the front node. */
  lemma WalkStep(pending: seq<VNode>, descend: VNode -> bool, refine: bool)
    requires pending != [] && refine == descend(pending[0])
    ensures Walk(pending, descend) == [pending[0]] + Walk(Advance(pending, refine), descend)
  {
  }

  /** One step of a walk already under way: `visited` grows by the front node. */
  lemma WalkStepAfter(visited: seq<VNode>, pending: seq<VNode>, descend: VNode -> bool, refine: bool)
    requires pending != [] && refine == descend(pending[0])
    ensures visited + Walk(pending, descend) == (visited + [pending[0]]) + Walk(Advance(pending, refine), descend)
  {
    WalkStep(pending, descend, refine);
  }

  // ---------------------------------------------------------------------
  // Which nodes the walk reaches, stated without the queue.

  /** `n` lies below `m` along a chain of nodes the walk expands (or is `m`). */
  predicate Below(descend: VNode -> bool, m: VNode, n: VNode)
    decreases n.level
  {
    n == m || (n.level > m.level && Below(descend, m, Parent(n)) && Expands(descend, Parent(n)))
  }

  /** `n` is a root, or its parent is reached and expanded. */
  predicate Reached(descend: VNode -> bool, n: VNode)
    decreases n.level
  {
    if n.level == 0 then IsRoot(n) else Reached(descend, Parent(n)) && Expands(descend, Parent(n))
  }

  lemma {:induction false} BelowLevel(descend: VNode -> bool, m: VNode, n: VNode)
    requires Below(descend, m, n)
    ensures n.level >= m.level
  {
  }

  /** A node strictly below `m` lies below one of `m`'s children. */
  lemma {:induction false} BelowSomeChild(descend: VNode -> bool, m: VNode, n: VNode)
    requires Below(descend, m, n) && n != m
    ensures Expands(descend, m)
    ensures exists i | 0 <= i < 4 :: Below(descend, Child(m, i), n)
    decreases n.level
  {
    var p := Parent(n);
    var k :| 0 <= k < 4 && Child(p, k) == n;
    if p == m {
      assert Below(descend, Child(m, k), n);
    } else {
      BelowSomeChild(descend, m, p);
      var i :| 0 <= i < 4 && Below(descend, Child(m, i), p);
      BelowLevel(descend, Child(m, i), p);
      assert Below(descend, Child(m, i), n);
    }
  }

  /** What lies below an expanded node's child lies below the node. */
  lemma {:induction false} BelowChild(descend: VNode -> bool, m: VNode, i: nat, n: VNode)
    requires i < 4 && Expands(descend, m) && Below(descend, Child(m, i), n)
    ensures Below(descend, m, n)
    decreases n.level
  {
    if n == Child(m, i) {
      ParentOfChild(m, i);
      assert Below(descend, m, m);
    } else {
      BelowChild(descend, m, i, Parent(n));
      BelowLevel(descend, Child(m, i), Parent(n));
    }
  }

  /** The walk from `pending` visits exactly what lies below some queued node. */
  lemma {:induction false} WalkVisits(pending: seq<VNode>, descend: VNode -> bool, n: VNode)
    ensures n in Walk(pending, descend) <==> BelowQueue(descend, pending, n)
    decreases QueueWeight(pending)
  {
    if pending != [] {
      var next := NextQueue(pending, descend);
      AdvanceWeight(pending, descend(pending[0]));
      WalkVisits(next, descend, n);
      assert Walk(pending, descend) == [pending[0]] + Walk(next, descend);
      BelowQueueFromNext(pending, descend, n);
      BelowQueueToNext(pending, descend, n);
    }
  }

  /** `n` lies below some queued node. */
  predicate BelowQueue(descend: VNode -> bool, pending: seq<VNode>, n: VNode) {
    exists i | 0 <= i < |pending| :: Below(descend, pending[i], n)
  }

  /** What lies below the advanced queue lies below the queue. */
  lemma BelowQueueFromNext(pending: seq<VNode>, descend: VNode -> bool, n: VNode)
    requires pending != []
    ensures BelowQueue(descend, NextQueue(pending, descend), n) ==> BelowQueue(descend, pending, n)
  {
    var m := pending[0];
    var next := NextQueue(pending, descend);
    if BelowQueue(descend, next, n) {
      var j :| 0 <= j < |next| && Below(descend, next[j], n);
      if j < |pending| - 1 {
        assert next[j] == pending[j + 1];
      } else {
        assert next[j] == Child(m, j - (|pending| - 1));
        BelowChild(descend, m, j - (|pending| - 1), n);
        assert Below(descend, pending[0], n);
      }
    }
  }

  /** What lies below the queue is its front or lies below the advanced queue. */
  lemma BelowQueueToNext(pending: seq<VNode>, descend: VNode -> bool, n: VNode)
    requires pending != []
    ensures BelowQueue(descend, pending, n) && n != pending[0] ==> BelowQueue(descend, NextQueue(pending, descend), n)
  {
    var m := pending[0];
    var next := NextQueue(pending, descend);
    if BelowQueue(descend, pending, n) && n != m {
      var i :| 0 <= i < |pending| && Below(descend, pending[i], n);
      if i > 0 {
        assert next[i - 1] == pending[i];
      } else {
        BelowSomeChild(descend, m, n);
        var k :| 0 <= k < 4 && Below(descend, Child(m, k), n);
        assert next[|pending| - 1 + k] == Child(m, k);
      }
    }
  }

  lemma {:induction false} ReachedBelowRoot(descend: VNode -> bool, n: VNode)
    ensures Reached(descend, n) <==> Below(descend, VNode(n.face, 0, 0, 0), n) && n.face < FACES
    decreases n.level
  {
    if n.level > 0 {
      var p := Parent(n);
      ReachedBelowRoot(descend, p);
      if Below(descend, VNode(n.face, 0, 0, 0), n) {
        assert Below(descend, VNode(n.face, 0, 0, 0), p);
      }
    }
  }

  /** The walk from the roots visits exactly the reached nodes. This is the
      traversal `breadth_first` promises: a node is visited iff it is a root
      or its parent was visited, expanded, and is above the finest level. */
  lemma WalkFromRoots(descend: VNode -> bool, n: VNode)
    ensures n in Walk(Roots(), descend) <==> Reached(descend, n)
  {
    WalkVisits(Roots(), descend, n);
    ReachedBelowRoot(descend, n);
    BelowSomeRoot(descend, n);
  }

  /** Lying below some root is lying below the root of one's own face. */
  lemma BelowSomeRoot(descend: VNode -> bool, n: VNode)
    ensures (exists i | 0 <= i < |Roots()| :: Below(descend, Roots()[i], n)) <==>
              Below(descend, VNode(n.face, 0, 0, 0), n) && n.face < FACES
  {
    var rs := Roots();
    if n.face < FACES {
      assert rs[n.face] == VNode(n.face, 0, 0, 0);
    }
    if exists i | 0 <= i < |rs| :: Below(descend, rs[i], n) {
      var i :| 0 <= i < |rs| && Below(descend, rs[i], n);
      assert IsRoot(rs[i]);
      BelowSameFace(descend, rs[i], n);
    }
  }

  lemma {:induction false} BelowSameFace(descend: VNode -> bool, m: VNode, n: VNode)
    requires Below(descend, m, n)
    ensures n.face == m.face
    decreases n.level
  {
    if n != m {
      BelowSameFace(descend, m, Parent(n));
    }
  }

  /** The walk never visits a node past the finest level, whatever `descend` says. */
  lemma {:induction false} ReachedLevelBound(descend: VNode -> bool, n: VNode)
    requires Reached(descend, n)
    ensures n.level <= LEVEL_CELL_2CM
  {
  }

  /** A reached node's ancestors are reached, and each was expanded. */
  lemma {:induction false} ReachedAncestor(descend: VNode -> bool, n: VNode, level: nat, deeper: nat)
    requires level < deeper <= n.level
    requires Reached(descend, AncestorAt(n, deeper))
    ensures Reached(descend, AncestorAt(n, level)) && Expands(descend, AncestorAt(n, level))
    decreases deeper - level
  {
    AncestorStep(n, deeper - 1);
    if level < deeper - 1 {
      ReachedAncestor(descend, n, level, deeper - 1);
    }
  }

  /** A walk that expands more nodes reaches more nodes. */
  lemma {:induction false} ReachedMonotone(d: VNode -> bool, e: VNode -> bool, n: VNode)
    requires Reached(d, n)
    requires forall m :: d(m) ==> e(m)
    ensures Reached(e, n)
    decreases n.level
  {
    if n.level > 0 {
      ReachedMonotone(d, e, Parent(n));
    }
  }
}
