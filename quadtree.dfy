/** The per-frame level-of-detail controller of the terrain quadtree.

    Each frame the caller hands in the camera position; `UpdatePriorities`
    scores every node a pruned breadth-first walk reaches, and
    `UpdateVisibility` turns those scores into the two render lists: nodes
    drawn whole, and nodes drawn only where some of their children are not
    (with a 4-bit mask of those children). The first half of the module
    states what the lists and the map must be as functions of the inputs;
    the class below computes them in place and is proved to match. */
module QuadTrees {
  import opened Nodes
  import opened Priorities
  import IndexBuffers

  datatype Option<T> = None | Some(value: T)

  /** A camera position, compared exactly. */
  datatype Point3 = Point3(x: real, y: real, z: real)

  /** Bit i set: child i is not visible on its own. */
  type Mask = bv8

  // ---------------------------------------------------------------------
  // Priorities.

  /** The visitor of the scoring walk: refine while the node is worth it. */
  function PriorityDescent(score: (VNode, Point3) -> Priority, camera: Point3): VNode -> bool {
    (n: VNode) => score(n, camera) >= CUTOFF && n.level < LEVEL_CELL_2CM
  }

  /** The priority map rebuilt for `camera`: every node the scoring walk
      visits, with its score. */
  function RebuiltPriorities(score: (VNode, Point3) -> Priority, camera: Point3): map<VNode, Priority> {
    Scored(score, camera, Walk(Roots(), PriorityDescent(score, camera)))
  }

  /** The nodes of `nodes`, each with its score for `camera`. */
  function Scored(score: (VNode, Point3) -> Priority, camera: Point3, nodes: seq<VNode>): map<VNode, Priority> {
    map n | n in nodes :: score(n, camera)
  }

  /** A priority lookup with `NONE` for missing nodes. */
  function Lookup(priorities: map<VNode, Priority>, n: VNode): (p: Priority)
    ensures n in priorities ==> p == priorities[n]
    ensures n !in priorities ==> p == NONE
  {
    if n in priorities then priorities[n] else NONE
  }

  // ---------------------------------------------------------------------
  // Visibility, first pass.

  /** Roots are always visible; another node is visible iff it scores at
      least the cutoff. */
  predicate Visible(priorities: map<VNode, Priority>, n: VNode) {
    n.level == 0 || Lookup(priorities, n) >= CUTOFF
  }

  /** The visitor of the first pass: descend below visible nodes only. */
  function VisibleDescent(priorities: map<VNode, Priority>): VNode -> bool {
    (n: VNode) => Visible(priorities, n) && n.level < LEVEL_CELL_2CM
  }

  /** What the first pass must produce: a flag for exactly the nodes its
      walk visits, each saying whether that node is visible. */
  ghost predicate FirstPassFlags(priorities: map<VNode, Priority>, visibilities: map<VNode, bool>) {
    && (forall n :: n in visibilities <==> n in Walk(Roots(), VisibleDescent(priorities)))
    && (forall n | n in visibilities :: visibilities[n] == Visible(priorities, n))
  }

  // ---------------------------------------------------------------------
  // Visibility, second pass.

  /** The mask bit of child `i`, `1 << i`. */
  function Bit(i: nat): (b: Mask)
    requires i < 4
    ensures b == (1 as Mask) << i
  {
    if i == 0 then 1 else if i == 1 then 2 else if i == 2 then 4 else 8
  }

  /** The mask with bit i set iff `hidden[i]`. */
  function MaskOf(hidden: seq<bool>): Mask
    requires |hidden| <= 4
  {
    if hidden == [] then 0
    else
      var i := |hidden| - 1;
      MaskOf(hidden[..i]) | (if hidden[i] then Bit(i) else 0)
  }

  /** Which children of `n` are not visible, in child order. */
  function HiddenChildren(priorities: map<VNode, Priority>, n: VNode): (h: seq<bool>)
    ensures |h| == 4
  {
    seq(4, i requires 0 <= i < 4 => !Visible(priorities, Child(n, i)))
  }

  function ChildMaskOf(priorities: map<VNode, Priority>, n: VNode): Mask {
    MaskOf(HiddenChildren(priorities, n))
  }

  /** None of the children of `n` is visible. */
  predicate NoChildVisible(priorities: map<VNode, Priority>, n: VNode) {
    forall i | 0 <= i < 4 :: !Visible(priorities, Child(n, i))
  }

  /** Every child of `n` is visible. */
  predicate AllChildrenVisible(priorities: map<VNode, Priority>, n: VNode) {
    forall i | 0 <= i < 4 :: Visible(priorities, Child(n, i))
  }

  /** The visitor of the second pass: descend below a visible node above the
      finest level unless none of its children is visible. */
  function RenderDescent(priorities: map<VNode, Priority>): VNode -> bool {
    (n: VNode) => n.level < LEVEL_CELL_2CM && Visible(priorities, n) && !NoChildVisible(priorities, n)
  }

  function RenderWalk(priorities: map<VNode, Priority>): seq<VNode> {
    Walk(Roots(), RenderDescent(priorities))
  }

  /** A visited node is drawn whole when it is visible and either at the
      finest level or with no visible child. */
  predicate DrawnWhole(priorities: map<VNode, Priority>, n: VNode) {
    Visible(priorities, n) && (n.level >= LEVEL_CELL_2CM || NoChildVisible(priorities, n))
  }

  /** A visited node is drawn in part when it is visible, above the finest
      level, and some but not all of its children are visible. */
  predicate DrawnPartly(priorities: map<VNode, Priority>, n: VNode) {
    && n.level < LEVEL_CELL_2CM && Visible(priorities, n)
    && !NoChildVisible(priorities, n) && !AllChildrenVisible(priorities, n)
  }

  /** `whole` after visiting `n`: with `n` appended if it is drawn whole. */
  function WholeAfter(priorities: map<VNode, Priority>, whole: seq<VNode>, n: VNode): seq<VNode> {
    whole + (if DrawnWhole(priorities, n) then [n] else [])
  }

  /** `partial` after visiting `n`: with `n` and its mask appended if it is
      drawn in part. */
  function PartialAfter(priorities: map<VNode, Priority>, partial: seq<(VNode, Mask)>, n: VNode): seq<(VNode, Mask)> {
    partial + (if DrawnPartly(priorities, n) then [(n, ChildMaskOf(priorities, n))] else [])
  }

  /** The nodes of `visited` drawn whole, in order. */
  function WholeNodes(priorities: map<VNode, Priority>, visited: seq<VNode>): seq<VNode> {
    if visited == [] then []
    else
      var n := visited[|visited| - 1];
      WholeAfter(priorities, WholeNodes(priorities, visited[..|visited| - 1]), n)
  }

  /** The nodes of `visited` drawn in part, with their masks, in order. */
  function PartialNodes(priorities: map<VNode, Priority>, visited: seq<VNode>): seq<(VNode, Mask)> {
    if visited == [] then []
    else
      var n := visited[|visited| - 1];
      PartialAfter(priorities, PartialNodes(priorities, visited[..|visited| - 1]), n)
  }

  function VisibleNodesFor(priorities: map<VNode, Priority>): seq<VNode> {
    WholeNodes(priorities, RenderWalk(priorities))
  }

  function PartiallyVisibleNodesFor(priorities: map<VNode, Priority>): seq<(VNode, Mask)> {
    PartialNodes(priorities, RenderWalk(priorities))
  }

  /** The mask over the flags of a visibility map, as the second pass reads them. */
  function HiddenAmong(visibilities: map<VNode, bool>, n: VNode): (h: seq<bool>)
    requires forall i | 0 <= i < 4 :: Child(n, i) in visibilities
    ensures |h| == 4
  {
    seq(4, i requires 0 <= i < 4 => !visibilities[Child(n, i)])
  }

  /** The loop of the second pass that builds the mask of `node`. */
  method ChildMask(visibilities: map<VNode, bool>, node: VNode) returns (mask: Mask)
    requires forall i | 0 <= i < 4 :: Child(node, i) in visibilities
    ensures mask == MaskOf(HiddenAmong(visibilities, node))
  {
    var children := Children(node);
    ghost var hidden := HiddenAmong(visibilities, node);
    mask := 0;
    for i := 0 to 4
      invariant mask == MaskOf(hidden[..i])
    {
      MaskOfSnoc(hidden, i);
      if !visibilities[children[i]] {
        mask := mask | Bit(i);
      }
    }
    assert hidden[..4] == hidden;
  }

  /** Extending the flags by flag `i` ors in bit `i` if that flag is set. */
  lemma MaskOfSnoc(hidden: seq<bool>, i: nat)
    requires i < |hidden| <= 4
    ensures MaskOf(hidden[..i + 1]) == MaskOf(hidden[..i]) | (if hidden[i] then Bit(i) else 0)
  {
    assert hidden[..i + 1][..i] == hidden[..i];
  }

  /** The node-to-priority map, the render lists and the cache key they were
      computed for. */
  class QuadTree {
    /** Nodes drawn whole this frame. */
    var visibleNodes: seq<VNode>
    /** Nodes drawn only over their non-visible children, with the mask. */
    var partiallyVisibleNodes: seq<(VNode, Mask)>
    /** Height samples per node side (a `u32`). */
    const heightsResolution: nat
    var nodePriorities: map<VNode, Priority>
    var lastCameraPosition: Option<Point3>
    /** The score of a node seen from a camera position. */
    const priorityOf: (VNode, Point3) -> Priority

    /** The priority map is the one rebuilt for the last camera position,
        and is empty before the first rescoring. */
    ghost predicate Coherent()
      reads this`nodePriorities, this`lastCameraPosition
    {
      match lastCameraPosition
      case None => nodePriorities == map[]
      case Some(c) => nodePriorities == RebuiltPriorities(priorityOf, c)
    }

    constructor (heightsResolution: nat, priorityOf: (VNode, Point3) -> Priority)
      requires heightsResolution < 0x1_0000_0000
      ensures this.heightsResolution == heightsResolution && this.priorityOf == priorityOf
      ensures visibleNodes == [] && partiallyVisibleNodes == []
      ensures nodePriorities == map[] && lastCameraPosition == None
      ensures Coherent()
    {
      this.heightsResolution := heightsResolution;
      this.priorityOf := priorityOf;
      visibleNodes := [];
      partiallyVisibleNodes := [];
      nodePriorities := map[];
      lastCameraPosition := None;
    }

    /** Rescore the tree for `camera`, unless it is exactly the camera of
        the last rescoring. */
    method UpdatePriorities(camera: Point3)
      requires Coherent()
      modifies this`nodePriorities, this`lastCameraPosition
      ensures old(lastCameraPosition) == Some(camera) ==>
                nodePriorities == old(nodePriorities) && lastCameraPosition == old(lastCameraPosition)
      ensures old(lastCameraPosition) != Some(camera) ==> nodePriorities == RebuiltPriorities(priorityOf, camera)
      ensures lastCameraPosition == Some(camera)
      ensures nodePriorities == RebuiltPriorities(priorityOf, camera)
      ensures Coherent()
    {
      if lastCameraPosition == Some(camera) {
        return;
      }
      lastCameraPosition := Some(camera);
      ghost var descend := PriorityDescent(priorityOf, camera);

      nodePriorities := map[];
      var pending := Roots();
      ghost var visited: seq<VNode> := [];
      ScoreStart(priorityOf, camera);
      while pending != []
        invariant ScoreLoop(priorityOf, camera, visited, pending, nodePriorities)
        invariant lastCameraPosition == Some(camera)
        decreases QueueWeight(pending)
      {
        var node := pending[0];
        var priority := priorityOf(node, camera);
        var refine := priority >= CUTOFF && node.level < LEVEL_CELL_2CM;
        ScoreAdvance(priorityOf, camera, visited, pending, refine, nodePriorities);
        nodePriorities := nodePriorities[node := priority];
        AdvanceWeight(pending, refine);
        pending := Advance(pending, refine);
        visited := visited + [node];
      }
      ScoreFinish(priorityOf, camera, visited, nodePriorities);
    }

    /** The priority of `node`, or `NONE` if it was not scored. */
    function NodePriority(node: VNode): (p: Priority)
      reads this
      ensures node in nodePriorities ==> p == nodePriorities[node]
      ensures node !in nodePriorities ==> p == NONE
    {
      Lookup(nodePriorities, node)
    }

    /** The first pass of `UpdateVisibility`: flag every node it visits. */
    method ComputeVisibilities() returns (visibilities: map<VNode, bool>)
      ensures FirstPassFlags(nodePriorities, visibilities)
    {
      var priorities := nodePriorities;
      ghost var descend := VisibleDescent(priorities);
      visibilities := map[];
      var pending := Roots();
      ghost var visited: seq<VNode> := [];
      ghost var walk := Walk(pending, descend);
      while pending != []
        invariant visited + Walk(pending, descend) == walk
        invariant forall n :: n in visibilities <==> n in visited
        invariant forall n | n in visibilities :: visibilities[n] == Visible(priorities, n)
        decreases QueueWeight(pending)
      {
        var node := pending[0];
        ghost var oldVis := visibilities;
        var priority := NodePriority(node);
        var visible := node.level == 0 || priority >= CUTOFF;
        assert visible == Visible(priorities, node);
        visibilities := visibilities[node := visible];
        forall n | n in visibilities ensures visibilities[n] == Visible(priorities, n) {
          if n != node { assert n in oldVis; }
        }
        var refine := visible && node.level < LEVEL_CELL_2CM;
        assert refine == descend(node);
        WalkStepAfter(visited, pending, descend, refine);
        AdvanceWeight(pending, refine);
        pending := Advance(pending, refine);
        visited := visited + [node];
      }
      assert visited == walk;
    }

    /** Rebuild both render lists from the current priorities. */
    method UpdateVisibility()
      modifies this`visibleNodes, this`partiallyVisibleNodes
      ensures visibleNodes == VisibleNodesFor(nodePriorities)
      ensures partiallyVisibleNodes == PartiallyVisibleNodesFor(nodePriorities)
    {
      visibleNodes := [];
      partiallyVisibleNodes := [];
      var visibilities := ComputeVisibilities();
      RenderPass(visibilities);
    }

    /** The second pass of `UpdateVisibility`: walk again, descending only
        where some child is visible, appending to the cleared render lists. */
    method RenderPass(visibilities: map<VNode, bool>)
      requires FirstPassFlags(nodePriorities, visibilities)
      requires visibleNodes == [] && partiallyVisibleNodes == []
      modifies this`visibleNodes, this`partiallyVisibleNodes
      ensures visibleNodes == VisibleNodesFor(nodePriorities)
      ensures partiallyVisibleNodes == PartiallyVisibleNodesFor(nodePriorities)
    {
      var pending := Roots();
      ghost var visited: seq<VNode> := [];
      RenderStart(nodePriorities);
      while pending != []
        invariant RenderLoop(nodePriorities, visited, pending, visibleNodes, partiallyVisibleNodes)
        decreases QueueWeight(pending)
      {
        var node := pending[0];
        pending := RenderNext(visibilities, visited, pending);
        visited := visited + [node];
      }
      RenderFinish(nodePriorities, visited, visibleNodes, partiallyVisibleNodes);
    }

    /** One step of the second pass: visit the front node of the queue and
        queue its children if the visitor asks for them. */
    method RenderNext(visibilities: map<VNode, bool>, ghost visited: seq<VNode>, pending: seq<VNode>)
      returns (next: seq<VNode>)
      requires FirstPassFlags(nodePriorities, visibilities)
      requires pending != [] && RenderLoop(nodePriorities, visited, pending, visibleNodes, partiallyVisibleNodes)
      modifies this`visibleNodes, this`partiallyVisibleNodes
      ensures RenderLoop(old(nodePriorities), visited + [pending[0]], next, visibleNodes, partiallyVisibleNodes)
      ensures QueueWeight(next) < QueueWeight(pending)
    {
      ghost var priorities, whole, partial := nodePriorities, visibleNodes, partiallyVisibleNodes;
      RenderFront(priorities, visibilities, visited, pending, whole, partial);
      var refine := RenderVisit(visibilities, pending[0]);
      RenderAdvance(priorities, visited, pending, refine, whole, partial, visibleNodes, partiallyVisibleNodes);
      AdvanceWeight(pending, refine);
      next := Advance(pending, refine);
    }

    /** The visitor of the second pass: record `node` as drawn whole or in
        part, and answer whether to descend below it. */
    method RenderVisit(visibilities: map<VNode, bool>, node: VNode) returns (refine: bool)
      requires FlagsAround(nodePriorities, visibilities, node)
      modifies this`visibleNodes, this`partiallyVisibleNodes
      ensures visibleNodes == WholeAfter(old(nodePriorities), old(visibleNodes), node)
      ensures partiallyVisibleNodes == PartialAfter(old(nodePriorities), old(partiallyVisibleNodes), node)
      ensures refine == RenderDescent(old(nodePriorities))(node)
    {
      RenderDecision(nodePriorities, visibilities, node);
      if node.level < LEVEL_CELL_2CM && visibilities[node] {
        var mask := ChildMask(visibilities, node);
        HiddenAmongChildren(nodePriorities, visibilities, node);
        assert mask == ChildMaskOf(nodePriorities, node);
        if mask == 15 {
          assert DrawnWhole(nodePriorities, node) && !DrawnPartly(nodePriorities, node);
          visibleNodes := visibleNodes + [node];
        } else if mask > 0 {
          assert !DrawnWhole(nodePriorities, node) && DrawnPartly(nodePriorities, node);
          partiallyVisibleNodes := partiallyVisibleNodes + [(node, mask)];
        } else {
          assert !DrawnWhole(nodePriorities, node) && !DrawnPartly(nodePriorities, node);
        }
        refine := mask < 15;
      } else if visibilities[node] {
        assert DrawnWhole(nodePriorities, node) && !DrawnPartly(nodePriorities, node);
        visibleNodes := visibleNodes + [node];
        refine := false;
      } else {
        assert !DrawnWhole(nodePriorities, node) && !DrawnPartly(nodePriorities, node);
        refine := false;
      }
    }

    /** The triangle indices shared by every node: the full-resolution grid
        and then the half-resolution one, as the bytes of the index buffer. */
    method CreateIndexBuffers() returns (bytes: seq<IndexBuffers.Byte>)
      ensures bytes == IndexBuffers.IndexBufferBytes(heightsResolution % 0x1_0000)
    {
      bytes := IndexBuffers.LayOutIndexBuffers(heightsResolution % 0x1_0000);
    }
  }

  // ---------------------------------------------------------------------
  // What the specification functions promise.

  /** The rebuilt map holds exactly the nodes reached through an unbroken
      chain of ancestors scoring at least the cutoff, each with its score. */
  lemma RebuiltKeys(score: (VNode, Point3) -> Priority, camera: Point3, n: VNode)
    ensures n in RebuiltPriorities(score, camera) <==> Reached(PriorityDescent(score, camera), n)
    ensures n in RebuiltPriorities(score, camera) ==> RebuiltPriorities(score, camera)[n] == score(n, camera)
  {
    WalkFromRoots(PriorityDescent(score, camera), n);
  }

  /** Every scored non-root node has a scored parent at or above the cutoff
      and above the finest level; no scored node is past the finest level. */
  lemma RebuiltParentAboveCutoff(score: (VNode, Point3) -> Priority, camera: Point3, n: VNode)
    requires n in RebuiltPriorities(score, camera)
    ensures n.level <= LEVEL_CELL_2CM
    ensures n.level == 0 ==> IsRoot(n)
    ensures n.level > 0 ==>
              && Parent(n) in RebuiltPriorities(score, camera)
              && RebuiltPriorities(score, camera)[Parent(n)] >= CUTOFF
              && Parent(n).level < LEVEL_CELL_2CM
  {
    var d := PriorityDescent(score, camera);
    RebuiltKeys(score, camera, n);
    ReachedLevelBound(d, n);
    if n.level > 0 {
      RebuiltKeys(score, camera, Parent(n));
    }
  }

  /** After a rebuild, `node_priority` answers the score of a reached node
      and `NONE` for any other, in particular below a pruned node. */
  lemma PriorityAfterRebuild(score: (VNode, Point3) -> Priority, camera: Point3, n: VNode)
    ensures Lookup(RebuiltPriorities(score, camera), n) ==
              if Reached(PriorityDescent(score, camera), n) then score(n, camera) else NONE
  {
    RebuiltKeys(score, camera, n);
  }

  /** A node below the roots that the scoring walk does not reach is not
      visible after the rebuild: its lookup is `NONE`, below the cutoff. */
  lemma UnreachedInvisible(score: (VNode, Point3) -> Priority, camera: Point3, n: VNode)
    requires n.level > 0 && !Reached(PriorityDescent(score, camera), n)
    ensures !Visible(RebuiltPriorities(score, camera), n)
  {
    PriorityAfterRebuild(score, camera, n);
  }

  /** The scoring loop so far: `visited` is the part of the scoring walk
      already done, `pending` generates the rest, and `m` scores `visited`. */
  ghost predicate ScoreLoop(score: (VNode, Point3) -> Priority, camera: Point3, visited: seq<VNode>,
                            pending: seq<VNode>, m: map<VNode, Priority>) {
    && visited + Walk(pending, PriorityDescent(score, camera)) == Walk(Roots(), PriorityDescent(score, camera))
    && m == Scored(score, camera, visited)
  }

  lemma ScoreStart(score: (VNode, Point3) -> Priority, camera: Point3)
    ensures ScoreLoop(score, camera, [], Roots(), map[])
  {
    assert [] + Walk(Roots(), PriorityDescent(score, camera)) == Walk(Roots(), PriorityDescent(score, camera));
  }

  /** Scoring the front node and advancing the queue keeps the loop's
      invariant. */
  lemma ScoreAdvance(score: (VNode, Point3) -> Priority, camera: Point3, visited: seq<VNode>,
                     pending: seq<VNode>, refine: bool, m: map<VNode, Priority>)
    requires ScoreLoop(score, camera, visited, pending, m) && pending != []
    requires refine == (score(pending[0], camera) >= CUTOFF && pending[0].level < LEVEL_CELL_2CM)
    ensures ScoreLoop(score, camera, visited + [pending[0]], Advance(pending, refine),
                      m[pending[0] := score(pending[0], camera)])
  {
    WalkStepAfter(visited, pending, PriorityDescent(score, camera), refine);
    ScoredSnoc(score, camera, visited, pending[0]);
  }

  /** Scoring one more node adds its score to the map. */
  lemma ScoredSnoc(score: (VNode, Point3) -> Priority, camera: Point3, nodes: seq<VNode>, n: VNode)
    ensures Scored(score, camera, nodes + [n]) == Scored(score, camera, nodes)[n := score(n, camera)]
  {
    var a, b := Scored(score, camera, nodes + [n]), Scored(score, camera, nodes)[n := score(n, camera)];
    assert forall k :: k in a <==> k in b;
  }

  lemma ScoreFinish(score: (VNode, Point3) -> Priority, camera: Point3, visited: seq<VNode>, m: map<VNode, Priority>)
    requires ScoreLoop(score, camera, visited, [], m)
    ensures m == RebuiltPriorities(score, camera)
  {
    assert visited + [] == visited;
  }

  /** The first pass flags exactly the nodes reachable through visible
      ancestors; roots are flagged visible; and every child of a visible
      node above the finest level is flagged. */
  lemma VisibilitiesFacts(priorities: map<VNode, Priority>, visibilities: map<VNode, bool>)
    requires FirstPassFlags(priorities, visibilities)
    ensures forall n :: n in visibilities <==> Reached(VisibleDescent(priorities), n)
    ensures forall r | IsRoot(r) :: r in visibilities && visibilities[r]
    ensures forall n, i {:trigger Child(n, i)} | n in visibilities && 0 <= i < 4 ::
              visibilities[n] && n.level < LEVEL_CELL_2CM ==> Child(n, i) in visibilities
  {
    var d := VisibleDescent(priorities);
    forall n ensures n in visibilities <==> Reached(d, n) {
      WalkFromRoots(d, n);
    }
    forall n, i | n in visibilities && 0 <= i < 4 && visibilities[n] && n.level < LEVEL_CELL_2CM
      ensures Child(n, i) in visibilities
    {
      var c := Child(n, i);
      ParentOfChild(n, i);
      assert Expands(d, n);
      assert Reached(d, c);
    }
  }

  /** Every node the second pass visits was flagged by the first, and so
      were its children if it is visible and above the finest level: the
      second pass never looks up a missing flag. */
  lemma RenderLookupsDefined(priorities: map<VNode, Priority>, visibilities: map<VNode, bool>)
    requires FirstPassFlags(priorities, visibilities)
    ensures forall n | Reached(RenderDescent(priorities), n) :: n in visibilities
    ensures forall n, i {:trigger Child(n, i)} | Reached(RenderDescent(priorities), n) && 0 <= i < 4 ::
              visibilities[n] && n.level < LEVEL_CELL_2CM ==> Child(n, i) in visibilities
  {
    VisibilitiesFacts(priorities, visibilities);
    forall n | Reached(RenderDescent(priorities), n) ensures n in visibilities {
      ReachedMonotone(RenderDescent(priorities), VisibleDescent(priorities), n);
    }
  }

  /** The flags the second pass reads at `n` agree with `Visible`: its own,
      and its children's when it is flagged visible and above the finest
      level. */
  ghost predicate FlagsAround(priorities: map<VNode, Priority>, visibilities: map<VNode, bool>, n: VNode) {
    && n in visibilities
    && visibilities[n] == Visible(priorities, n)
    && (visibilities[n] && n.level < LEVEL_CELL_2CM ==>
          forall i | 0 <= i < 4 :: Child(n, i) in visibilities && visibilities[Child(n, i)] == Visible(priorities, Child(n, i)))
  }

  /** Every node the second pass reaches finds the flags it reads. */
  lemma RenderStep(priorities: map<VNode, Priority>, visibilities: map<VNode, bool>, n: VNode)
    requires FirstPassFlags(priorities, visibilities)
    requires Reached(RenderDescent(priorities), n)
    ensures FlagsAround(priorities, visibilities, n)
  {
    RenderLookupsDefined(priorities, visibilities);
  }

  /** The state of the second pass after visiting `visited`, with `pending`
      still queued: the walk so far, and the render lists built from it. */
  ghost predicate RenderLoop(priorities: map<VNode, Priority>, visited: seq<VNode>, pending: seq<VNode>,
                             whole: seq<VNode>, partial: seq<(VNode, Mask)>) {
    && visited + Walk(pending, RenderDescent(priorities)) == RenderWalk(priorities)
    && whole == WholeNodes(priorities, visited)
    && partial == PartialNodes(priorities, visited)
  }

  lemma RenderStart(priorities: map<VNode, Priority>)
    ensures RenderLoop(priorities, [], Roots(), [], [])
  {
    assert [] + RenderWalk(priorities) == RenderWalk(priorities);
  }

  /** The node at the front of the queue finds the flags it reads. */
  lemma RenderFront(priorities: map<VNode, Priority>, visibilities: map<VNode, bool>, visited: seq<VNode>,
                    pending: seq<VNode>, whole: seq<VNode>, partial: seq<(VNode, Mask)>)
    requires FirstPassFlags(priorities, visibilities)
    requires RenderLoop(priorities, visited, pending, whole, partial) && pending != []
    ensures FlagsAround(priorities, visibilities, pending[0])
  {
    var d := RenderDescent(priorities);
    WalkStep(pending, d, d(pending[0]));
    assert RenderWalk(priorities)[|visited|] == pending[0];
    WalkFromRoots(d, pending[0]);
    RenderStep(priorities, visibilities, pending[0]);
  }

  /** Visiting the front node keeps the state of the second pass. */
  lemma RenderAdvance(priorities: map<VNode, Priority>, visited: seq<VNode>, pending: seq<VNode>, refine: bool,
                      whole: seq<VNode>, partial: seq<(VNode, Mask)>,
                      whole': seq<VNode>, partial': seq<(VNode, Mask)>)
    requires RenderLoop(priorities, visited, pending, whole, partial) && pending != []
    requires refine == RenderDescent(priorities)(pending[0])
    requires whole' == WholeAfter(priorities, whole, pending[0])
    requires partial' == PartialAfter(priorities, partial, pending[0])
    ensures RenderLoop(priorities, visited + [pending[0]], Advance(pending, refine), whole', partial')
  {
    var node := pending[0];
    WholeNodesSnoc(priorities, visited, node);
    PartialNodesSnoc(priorities, visited, node);
    WalkStepAfter(visited, pending, RenderDescent(priorities), refine);
  }

  lemma RenderFinish(priorities: map<VNode, Priority>, visited: seq<VNode>,
                     whole: seq<VNode>, partial: seq<(VNode, Mask)>)
    requires RenderLoop(priorities, visited, [], whole, partial)
    ensures whole == VisibleNodesFor(priorities) && partial == PartiallyVisibleNodesFor(priorities)
  {
    assert visited + [] == visited;
  }

  /** The flags the second pass reads for the children of `n` are the
      visibility of those children. */
  lemma HiddenAmongChildren(priorities: map<VNode, Priority>, visibilities: map<VNode, bool>, n: VNode)
    requires FlagsAround(priorities, visibilities, n) && visibilities[n] && n.level < LEVEL_CELL_2CM
    ensures HiddenAmong(visibilities, n) == HiddenChildren(priorities, n)
  {
  }

  /** What the second pass decides for a node, in terms of its flags. */
  lemma RenderDecision(priorities: map<VNode, Priority>, visibilities: map<VNode, bool>, n: VNode)
    requires FlagsAround(priorities, visibilities, n)
    ensures n.level < LEVEL_CELL_2CM && visibilities[n] ==>
              && DrawnWhole(priorities, n) == (ChildMaskOf(priorities, n) == 15)
              && DrawnPartly(priorities, n) == (0 < ChildMaskOf(priorities, n) < 15)
              && RenderDescent(priorities)(n) == (ChildMaskOf(priorities, n) < 15)
    ensures n.level >= LEVEL_CELL_2CM || !visibilities[n] ==>
              && DrawnWhole(priorities, n) == visibilities[n]
              && !DrawnPartly(priorities, n)
              && !RenderDescent(priorities)(n)
  {
    ChildMaskFacts(priorities, n);
  }

  lemma WholeNodesSnoc(priorities: map<VNode, Priority>, visited: seq<VNode>, n: VNode)
    ensures WholeNodes(priorities, visited + [n]) == WholeAfter(priorities, WholeNodes(priorities, visited), n)
  {
    assert (visited + [n])[..|visited|] == visited;
  }

  lemma PartialNodesSnoc(priorities: map<VNode, Priority>, visited: seq<VNode>, n: VNode)
    ensures PartialNodes(priorities, visited + [n]) == PartialAfter(priorities, PartialNodes(priorities, visited), n)
  {
    assert (visited + [n])[..|visited|] == visited;
  }

  /** Bit i of a four-flag mask is set iff flag i is; the mask is 15 iff
      every flag is set and 0 iff none is. */
  lemma MaskOfBits(hidden: seq<bool>)
    requires |hidden| == 4
    ensures MaskOf(hidden) <= 15
    ensures forall i | 0 <= i < 4 :: (MaskOf(hidden) & Bit(i) != 0) <==> hidden[i]
    ensures MaskOf(hidden) == 15 <==> hidden[0] && hidden[1] && hidden[2] && hidden[3]
    ensures MaskOf(hidden) == 0 <==> !hidden[0] && !hidden[1] && !hidden[2] && !hidden[3]
  {
    MaskOfFour(hidden);
    PackBits(hidden[0], hidden[1], hidden[2], hidden[3]);
  }

  /** The mask of four flags, one bit each. */
  function Pack(a: bool, b: bool, c: bool, d: bool): Mask {
    (if a then 1 else 0) | (if b then 2 else 0) | (if c then 4 else 0) | (if d then 8 else 0)
  }

  lemma MaskOfFour(hidden: seq<bool>)
    requires |hidden| == 4
    ensures MaskOf(hidden) == Pack(hidden[0], hidden[1], hidden[2], hidden[3])
  {
    var m0: Mask := if hidden[0] then 1 else 0;
    var m1: Mask := if hidden[1] then 2 else 0;
    var m2: Mask := if hidden[2] then 4 else 0;
    var m3: Mask := if hidden[3] then 8 else 0;
    assert MaskOf(hidden[..1]) == m0 by { assert hidden[..1][..0] == []; }
    assert MaskOf(hidden[..2]) == m0 | m1 by { assert hidden[..2][..1] == hidden[..1]; }
    assert MaskOf(hidden[..3]) == m0 | m1 | m2 by { assert hidden[..3][..2] == hidden[..2]; }
    assert MaskOf(hidden) == m0 | m1 | m2 | m3 by { assert hidden[..3] == hidden[..|hidden| - 1]; }
  }

  lemma PackBits(a: bool, b: bool, c: bool, d: bool)
    ensures Pack(a, b, c, d) <= 15
    ensures (Pack(a, b, c, d) & Bit(0) != 0) <==> a
    ensures (Pack(a, b, c, d) & Bit(1) != 0) <==> b
    ensures (Pack(a, b, c, d) & Bit(2) != 0) <==> c
    ensures (Pack(a, b, c, d) & Bit(3) != 0) <==> d
    ensures Pack(a, b, c, d) == 15 <==> a && b && c && d
    ensures Pack(a, b, c, d) == 0 <==> !a && !b && !c && !d
  {
  }

  /** Two four-bit masks that agree on each bit are equal. */
  lemma MaskFromBits(a: Mask, b: Mask)
    requires a <= 15 && b <= 15
    requires forall i | 0 <= i < 4 :: (a & Bit(i) != 0) <==> (b & Bit(i) != 0)
    ensures a == b
  {
    assert (a & Bit(0) != 0) <==> (b & Bit(0) != 0);
    assert (a & Bit(1) != 0) <==> (b & Bit(1) != 0);
    assert (a & Bit(2) != 0) <==> (b & Bit(2) != 0);
    assert (a & Bit(3) != 0) <==> (b & Bit(3) != 0);
  }

  lemma {:induction false} WholeNodesMembers(priorities: map<VNode, Priority>, visited: seq<VNode>, n: VNode)
    ensures n in WholeNodes(priorities, visited) <==> n in visited && DrawnWhole(priorities, n)
  {
    if visited != [] {
      var k := |visited| - 1;
      WholeNodesMembers(priorities, visited[..k], n);
      assert visited == visited[..k] + [visited[k]];
    }
  }

  lemma {:induction false} PartialNodesMembers(priorities: map<VNode, Priority>, visited: seq<VNode>, n: VNode, m: Mask)
    ensures (n, m) in PartialNodes(priorities, visited) <==>
              n in visited && DrawnPartly(priorities, n) && m == ChildMaskOf(priorities, n)
  {
    if visited != [] {
      var k := |visited| - 1;
      PartialNodesMembers(priorities, visited[..k], n, m);
      assert visited == visited[..k] + [visited[k]];
    }
  }

  /** The mask of `n`'s children has bit i set iff child i is not visible;
      it is 15 iff no child is visible and 0 iff every child is. */
  lemma ChildMaskFacts(priorities: map<VNode, Priority>, n: VNode)
    ensures ChildMaskOf(priorities, n) <= 15
    ensures forall i | 0 <= i < 4 :: (ChildMaskOf(priorities, n) & Bit(i) != 0) <==> !Visible(priorities, Child(n, i))
    ensures ChildMaskOf(priorities, n) == 15 <==> NoChildVisible(priorities, n)
    ensures ChildMaskOf(priorities, n) == 0 <==> AllChildrenVisible(priorities, n)
  {
    var h := HiddenChildren(priorities, n);
    MaskOfBits(h);
    assert h[0] == !Visible(priorities, Child(n, 0));
    assert h[1] == !Visible(priorities, Child(n, 1));
    assert h[2] == !Visible(priorities, Child(n, 2));
    assert h[3] == !Visible(priorities, Child(n, 3));
    assert forall i | 0 <= i < 4 :: h[i] == !Visible(priorities, Child(n, i));
  }

  /** A node is in `visible_nodes` iff the second pass reaches it, it is
      visible, and it is at the finest level or none of its children is
      visible. */
  lemma VisibleNodesExactly(priorities: map<VNode, Priority>, n: VNode)
    ensures n in VisibleNodesFor(priorities) <==>
              && Reached(RenderDescent(priorities), n)
              && Visible(priorities, n)
              && (n.level >= LEVEL_CELL_2CM || forall i | 0 <= i < 4 :: !Visible(priorities, Child(n, i)))
  {
    WholeNodesMembers(priorities, RenderWalk(priorities), n);
    WalkFromRoots(RenderDescent(priorities), n);
    ChildMaskFacts(priorities, n);
  }

  /** `(n, m)` is in `partially_visible_nodes` iff the second pass reaches
      `n`, it is visible and above the finest level, some but not all of its
      children are visible, and bit i of `m` is set iff child i is not. */
  lemma PartiallyVisibleExactly(priorities: map<VNode, Priority>, n: VNode, m: Mask)
    ensures (n, m) in PartiallyVisibleNodesFor(priorities) <==>
              && Reached(RenderDescent(priorities), n)
              && Visible(priorities, n)
              && n.level < LEVEL_CELL_2CM
              && (exists i | 0 <= i < 4 :: Visible(priorities, Child(n, i)))
              && (exists i | 0 <= i < 4 :: !Visible(priorities, Child(n, i)))
              && m <= 15
              && (forall i | 0 <= i < 4 :: (m & Bit(i) != 0) <==> !Visible(priorities, Child(n, i)))
  {
    PartialNodesMembers(priorities, RenderWalk(priorities), n, m);
    WalkFromRoots(RenderDescent(priorities), n);
    ChildMaskFacts(priorities, n);
    var c := ChildMaskOf(priorities, n);
    if m <= 15 && (forall i | 0 <= i < 4 :: (m & Bit(i) != 0) <==> !Visible(priorities, Child(n, i))) {
      MaskFromBits(m, c);
    }
  }

  /** The second pass never records a node the first pass flagged invisible. */
  lemma NothingInvisibleDrawn(priorities: map<VNode, Priority>, visibilities: map<VNode, bool>, n: VNode, m: Mask)
    requires FirstPassFlags(priorities, visibilities)
    requires n in VisibleNodesFor(priorities) || (n, m) in PartiallyVisibleNodesFor(priorities)
    ensures n in visibilities && visibilities[n]
  {
    WholeNodesMembers(priorities, RenderWalk(priorities), n);
    PartialNodesMembers(priorities, RenderWalk(priorities), n, m);
    WalkFromRoots(RenderDescent(priorities), n);
    RenderLookupsDefined(priorities, visibilities);
  }

  // ---------------------------------------------------------------------
  // The drawn pieces tile every face.

  /** The ancestor of the finest-level cell `d` at `level` draws the area of
      `d`: it is drawn whole, or drawn in part with the bit of the child
      towards `d` set in its mask. */
  ghost predicate Covers(priorities: map<VNode, Priority>, d: VNode, level: nat)
    requires level <= d.level
  {
    var a := AncestorAt(d, level);
    || a in VisibleNodesFor(priorities)
    || (level < d.level &&
        exists m :: (a, m) in PartiallyVisibleNodesFor(priorities) &&
                    m & Bit(ChildIndex(AncestorAt(d, level + 1))) != 0)
  }

  /** `Covers` without the lists: the ancestor is reached and drawn whole, or
      reached, drawn in part, and its child towards `d` is not visible. */
  predicate CoversAt(priorities: map<VNode, Priority>, d: VNode, level: nat)
    requires level <= d.level
  {
    var a := AncestorAt(d, level);
    && Reached(RenderDescent(priorities), a)
    && (|| DrawnWhole(priorities, a)
        || (level < d.level && DrawnPartly(priorities, a) && !Visible(priorities, AncestorAt(d, level + 1))))
  }

  lemma CoversMeans(priorities: map<VNode, Priority>, d: VNode, level: nat)
    requires level <= d.level
    ensures Covers(priorities, d, level) <==> CoversAt(priorities, d, level)
  {
    var a := AncestorAt(d, level);
    var walk := RenderWalk(priorities);
    WholeNodesMembers(priorities, walk, a);
    WalkFromRoots(RenderDescent(priorities), a);
    if level < d.level {
      var c := AncestorAt(d, level + 1);
      AncestorStep(d, level);
      ChildOfParent(c);
      ChildMaskFacts(priorities, a);
      var mask := ChildMaskOf(priorities, a);
      PartialNodesMembers(priorities, walk, a, mask);
      if exists m :: (a, m) in PartiallyVisibleNodesFor(priorities) && m & Bit(ChildIndex(c)) != 0 {
        var m :| (a, m) in PartiallyVisibleNodesFor(priorities) && m & Bit(ChildIndex(c)) != 0;
        PartialNodesMembers(priorities, walk, a, m);
      }
    }
  }

  /** Below a reached visible ancestor of `d`, exactly one ancestor covers `d`. */
  lemma {:induction false} CoverFrom(priorities: map<VNode, Priority>, d: VNode, level: nat) returns (k: nat)
    requires d.level == LEVEL_CELL_2CM && level <= d.level
    requires Reached(RenderDescent(priorities), AncestorAt(d, level)) && Visible(priorities, AncestorAt(d, level))
    ensures level <= k <= d.level && CoversAt(priorities, d, k)
    ensures forall l | level <= l <= d.level && CoversAt(priorities, d, l) :: l == k
    decreases d.level - level
  {
    var a := AncestorAt(d, level);
    if !RenderDescent(priorities)(a) {
      k := level;
      NothingDeeperCovers(priorities, d, level);
    } else {
      AncestorStep(d, level);
      ChildOfParent(AncestorAt(d, level + 1));
      if Visible(priorities, AncestorAt(d, level + 1)) {
        ExpandedDoesNotCover(priorities, d, level);
        k := CoverFrom(priorities, d, level + 1);
      } else {
        HiddenChildCovered(priorities, d, level);
        k := level;
        NothingDeeperCovers(priorities, d, level + 1);
      }
    }
  }

  /** An expanded ancestor whose child towards `d` is visible does not cover `d`. */
  lemma ExpandedDoesNotCover(priorities: map<VNode, Priority>, d: VNode, level: nat)
    requires level < d.level && RenderDescent(priorities)(AncestorAt(d, level))
    requires Visible(priorities, AncestorAt(d, level + 1))
    ensures !CoversAt(priorities, d, level)
  {
  }

  /** An expanded, reached ancestor whose child towards `d` is not visible
      covers `d`; that child is reached but covers nothing. */
  lemma HiddenChildCovered(priorities: map<VNode, Priority>, d: VNode, level: nat)
    requires level < d.level && Reached(RenderDescent(priorities), AncestorAt(d, level))
    requires RenderDescent(priorities)(AncestorAt(d, level))
    requires Parent(AncestorAt(d, level + 1)) == AncestorAt(d, level)
    requires !Visible(priorities, AncestorAt(d, level + 1))
    ensures CoversAt(priorities, d, level) && !CoversAt(priorities, d, level + 1)
  {
    var a, c := AncestorAt(d, level), AncestorAt(d, level + 1);
    ChildOfParent(c);
    assert !Visible(priorities, Child(a, ChildIndex(c)));
  }

  /** Below an ancestor the second pass does not expand, no ancestor of `d`
      is even reached. */
  lemma NothingDeeperCovers(priorities: map<VNode, Priority>, d: VNode, level: nat)
    requires level <= d.level && !RenderDescent(priorities)(AncestorAt(d, level))
    ensures forall l | level < l <= d.level :: !CoversAt(priorities, d, l)
  {
    forall l | level < l <= d.level ensures !CoversAt(priorities, d, l) {
      if Reached(RenderDescent(priorities), AncestorAt(d, l)) {
        ReachedAncestor(RenderDescent(priorities), d, level, l);
      }
    }
  }

  /** The drawn pieces tile every face: each finest-level cell of a face is
      covered by exactly one of its ancestors, drawn whole or through a set
      bit of a partial mask. */
  lemma CoveredExactlyOnce(priorities: map<VNode, Priority>, d: VNode)
    requires OnFace(d) && d.level == LEVEL_CELL_2CM
    ensures exists level | 0 <= level <= d.level :: Covers(priorities, d, level)
    ensures forall l1, l2 | 0 <= l1 <= d.level && 0 <= l2 <= d.level &&
              Covers(priorities, d, l1) && Covers(priorities, d, l2) :: l1 == l2
  {
    OnFaceRoot(d);
    var k := CoverFrom(priorities, d, 0);
    forall l | 0 <= l <= d.level ensures Covers(priorities, d, l) <==> l == k {
      CoversMeans(priorities, d, l);
    }
    assert Covers(priorities, d, k);
  }
}
