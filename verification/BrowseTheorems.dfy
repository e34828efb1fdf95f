/**
 What a browse returns, said of the graph alone: the depth-bounded unfolding,
 when it succeeds, and which node sits at each position of the result.
 */
module BrowseTheorems {
  import opened Wrappers
  import opened Browse

  // ---------------------------------------------------------------- unfolding

  function KidsOf(space: AddressSpace, node: BrowsedNode): Outcome<seq<BrowsedNode>> {
    var found :- BrowseNode(space, node.id);
    AppendPaths(node.path, found)
  }

  /** The unfolding of `nodes` to `levels` levels, counting their own. */
  function Unfold(space: AddressSpace, nodes: seq<BrowsedNode>, levels: nat): (forest: seq<BrowsedNode>)
    ensures |forest| == if levels == 0 then 0 else |nodes|
    decreases levels, |nodes|
  {
    if levels == 0 || nodes == [] then []
    else
      var below := match KidsOf(space, nodes[0])
                   case Ok(kids) => Unfold(space, kids, levels - 1)
                   case Err(_) => [];
      [nodes[0].(children := below)] + Unfold(space, nodes[1..], levels)
  }

  function Size(forest: seq<BrowsedNode>): nat {
    if forest == [] then 0 else 1 + Size(forest[0].children) + Size(forest[1..])
  }

  // No node of the unfolding repeats an id of its own ancestry, and every
  // node above the last level can be browsed.
  ghost predicate Clean(space: AddressSpace, nodes: seq<BrowsedNode>, ancestors: set<NodeId>, levels: nat)
    decreases levels, |nodes|
  {
    levels == 0 || nodes == [] ||
    (&& nodes[0].id !in ancestors
     && (levels > 1 ==> match KidsOf(space, nodes[0])
                        case Ok(kids) => Clean(space, kids, ancestors + {nodes[0].id}, levels - 1)
                        case Err(_) => false)
     && Clean(space, nodes[1..], ancestors, levels))
  }

  // `levels` levels are left at `level`; without a depth cap any number that
  // outlasts the ids still unused will do.
  ghost predicate LevelsLeft(space: AddressSpace, limits: Limits, ancestors: set<NodeId>, level: nat, levels: nat) {
    match limits.maxDepth
    case Some(m) => 1 <= level <= m && levels == m - level + 1
    case None => levels >= |space.Keys - ancestors| + 1
  }

  predicate Within(limits: Limits, count: nat) {
    limits.nodeLimit.Some? ==> count <= limits.nodeLimit.value
  }

  // What visiting `nodes` must answer.
  ghost predicate Unfolds(space: AddressSpace, limits: Limits, nodes: seq<BrowsedNode>, ancestors: set<NodeId>,
                          count: nat, levels: nat, r: Outcome<(seq<BrowsedNode>, nat)>)
  {
    var forest := Unfold(space, nodes, levels);
    && (r.Ok? <==> Clean(space, nodes, ancestors, levels) && Within(limits, count + Size(forest)))
    && (r.Ok? ==> r.value == (forest, count + Size(forest)))
  }

  lemma {:induction false} VisitUnfolds(space: AddressSpace, limits: Limits, nodes: seq<BrowsedNode>,
                                        ancestors: set<NodeId>, level: nat, count: nat, levels: nat)
    requires LevelsLeft(space, limits, ancestors, level, levels) && Within(limits, count)
    ensures Unfolds(space, limits, nodes, ancestors, count, levels,
                    Visit(space, limits, nodes, ancestors, level, count))
    decreases levels, |nodes|, 1
  {
    if nodes == [] {
      return;
    }
    var node := nodes[0];
    var visited := Children(space, limits, node, level);
    ChildrenAreKids(space, limits, node, ancestors, level, levels);
    if node.id in ancestors || !Within(limits, count + 1) || visited.Err? {
      StopUnfolds(space, limits, nodes, ancestors, level, count, levels);
      return;
    }
    BelowUnfolds(space, limits, node, ancestors, level, count, levels, |nodes|, visited.value);
    var inner := Visit(space, limits, visited.value, ancestors + {node.id}, level + 1, count + 1);
    if inner.Ok? {
      VisitUnfolds(space, limits, nodes[1..], ancestors, level, inner.value.1, levels);
    }
    StepUnfolds(space, limits, nodes, ancestors, level, count, levels, visited.value);
  }

  lemma {:induction false} BelowUnfolds(space: AddressSpace, limits: Limits, node: BrowsedNode, ancestors: set<NodeId>,
                                        level: nat, count: nat, levels: nat, width: nat, kids: seq<BrowsedNode>)
    requires LevelsLeft(space, limits, ancestors, level, levels) && Within(limits, count + 1)
    requires node.id !in ancestors && Children(space, limits, node, level) == Ok(kids)
    ensures Unfolds(space, limits, kids, ancestors + {node.id}, count + 1, levels - 1,
                    Visit(space, limits, kids, ancestors + {node.id}, level + 1, count + 1))
    decreases levels, width, 0
  {
    if kids == [] {
      NothingUnfolds(space, limits, ancestors + {node.id}, level + 1, count + 1, levels - 1);
    } else {
      ChildrenAreKids(space, limits, node, ancestors, level, levels);
      AncestryShrinks(space, ancestors, node.id);
      VisitUnfolds(space, limits, kids, ancestors + {node.id}, level + 1, count + 1, levels - 1);
    }
  }

  lemma StepUnfolds(space: AddressSpace, limits: Limits, nodes: seq<BrowsedNode>,
                    ancestors: set<NodeId>, level: nat, count: nat, levels: nat, kids: seq<BrowsedNode>)
    requires levels > 0 && nodes != [] && nodes[0].id !in ancestors && Within(limits, count + 1)
    requires Children(space, limits, nodes[0], level) == Ok(kids)
    requires if levels == 1 then kids == [] else KidsOf(space, nodes[0]) == Ok(kids)
    requires var inner := Visit(space, limits, kids, ancestors + {nodes[0].id}, level + 1, count + 1);
             && Unfolds(space, limits, kids, ancestors + {nodes[0].id}, count + 1, levels - 1, inner)
             && (inner.Ok? ==> Unfolds(space, limits, nodes[1..], ancestors, inner.value.1, levels,
                                       Visit(space, limits, nodes[1..], ancestors, level, inner.value.1)))
    ensures Unfolds(space, limits, nodes, ancestors, count, levels,
                    Visit(space, limits, nodes, ancestors, level, count))
  {
    var inner := Visit(space, limits, kids, ancestors + {nodes[0].id}, level + 1, count + 1);
    var rest := if inner.Ok? then Visit(space, limits, nodes[1..], ancestors, level, inner.value.1) else inner;
    ConsUnfolds(space, limits, nodes, ancestors, count, levels, kids, inner, rest);
    assert Visit(space, limits, nodes, ancestors, level, count) == Joined(nodes[0], inner, rest);
  }

  lemma StopUnfolds(space: AddressSpace, limits: Limits, nodes: seq<BrowsedNode>,
                    ancestors: set<NodeId>, level: nat, count: nat, levels: nat)
    requires levels > 0 && nodes != [] && Within(limits, count)
    requires var kids := Children(space, limits, nodes[0], level);
             || nodes[0].id in ancestors
             || !Within(limits, count + 1)
             || (kids.Err? && levels > 1 && kids == KidsOf(space, nodes[0]))
    ensures Unfolds(space, limits, nodes, ancestors, count, levels,
                    Visit(space, limits, nodes, ancestors, level, count))
  {
    SizeOfCons(space, nodes, levels);
  }

  lemma NothingUnfolds(space: AddressSpace, limits: Limits, ancestors: set<NodeId>, level: nat, count: nat, levels: nat)
    requires Within(limits, count)
    ensures Unfolds(space, limits, [], ancestors, count, levels, Visit(space, limits, [], ancestors, level, count))
  {}

  function Joined(node: BrowsedNode, inner: Outcome<(seq<BrowsedNode>, nat)>, rest: Outcome<(seq<BrowsedNode>, nat)>)
    : Outcome<(seq<BrowsedNode>, nat)>
  {
    var (below, _) :- inner;
    var (others, count) :- rest;
    Ok(([node.(children := below)] + others, count))
  }

  lemma ConsUnfolds(space: AddressSpace, limits: Limits, nodes: seq<BrowsedNode>, ancestors: set<NodeId>,
                    count: nat, levels: nat, kids: seq<BrowsedNode>,
                    inner: Outcome<(seq<BrowsedNode>, nat)>, rest: Outcome<(seq<BrowsedNode>, nat)>)
    requires levels > 0 && nodes != [] && nodes[0].id !in ancestors
    requires if levels == 1 then kids == [] else KidsOf(space, nodes[0]) == Ok(kids)
    requires Unfolds(space, limits, kids, ancestors + {nodes[0].id}, count + 1, levels - 1, inner)
    requires if inner.Ok? then Unfolds(space, limits, nodes[1..], ancestors, inner.value.1, levels, rest)
             else inner == rest
    ensures Unfolds(space, limits, nodes, ancestors, count, levels, Joined(nodes[0], inner, rest))
  {
    SizeOfCons(space, nodes, levels);
  }

  lemma SizeOfCons(space: AddressSpace, nodes: seq<BrowsedNode>, levels: nat)
    requires nodes != [] && levels > 0
    ensures var below := match KidsOf(space, nodes[0])
                         case Ok(kids) => Unfold(space, kids, levels - 1)
                         case Err(_) => [];
            Size(Unfold(space, nodes, levels)) == 1 + Size(below) + Size(Unfold(space, nodes[1..], levels))
  {
    var forest := Unfold(space, nodes, levels);
    assert forest[1..] == Unfold(space, nodes[1..], levels);
  }

  lemma ChildrenAreKids(space: AddressSpace, limits: Limits, node: BrowsedNode, ancestors: set<NodeId>,
                        level: nat, levels: nat)
    requires LevelsLeft(space, limits, ancestors, level, levels)
    ensures levels == 1 && node.id !in ancestors ==> Children(space, limits, node, level) == Ok([])
    ensures levels > 1 ==> Children(space, limits, node, level) == KidsOf(space, node)
  {
    if limits.maxDepth.None? && levels == 1 && node.id !in ancestors {
      assert space.Keys - ancestors == {};
      assert node.id in space ==> node.id in space.Keys - ancestors;
    }
  }

  // ---------------------------------------------------------------- the whole browse

  // Levels the result can have; an acyclic space of n browsable ids has no more than n.
  function Levels(space: AddressSpace, limits: Limits): nat {
    match limits.maxDepth
    case Some(m) => m
    case None => |space| + 1
  }

  function Top(space: AddressSpace, root: NodeId, parentPath: RelativePath): Outcome<seq<BrowsedNode>> {
    var found :- BrowseNode(space, root);
    AppendPaths(parentPath, found)
  }

  /** A browse succeeds exactly on a clean unfolding within the node limit, and returns it. */
  lemma BrowseIsUnfolding(space: AddressSpace, root: NodeId, limits: Limits, parentPath: RelativePath)
    ensures var r := BrowseAll(space, root, limits, parentPath);
            var top := Top(space, root, parentPath);
            var levels := Levels(space, limits);
            if levels == 0 then r == Ok(([], 0))
            else if top.Err? then r == Err(top.error)
            else var forest := Unfold(space, top.value, levels);
                 && (r.Ok? <==> Clean(space, top.value, {root}, levels) && Within(limits, Size(forest)))
                 && (r.Ok? ==> r.value == (forest, Size(forest)))
  {
    var top := Top(space, root, parentPath);
    if Levels(space, limits) > 0 && top.Ok? {
      assert |space.Keys - {root}| <= |space| by {
        SubsetSize(space.Keys - {root}, space.Keys);
      }
      VisitUnfolds(space, limits, top.value, {root}, 1, 0, Levels(space, limits));
    }
  }

  // ---------------------------------------------------------------- walks

  // Every reference is reported with a one-element path (browse.rs:134-145).
  ghost predicate OneSegmentEach(space: AddressSpace) {
    forall id, n :: id in space && space[id].Ok? && n in space[id].value ==> n.path.Some? && |n.path.value| == 1
  }

  ghost predicate IsChild(space: AddressSpace, a: NodeId, b: NodeId) {
    a in space && space[a].Ok? && exists n :: n in space[a].value && n.id == b
  }

  // Browsing it does not fail; a node without an entry has no references.
  predicate Browsable(space: AddressSpace, id: NodeId) {
    id in space ==> space[id].Ok?
  }

  ghost predicate StepAt(space: AddressSpace, w: seq<NodeId>, i: nat)
    requires i + 1 < |w|
  {
    IsChild(space, w[i], w[i + 1])
  }

  ghost predicate Walk(space: AddressSpace, w: seq<NodeId>) {
    w != [] && forall i :: 0 <= i < |w| - 1 ==> StepAt(space, w, i)
  }

  ghost predicate Simple(w: seq<NodeId>) {
    forall i, j :: 0 <= i < j < |w| ==> w[i] != w[j]
  }

  // A walk as far as the browse takes it: no id repeats, and its end can be
  // browsed unless it lies on the last level.
  ghost predicate GoodWalk(space: AddressSpace, avoid: set<NodeId>, w: seq<NodeId>, levels: nat)
    requires w != []
  {
    && Simple(w)
    && (forall i :: 0 <= i < |w| ==> w[i] !in avoid)
    && (|w| < levels ==> Browsable(space, w[|w| - 1]))
  }

  ghost predicate Good(space: AddressSpace, avoid: set<NodeId>, start: NodeId, levels: nat) {
    forall w :: Walk(space, w) && w[0] == start && |w| <= levels ==> GoodWalk(space, avoid, w, levels)
  }

  lemma WalkFrom(space: AddressSpace, start: NodeId, w: seq<NodeId>)
    requires Walk(space, w) && IsChild(space, start, w[0])
    ensures Walk(space, [start] + w)
  {
    var longer := [start] + w;
    forall i | 0 <= i < |longer| - 1 ensures StepAt(space, longer, i) {
      assert i > 0 ==> StepAt(space, w, i - 1);
    }
  }

  lemma GoodStep(space: AddressSpace, avoid: set<NodeId>, start: NodeId, levels: nat, next: NodeId)
    requires levels > 1 && Good(space, avoid, start, levels) && IsChild(space, start, next)
    ensures Good(space, avoid + {start}, next, levels - 1)
  {
    forall w | Walk(space, w) && w[0] == next && |w| <= levels - 1
      ensures GoodWalk(space, avoid + {start}, w, levels - 1)
    {
      WalkFrom(space, start, w);
      TailIsGood(space, avoid, start, w, levels);
    }
  }

  lemma TailIsGood(space: AddressSpace, avoid: set<NodeId>, start: NodeId, w: seq<NodeId>, levels: nat)
    requires w != [] && levels > 1 && GoodWalk(space, avoid, [start] + w, levels)
    ensures GoodWalk(space, avoid + {start}, w, levels - 1)
  {
    var longer := [start] + w;
    assert forall i :: 0 <= i < |w| ==> w[i] == longer[i + 1];
    assert longer[0] == start;
  }

  lemma GoodFromSteps(space: AddressSpace, avoid: set<NodeId>, start: NodeId, levels: nat)
    requires levels > 0 && start !in avoid
    requires levels > 1 ==> Browsable(space, start)
    requires levels > 1 ==> forall next :: IsChild(space, start, next) ==> Good(space, avoid + {start}, next, levels - 1)
    ensures Good(space, avoid, start, levels)
  {
    forall w | Walk(space, w) && w[0] == start && |w| <= levels
      ensures GoodWalk(space, avoid, w, levels)
    {
      if |w| > 1 {
        var shorter := w[1..];
        assert StepAt(space, w, 0);
        assert forall i :: 0 <= i < |shorter| ==> shorter[i] == w[i + 1];
        assert Walk(space, shorter) by {
          assert forall i :: 0 <= i < |shorter| - 1 ==> StepAt(space, w, i + 1) ==> StepAt(space, shorter, i);
        }
        assert GoodWalk(space, avoid + {start}, shorter, levels - 1);
        forall i | 0 <= i < |w| ensures w[i] !in avoid && (i > 0 ==> w[i] != start) {
          assert i > 0 ==> shorter[i - 1] == w[i] && w[i] in shorter;
        }
        forall i, j | 0 <= i < j < |w| ensures w[i] != w[j] {
          assert shorter[j - 1] == w[j];
          assert i > 0 ==> shorter[i - 1] == w[i];
        }
      }
    }
  }

  lemma {:induction false} PlacedNodes(parent: RelativePath, nodes: seq<BrowsedNode>)
    requires forall n :: n in nodes ==> n.path.Some? && |n.path.value| == 1
    ensures var placed := AppendPaths(parent, nodes);
            && placed.Ok?
            && forall i :: 0 <= i < |nodes| ==>
                 placed.value[i] == nodes[i].(path := Some((if parent.Some? then parent.value else []) + nodes[i].path.value))
  {
    if nodes != [] {
      PlacedNodes(parent, nodes[1..]);
      var placed := AppendPaths(parent, nodes);
      assert [] + nodes[0].path.value == nodes[0].path.value;
      forall i | 0 <= i < |nodes|
        ensures placed.value[i]
             == nodes[i].(path := Some((if parent.Some? then parent.value else []) + nodes[i].path.value))
      {
        assert nodes[i] in nodes;
        assert nodes[i].path.value == [nodes[i].path.value[0]] == [] + nodes[i].path.value;
        if i > 0 {
          assert nodes[i] == nodes[1..][i - 1];
        }
      }
    }
  }

  lemma KidsPlaced(space: AddressSpace, node: BrowsedNode)
    requires OneSegmentEach(space)
    ensures KidsOf(space, node).Ok? <==> Browsable(space, node.id)
    ensures KidsOf(space, node).Ok? ==>
              forall id :: IsChild(space, node.id, id) <==> exists k :: k in KidsOf(space, node).value && k.id == id
  {
    if BrowseNode(space, node.id).Ok? {
      var found := BrowseNode(space, node.id).value;
      PlacedNodes(node.path, found);
      var kids := KidsOf(space, node).value;
      forall id ensures IsChild(space, node.id, id) <==> exists k :: k in kids && k.id == id {
        if IsChild(space, node.id, id) {
          var n :| n in found && n.id == id;
          var i :| 0 <= i < |found| && found[i] == n;
          assert kids[i] in kids && kids[i].id == id;
        }
        if k :| k in kids && k.id == id {
          var i :| 0 <= i < |kids| && kids[i] == k;
          assert found[i] in found && found[i].id == id;
        }
      }
    }
  }

  lemma {:induction false} CleanIsGood(space: AddressSpace, nodes: seq<BrowsedNode>, ancestors: set<NodeId>, levels: nat)
    requires OneSegmentEach(space) && levels > 0
    ensures Clean(space, nodes, ancestors, levels)
       <==> forall n :: n in nodes ==> Good(space, ancestors, n.id, levels)
    decreases levels, |nodes|, 1
  {
    if nodes != [] {
      HeadIsGood(space, nodes[0], ancestors, levels, |nodes|);
      CleanIsGood(space, nodes[1..], ancestors, levels);
      assert forall n :: n in nodes <==> n == nodes[0] || n in nodes[1..];
    }
  }

  ghost predicate CleanHead(space: AddressSpace, node: BrowsedNode, ancestors: set<NodeId>, levels: nat)
    requires levels > 0
  {
    && node.id !in ancestors
    && (levels > 1 ==> match KidsOf(space, node)
                       case Ok(kids) => Clean(space, kids, ancestors + {node.id}, levels - 1)
                       case Err(_) => false)
  }

  lemma {:induction false} HeadIsGood(space: AddressSpace, node: BrowsedNode, ancestors: set<NodeId>,
                                      levels: nat, width: nat)
    requires OneSegmentEach(space) && levels > 0
    ensures CleanHead(space, node, ancestors, levels) <==> Good(space, ancestors, node.id, levels)
    decreases levels, width, 0
  {
    KidsPlaced(space, node);
    var kids := KidsOf(space, node);
    var deeper := ancestors + {node.id};
    if levels > 1 && kids.Ok? {
      CleanIsGood(space, kids.value, deeper, levels - 1);
    }
    if CleanHead(space, node, ancestors, levels) {
      GoodFromSteps(space, ancestors, node.id, levels);
    }
    if Good(space, ancestors, node.id, levels) {
      assert Walk(space, [node.id]);
      assert GoodWalk(space, ancestors, [node.id], levels);
      assert node.id in [node.id];
      if levels > 1 {
        forall k | k in kids.value ensures Good(space, deeper, k.id, levels - 1) {
          GoodStep(space, ancestors, node.id, levels, k.id);
        }
      }
    }
  }

  function TopOrNone(space: AddressSpace, root: NodeId, parentPath: RelativePath): seq<BrowsedNode> {
    match Top(space, root, parentPath)
    case Ok(top) => top
    case Err(_) => []
  }

  /**
   With a depth cap, a browse succeeds exactly when every walk of at most that
   many references from the root is free of repeats and browsable, and the
   unfolding fits the node limit.
   */
  lemma BrowseSucceedsIff(space: AddressSpace, root: NodeId, limits: Limits, parentPath: RelativePath)
    requires OneSegmentEach(space) && limits.maxDepth != Some(0)
    ensures BrowseAll(space, root, limits, parentPath).Ok?
       <==> && Good(space, {}, root, Levels(space, limits) + 1)
            && Within(limits, Size(Unfold(space, TopOrNone(space, root, parentPath), Levels(space, limits))))
  {
    var levels := Levels(space, limits);
    var rootNode := BrowsedNode(root, "", "", 0, parentPath, []);
    BrowseIsUnfolding(space, root, limits, parentPath);
    assert {} + {root} == {root};
    HeadIsGood(space, rootNode, {}, levels + 1, 0);
    assert KidsOf(space, rootNode) == Top(space, root, parentPath);
  }

  lemma {:induction false} SimpleFits(w: seq<NodeId>, ids: set<NodeId>)
    requires Simple(w) && forall id :: id in w ==> id in ids
    ensures |w| <= |ids|
  {
    if w != [] {
      var last := w[|w| - 1];
      forall id | id in w[..|w| - 1] ensures id in ids - {last} {
        var i :| 0 <= i < |w| - 1 && w[i] == id;
      }
      SimpleFits(w[..|w| - 1], ids - {last});
    }
  }

  // Only a node that is a key has children, so a simple walk is short.
  lemma WalksAreShort(space: AddressSpace, w: seq<NodeId>)
    requires Walk(space, w) && Simple(w)
    ensures |w| <= |space| + 1
  {
    var inner := w[..|w| - 1];
    forall id | id in inner ensures id in space.Keys {
      var i :| 0 <= i < |inner| && inner[i] == id;
      assert StepAt(space, w, i);
    }
    SimpleFits(inner, space.Keys);
  }

  /** Without a depth cap the condition is on all walks, of any length. */
  lemma BrowseSucceedsIffAcyclic(space: AddressSpace, root: NodeId, limits: Limits, parentPath: RelativePath)
    requires OneSegmentEach(space) && limits.maxDepth.None?
    ensures BrowseAll(space, root, limits, parentPath).Ok?
       <==> && (forall w :: Walk(space, w) && w[0] == root ==> Simple(w) && Browsable(space, w[|w| - 1]))
            && Within(limits, Size(Unfold(space, TopOrNone(space, root, parentPath), Levels(space, limits))))
  {
    BrowseSucceedsIff(space, root, limits, parentPath);
    var levels := Levels(space, limits) + 1;
    if Good(space, {}, root, levels) {
      forall w | Walk(space, w) && w[0] == root
        ensures Simple(w) && Browsable(space, w[|w| - 1])
      {
        if |w| >= levels {
          var start := w[..levels];
          assert forall i :: 0 <= i < levels - 1 ==> StepAt(space, w, i) ==> StepAt(space, start, i);
          assert Walk(space, start);
          assert GoodWalk(space, {}, start, levels);
          WalksAreShort(space, start);
        } else {
          assert GoodWalk(space, {}, w, levels);
        }
      }
    }
  }

  // ---------------------------------------------------------------- positions

  // The node at a position of a forest: child number route[0], then its child number route[1], ...
  function At(forest: seq<BrowsedNode>, route: seq<nat>): Option<BrowsedNode>
    requires route != []
  {
    if route[0] >= |forest| then None
    else if |route| == 1 then Some(forest[route[0]])
    else At(forest[route[0]].children, route[1..])
  }

  // The reference reached by following the same numbers through the address space.
  function Follow(space: AddressSpace, id: NodeId, route: seq<nat>): Option<BrowsedNode>
    requires route != []
    decreases |route|
  {
    if id !in space || space[id].Err? || route[0] >= |space[id].value| then None
    else if |route| == 1 then Some(space[id].value[route[0]])
    else Follow(space, space[id].value[route[0]].id, route[1..])
  }

  // One segment for each reference followed.
  function SegmentsAlong(space: AddressSpace, id: NodeId, route: seq<nat>): seq<Segment>
    requires route != []
    decreases |route|
  {
    if id !in space || space[id].Err? || route[0] >= |space[id].value| || space[id].value[route[0]].path.None? then []
    else
      var reference := space[id].value[route[0]];
      reference.path.value + if |route| == 1 then [] else SegmentsAlong(space, reference.id, route[1..])
  }

  function IdsAlong(space: AddressSpace, id: NodeId, route: seq<nat>): (ids: seq<NodeId>)
    requires route != [] && Follow(space, id, route).Some?
    ensures |ids| == |route| + 1 && ids[0] == id
    decreases |route|
  {
    var next := space[id].value[route[0]].id;
    [id] + if |route| == 1 then [next] else IdsAlong(space, next, route[1..])
  }

  lemma {:induction false} RouteIsWalk(space: AddressSpace, id: NodeId, route: seq<nat>)
    requires route != [] && Follow(space, id, route).Some?
    ensures Walk(space, IdsAlong(space, id, route))
    decreases |route|
  {
    var ids := IdsAlong(space, id, route);
    var found := space[id].value;
    assert found[route[0]] in found;
    assert IsChild(space, ids[0], ids[1]);
    if |route| > 1 {
      RouteIsWalk(space, ids[1], route[1..]);
      assert ids[1..] == IdsAlong(space, ids[1], route[1..]);
      forall i | 0 <= i < |ids| - 1 ensures StepAt(space, ids, i) {
        assert i > 0 ==> StepAt(space, ids[1..], i - 1);
      }
    }
  }

  function Prefix(path: RelativePath): seq<Segment> {
    if path.Some? then path.value else []
  }

  ghost predicate SameNode(a: BrowsedNode, b: BrowsedNode) {
    a.id == b.id && a.name == b.name && a.displayName == b.displayName && a.nodeClass == b.nodeClass
  }

  ghost predicate Placed(space: AddressSpace, id: NodeId, parentPath: RelativePath, levels: nat, route: seq<nat>,
                         at: Option<BrowsedNode>)
    requires route != []
  {
    && (at.Some? <==> |route| <= levels && Follow(space, id, route).Some?)
    && (at.Some? ==> && SameNode(at.value, Follow(space, id, route).value)
                     && at.value.path == Some(Prefix(parentPath) + SegmentsAlong(space, id, route)))
  }

  lemma {:induction false} UnfoldAt(space: AddressSpace, id: NodeId, parentPath: RelativePath, levels: nat, route: seq<nat>)
    requires OneSegmentEach(space) && levels > 0 && route != [] && Browsable(space, id)
    ensures Top(space, id, parentPath).Ok?
    ensures Placed(space, id, parentPath, levels, route,
                   At(Unfold(space, Top(space, id, parentPath).value, levels), route))
    decreases levels, 1
  {
    var found := BrowseNode(space, id).value;
    PlacedNodes(parentPath, found);
    var top := Top(space, id, parentPath).value;
    if route[0] < |found| {
      var raw, node := found[route[0]], top[route[0]];
      assert raw in found;
      UnfoldIndex(space, top, levels, route[0]);
      if |route| == 1 {
        assert raw.path.value + [] == raw.path.value;
      } else {
        BelowAt(space, node, raw, levels, route[1..]);
        Regroup(Prefix(parentPath), raw.path.value, SegmentsAlong(space, raw.id, route[1..]));
      }
    }
  }

  lemma Regroup<T>(a: seq<T>, b: seq<T>, c: seq<T>)
    ensures (a + b) + c == a + (b + c)
  {}

  lemma {:induction false} BelowAt(space: AddressSpace, node: BrowsedNode, raw: BrowsedNode, levels: nat, route: seq<nat>)
    requires OneSegmentEach(space) && levels > 0 && route != [] && node.id == raw.id
    ensures Placed(space, raw.id, node.path, levels - 1, route,
                   At(match KidsOf(space, node)
                      case Ok(kids) => Unfold(space, kids, levels - 1)
                      case Err(_) => [], route))
    decreases levels, 0
  {
    KidsPlaced(space, node);
    if levels > 1 && KidsOf(space, node).Ok? {
      assert KidsOf(space, node) == Top(space, raw.id, node.path);
      UnfoldAt(space, raw.id, node.path, levels - 1, route);
    }
  }

  lemma {:induction false} UnfoldIndex(space: AddressSpace, nodes: seq<BrowsedNode>, levels: nat, i: nat)
    requires levels > 0 && i < |nodes|
    ensures Unfold(space, nodes, levels)[i]
         == nodes[i].(children := match KidsOf(space, nodes[i])
                                  case Ok(kids) => Unfold(space, kids, levels - 1)
                                  case Err(_) => [])
  {
    if i > 0 {
      UnfoldIndex(space, nodes[1..], levels, i - 1);
    }
  }

  /**
   The result of a successful browse, position by position: the position
   exists exactly when the address space can be followed along it within the
   depth cap, it holds the node reached there, and its path is the start path
   followed by one segment for each ancestor and its own.
   */
  lemma BrowsePositions(space: AddressSpace, root: NodeId, limits: Limits, parentPath: RelativePath, route: seq<nat>)
    requires OneSegmentEach(space) && route != []
    requires BrowseAll(space, root, limits, parentPath).Ok?
    ensures var at := At(BrowseAll(space, root, limits, parentPath).value.0, route);
            && (at.Some? <==> && (limits.maxDepth.Some? ==> |route| <= limits.maxDepth.value)
                              && Follow(space, root, route).Some?)
            && (at.Some? ==> && SameNode(at.value, Follow(space, root, route).value)
                             && at.value.path == Some(Prefix(parentPath) + SegmentsAlong(space, root, route)))
  {
    BrowseIsUnfolding(space, root, limits, parentPath);
    var levels := Levels(space, limits);
    if levels > 0 {
      UnfoldAt(space, root, parentPath, levels, route);
      if limits.maxDepth.None? && Follow(space, root, route).Some? {
        BrowseSucceedsIffAcyclic(space, root, limits, parentPath);
        RouteIsWalk(space, root, route);
        WalksAreShort(space, IdsAlong(space, root, route));
      }
    }
  }
}
