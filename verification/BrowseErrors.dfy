/**
 What the errors of a browse mean: a reported cycle is a walk that returns to
 one of its own nodes, and a node past the limit is one a walk reaches.
 */
module BrowseErrors {
  import opened Wrappers
  import opened Browse
  import opened BrowseTheorems

  // Browsing itself fails with a failure of its own, not with a verdict about the walk.
  ghost predicate PlainFailures(space: AddressSpace) {
    forall id :: id in space && space[id].Err? ==> space[id].error.BrowseFailed?
  }

  // A walk of at most the permitted depth that repeats nothing before its end, which is `x`.
  ghost predicate Reaches(space: AddressSpace, limits: Limits, root: NodeId, w: seq<NodeId>, x: NodeId) {
    && |w| > 1 && Walk(space, w) && w[0] == root && w[|w| - 1] == x && Simple(w[..|w| - 1])
    && (limits.maxDepth.Some? ==> |w| - 1 <= limits.maxDepth.value)
  }

  ghost predicate IsExplained(space: AddressSpace, limits: Limits, root: NodeId, e: BrowseError) {
    match e
    case CycleDetected(x) => exists w :: Reaches(space, limits, root, w, x) && x in w[..|w| - 1]
    case NodeLimitExceeded(x) => limits.nodeLimit.Some? && exists w :: Reaches(space, limits, root, w, x)
    case _ => true
  }

  // `path` leads from the root to the node whose references `nodes` are.
  ghost predicate LeadsTo(space: AddressSpace, path: seq<NodeId>, root: NodeId, nodes: seq<BrowsedNode>) {
    && path != [] && path[0] == root && Walk(space, path) && Simple(path)
    && forall n :: n in nodes ==> IsChild(space, path[|path| - 1], n.id)
  }

  lemma {:induction false} AppendedIds(parent: RelativePath, nodes: seq<BrowsedNode>, n: BrowsedNode)
    requires AppendPaths(parent, nodes).Ok? && n in AppendPaths(parent, nodes).value
    ensures exists m :: m in nodes && m.id == n.id
  {
    var placed := AppendPaths(parent, nodes).value;
    if n == placed[0] {
      assert nodes[0] in nodes;
    } else {
      assert n in placed[1..];
      AppendedIds(parent, nodes[1..], n);
      var m :| m in nodes[1..] && m.id == n.id;
      assert m in nodes;
    }
  }

  lemma {:induction false} AppendFails(parent: RelativePath, nodes: seq<BrowsedNode>)
    requires AppendPaths(parent, nodes).Err?
    ensures AppendPaths(parent, nodes).error.NoBrowsePath?
  {
    if AppendPath(parent, nodes[0]).Ok? {
      AppendFails(parent, nodes[1..]);
    }
  }

  lemma ExtendWalk(space: AddressSpace, path: seq<NodeId>, next: NodeId)
    requires Walk(space, path) && IsChild(space, path[|path| - 1], next)
    ensures Walk(space, path + [next])
  {
    var longer := path + [next];
    forall i | 0 <= i < |longer| - 1 ensures StepAt(space, longer, i) {
      assert i < |path| - 1 ==> StepAt(space, path, i);
    }
  }

  lemma HeadReached(space: AddressSpace, limits: Limits, root: NodeId, path: seq<NodeId>, nodes: seq<BrowsedNode>)
    requires nodes != [] && LeadsTo(space, path, root, nodes)
    requires DepthLeft(limits, |path|)
    ensures Reaches(space, limits, root, path + [nodes[0].id], nodes[0].id)
  {
    ExtendWalk(space, path, nodes[0].id);
    assert (path + [nodes[0].id])[..|path|] == path;
  }

  lemma KidsLead(space: AddressSpace, limits: Limits, root: NodeId, path: seq<NodeId>, nodes: seq<BrowsedNode>, level: nat)
    requires nodes != [] && LeadsTo(space, path, root, nodes) && nodes[0].id !in path
    requires Children(space, limits, nodes[0], level).Ok?
    ensures LeadsTo(space, path + [nodes[0].id], root, Children(space, limits, nodes[0], level).value)
    ensures Children(space, limits, nodes[0], level).value != [] ==> DepthLeft(limits, level + 1)
  {
    var node := nodes[0];
    ExtendWalk(space, path, node.id);
    var kids := Children(space, limits, node, level).value;
    forall n | n in kids ensures IsChild(space, node.id, n.id) {
      AppendedIds(node.path, BrowseNode(space, node.id).value, n);
    }
  }

  lemma {:induction false} VisitExplains(space: AddressSpace, limits: Limits, root: NodeId, path: seq<NodeId>,
                                         nodes: seq<BrowsedNode>, ancestors: set<NodeId>, count: nat)
    requires PlainFailures(space) && LeadsTo(space, path, root, nodes) && SameIds(ancestors, path)
    requires nodes != [] ==> DepthLeft(limits, |path|)
    requires Visit(space, limits, nodes, ancestors, |path|, count).Err?
    ensures IsExplained(space, limits, root, Visit(space, limits, nodes, ancestors, |path|, count).error)
    decreases space.Keys - ancestors, |nodes|, 1
  {
    var kids := Children(space, limits, nodes[0], |path|);
    if !Within(limits, count + 1) || nodes[0].id in ancestors || kids.Err? {
      HeadExplains(space, limits, root, path, nodes, ancestors, count);
    } else {
      VisitFails(space, limits, nodes, ancestors, |path|, count, kids.value);
      var inner := Visit(space, limits, kids.value, ancestors + {nodes[0].id}, |path| + 1, count + 1);
      if inner.Err? {
        KidsLead(space, limits, root, path, nodes, |path|);
        BelowExplains(space, limits, root, path, nodes, ancestors, count, kids.value);
      } else {
        TailLeads(space, path, root, nodes);
        VisitExplains(space, limits, root, path, nodes[1..], ancestors, inner.value.1);
      }
    }
  }

  lemma {:induction false} BelowExplains(space: AddressSpace, limits: Limits, root: NodeId, path: seq<NodeId>,
                                         nodes: seq<BrowsedNode>, ancestors: set<NodeId>, count: nat, kids: seq<BrowsedNode>)
    requires PlainFailures(space) && LeadsTo(space, path, root, nodes) && SameIds(ancestors, path)
    requires nodes != [] && nodes[0].id !in ancestors && nodes[0].id in space
    requires LeadsTo(space, path + [nodes[0].id], root, kids) && DepthLeft(limits, |path| + 1)
    requires Visit(space, limits, kids, ancestors + {nodes[0].id}, |path| + 1, count + 1).Err?
    ensures IsExplained(space, limits, root,
                        Visit(space, limits, kids, ancestors + {nodes[0].id}, |path| + 1, count + 1).error)
    decreases space.Keys - ancestors, |nodes|, 0
  {
    AncestryShrinks(space, ancestors, nodes[0].id);
    SameIdsGrow(ancestors, path, nodes[0].id);
    VisitExplains(space, limits, root, path + [nodes[0].id], kids, ancestors + {nodes[0].id}, count + 1);
  }

  ghost predicate SameIds(ancestors: set<NodeId>, path: seq<NodeId>) {
    forall id :: id in ancestors <==> id in path
  }

  lemma SameIdsGrow(ancestors: set<NodeId>, path: seq<NodeId>, id: NodeId)
    requires SameIds(ancestors, path)
    ensures SameIds(ancestors + {id}, path + [id])
  {}

  predicate DepthLeft(limits: Limits, level: nat) {
    limits.maxDepth.Some? ==> level <= limits.maxDepth.value
  }

  // The error of a walk that got past its first node is that of a smaller walk.
  lemma VisitFails(space: AddressSpace, limits: Limits, nodes: seq<BrowsedNode>, ancestors: set<NodeId>,
                   level: nat, count: nat, kids: seq<BrowsedNode>)
    requires nodes != [] && nodes[0].id !in ancestors && Within(limits, count + 1)
    requires Children(space, limits, nodes[0], level) == Ok(kids)
    requires Visit(space, limits, nodes, ancestors, level, count).Err?
    ensures var e := Visit(space, limits, nodes, ancestors, level, count).error;
            var inner := Visit(space, limits, kids, ancestors + {nodes[0].id}, level + 1, count + 1);
            if inner.Err? then inner.error == e && kids != []
            else Visit(space, limits, nodes[1..], ancestors, level, inner.value.1) == Err(e)
  {}

  lemma TailLeads(space: AddressSpace, path: seq<NodeId>, root: NodeId, nodes: seq<BrowsedNode>)
    requires nodes != [] && LeadsTo(space, path, root, nodes)
    ensures LeadsTo(space, path, root, nodes[1..])
  {}

  // The walk stopping at the first of `nodes`.
  lemma HeadExplains(space: AddressSpace, limits: Limits, root: NodeId, path: seq<NodeId>,
                     nodes: seq<BrowsedNode>, ancestors: set<NodeId>, count: nat)
    requires PlainFailures(space) && nodes != [] && LeadsTo(space, path, root, nodes)
    requires SameIds(ancestors, path) && DepthLeft(limits, |path|)
    requires || !Within(limits, count + 1) || nodes[0].id in ancestors
             || Children(space, limits, nodes[0], |path|).Err?
    ensures Visit(space, limits, nodes, ancestors, |path|, count).Err?
    ensures IsExplained(space, limits, root, Visit(space, limits, nodes, ancestors, |path|, count).error)
  {
    HeadReached(space, limits, root, path, nodes);
    assert (path + [nodes[0].id])[..|path|] == path;
    if Children(space, limits, nodes[0], |path|).Err? {
      ChildrenFail(space, limits, nodes[0], |path|);
    }
  }

  lemma ChildrenFail(space: AddressSpace, limits: Limits, node: BrowsedNode, level: nat)
    requires PlainFailures(space) && Children(space, limits, node, level).Err?
    ensures var e := Children(space, limits, node, level).error;
            e.BrowseFailed? || e.NoBrowsePath?
  {
    if BrowseNode(space, node.id).Ok? {
      AppendFails(node.path, BrowseNode(space, node.id).value);
    }
  }

  // ---------------------------------------------------------------- the node limit

  // A walk that stops for the limit has more nodes to visit than the limit leaves.
  ghost predicate TooMany(space: AddressSpace, limits: Limits, nodes: seq<BrowsedNode>, count: nat, levels: nat) {
    !Within(limits, count + Size(Unfold(space, nodes, levels)))
  }

  // A walk that stopped because there were too many.
  ghost predicate StoppedFull(r: Outcome<(seq<BrowsedNode>, nat)>) {
    r.Err? && r.error.NodeLimitExceeded?
  }

  lemma {:induction false} VisitOverflows(space: AddressSpace, limits: Limits, nodes: seq<BrowsedNode>,
                                          ancestors: set<NodeId>, level: nat, count: nat, levels: nat)
    requires PlainFailures(space) && LevelsLeft(space, limits, ancestors, level, levels) && Within(limits, count)
    requires StoppedFull(Visit(space, limits, nodes, ancestors, level, count))
    ensures TooMany(space, limits, nodes, count, levels)
    decreases levels, |nodes|, 1
  {
    var node := nodes[0];
    var kids := Children(space, limits, node, level);
    if !Within(limits, count + 1) {
      SizeOfCons(space, nodes, levels);
      return;
    }
    if kids.Err? {
      ChildrenFail(space, limits, node, level);
      return;
    }
    VisitFails(space, limits, nodes, ancestors, level, count, kids.value);
    ChildrenAreKids(space, limits, node, ancestors, level, levels);
    var inner := Visit(space, limits, kids.value, ancestors + {node.id}, level + 1, count + 1);
    if inner.Err? {
      KidsOverflow(space, limits, node, ancestors, level, count, levels, |nodes|, kids.value);
      BelowOverflows(space, limits, nodes, count, levels, kids.value);
    } else {
      BelowUnfolds(space, limits, node, ancestors, level, count, levels, |nodes|, kids.value);
      VisitOverflows(space, limits, nodes[1..], ancestors, level, inner.value.1, levels);
      RestOverflows(space, limits, nodes, count, levels, kids.value);
    }
  }

  lemma {:induction false} KidsOverflow(space: AddressSpace, limits: Limits, node: BrowsedNode, ancestors: set<NodeId>,
                                        level: nat, count: nat, levels: nat, width: nat, kids: seq<BrowsedNode>)
    requires PlainFailures(space) && LevelsLeft(space, limits, ancestors, level, levels) && Within(limits, count + 1)
    requires node.id !in ancestors && Children(space, limits, node, level) == Ok(kids)
    requires StoppedFull(Visit(space, limits, kids, ancestors + {node.id}, level + 1, count + 1))
    ensures TooMany(space, limits, kids, count + 1, levels - 1)
    decreases levels, width, 0
  {
    ChildrenAreKids(space, limits, node, ancestors, level, levels);
    AncestryShrinks(space, ancestors, node.id);
    VisitOverflows(space, limits, kids, ancestors + {node.id}, level + 1, count + 1, levels - 1);
  }

  lemma BelowOverflows(space: AddressSpace, limits: Limits, nodes: seq<BrowsedNode>, count: nat, levels: nat,
                       kids: seq<BrowsedNode>)
    requires nodes != [] && levels > 0 && (if levels == 1 then kids == [] else KidsOf(space, nodes[0]) == Ok(kids))
    requires TooMany(space, limits, kids, count + 1, levels - 1)
    ensures TooMany(space, limits, nodes, count, levels)
  {
    SizeOfCons(space, nodes, levels);
  }

  lemma RestOverflows(space: AddressSpace, limits: Limits, nodes: seq<BrowsedNode>, count: nat, levels: nat,
                      kids: seq<BrowsedNode>)
    requires nodes != [] && levels > 0 && (if levels == 1 then kids == [] else KidsOf(space, nodes[0]) == Ok(kids))
    requires TooMany(space, limits, nodes[1..], count + 1 + Size(Unfold(space, kids, levels - 1)), levels)
    ensures TooMany(space, limits, nodes, count, levels)
  {
    SizeOfCons(space, nodes, levels);
  }

  /**
   No error is spurious: a cycle reported at a node is a walk from the root,
   within the depth cap, that comes back to that node; and a node reported past
   the limit is one such a walk reaches, in an unfolding of more nodes than the
   limit.
   */
  lemma ErrorsAreReal(space: AddressSpace, root: NodeId, limits: Limits, parentPath: RelativePath)
    requires PlainFailures(space) && BrowseAll(space, root, limits, parentPath).Err?
    ensures IsExplained(space, limits, root, BrowseAll(space, root, limits, parentPath).error)
    ensures BrowseAll(space, root, limits, parentPath).error.NodeLimitExceeded? ==>
              !Within(limits, Size(Unfold(space, TopOrNone(space, root, parentPath), Levels(space, limits))))
  {
    var found := BrowseNode(space, root);
    if found.Ok? {
      var top := AppendPaths(parentPath, found.value);
      if top.Err? {
        AppendFails(parentPath, found.value);
      } else {
        forall n | n in top.value ensures IsChild(space, root, n.id) {
          AppendedIds(parentPath, found.value, n);
        }
        VisitExplains(space, limits, root, [root], top.value, {root}, 0);
        if BrowseAll(space, root, limits, parentPath).error.NodeLimitExceeded? {
          SubsetSize(space.Keys - {root}, space.Keys);
          VisitOverflows(space, limits, top.value, {root}, 1, 0, Levels(space, limits));
        }
      }
    }
  }
}
