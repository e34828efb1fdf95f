/**
 Address-space browsing: the iterative depth-first walk of
 crates/instro-opcua/src/browse.rs, proved equal to a recursive walk.
 */
module Browse {
  import opened Wrappers

  type NodeId = string

  datatype QualifiedName = QualifiedName(namespaceIndex: nat, name: string)

  datatype Segment = Segment(referenceType: nat, includeSubtypes: bool, isInverse: bool, target: QualifiedName)

  // A relative path either carries an element array or none at all.
  type RelativePath = Option<seq<Segment>>

  datatype BrowsedNode = BrowsedNode(
    id: NodeId,
    name: string,
    displayName: string,
    nodeClass: nat,
    path: RelativePath,
    children: seq<BrowsedNode>)

  datatype BrowseError =
    | NodeLimitExceeded(at: NodeId)
    | CycleDetected(at: NodeId)
    | NoBrowsePath(at: NodeId)
    | BrowseFailed(message: string)

  type Outcome<+T> = Result<T, BrowseError>

  // What browsing each node of a finite address space answers; a node that is
  // not a key has no children.
  type AddressSpace = map<NodeId, Outcome<seq<BrowsedNode>>>

  datatype Limits = Limits(maxDepth: Option<nat>, nodeLimit: Option<nat>)

  function BrowseNode(space: AddressSpace, id: NodeId): Outcome<seq<BrowsedNode>> {
    if id in space then space[id] else Ok([])
  }

  function AppendPath(parent: RelativePath, child: BrowsedNode): Outcome<BrowsedNode> {
    if parent.None? then Ok(child)
    else if child.path.None? || child.path.value == [] then Err(NoBrowsePath(child.id))
    else Ok(child.(path := Some(parent.value + [child.path.value[|child.path.value| - 1]])))
  }

  /**
   Below a start path every child gets a path or, at the first that has no
   segment of its own, an error naming it; without one children stay as they are.
   */
  lemma {:induction false} PathsOrFirstWithout(parent: RelativePath, nodes: seq<BrowsedNode>)
    ensures parent.None? ==> AppendPaths(parent, nodes) == Ok(nodes)
    ensures parent.Some? ==>
              (AppendPaths(parent, nodes).Ok? <==> forall i :: 0 <= i < |nodes| ==> HasSegment(nodes[i]))
    ensures AppendPaths(parent, nodes).Err? ==>
              exists i :: 0 <= i < |nodes| && AppendPaths(parent, nodes) == Err(NoBrowsePath(nodes[i].id))
                          && !HasSegment(nodes[i]) && forall j :: 0 <= j < i ==> HasSegment(nodes[j])
  {
    if nodes != [] {
      PathsOrFirstWithout(parent, nodes[1..]);
      assert nodes == [nodes[0]] + nodes[1..];
      if AppendPath(parent, nodes[0]).Ok? && AppendPaths(parent, nodes[1..]).Err? {
        var tail := nodes[1..];
        var i :| 0 <= i < |tail| && AppendPaths(parent, tail) == Err(NoBrowsePath(tail[i].id))
                 && !HasSegment(tail[i]) && forall j :: 0 <= j < i ==> HasSegment(tail[j]);
        assert tail[i] == nodes[i + 1];
        forall j | 0 <= j < i + 1 ensures HasSegment(nodes[j]) {
          assert j > 0 ==> nodes[j] == tail[j - 1];
        }
      }
      if parent.Some? && forall i :: 0 <= i < |nodes| ==> HasSegment(nodes[i]) {
        assert forall i :: 0 <= i < |nodes| - 1 ==> nodes[1..][i] == nodes[i + 1];
      }
    }
  }

  predicate HasSegment(node: BrowsedNode) {
    node.path.Some? && node.path.value != []
  }

  function AppendPaths(parent: RelativePath, nodes: seq<BrowsedNode>): (r: Outcome<seq<BrowsedNode>>)
    ensures r.Ok? ==> |r.value| == |nodes|
  {
    if nodes == [] then Ok([])
    else
      var first :- AppendPath(parent, nodes[0]);
      var rest :- AppendPaths(parent, nodes[1..]);
      Ok([first] + rest)
  }

  // The children to visit under `node`, which sits at `level` (1 for the
  // root's own children). At the depth cap nothing is browsed.
  function Children(space: AddressSpace, limits: Limits, node: BrowsedNode, level: nat)
    : (r: Outcome<seq<BrowsedNode>>)
    ensures r.Ok? && r.value != [] ==> node.id in space
  {
    if limits.maxDepth.Some? && level >= limits.maxDepth.value then Ok([])
    else
      var found :- BrowseNode(space, node.id);
      AppendPaths(node.path, found)
  }

  // ---------------------------------------------------------------- recursive walk

  /** Visits `nodes` in order, each one completely before the next. */
  function Visit(space: AddressSpace, limits: Limits, nodes: seq<BrowsedNode>,
                 ancestors: set<NodeId>, level: nat, count: nat)
    : Outcome<(seq<BrowsedNode>, nat)>
    decreases space.Keys - ancestors, |nodes|
  {
    if nodes == [] then Ok(([], count))
    else
      var node := nodes[0];
      if limits.nodeLimit.Some? && count >= limits.nodeLimit.value then Err(NodeLimitExceeded(node.id))
      else if node.id in ancestors then Err(CycleDetected(node.id))
      else
        var kids :- Children(space, limits, node, level);
        AncestryShrinks(space, ancestors, node.id);
        var (below, c) :- Visit(space, limits, kids, ancestors + {node.id}, level + 1, count + 1);
        var (rest, c') :- Visit(space, limits, nodes[1..], ancestors, level, c);
        Ok(([node.(children := below)] + rest, c'))
  }

  lemma AncestryShrinks(space: AddressSpace, ancestors: set<NodeId>, id: NodeId)
    requires id !in ancestors
    ensures id in space ==> space.Keys - (ancestors + {id}) < space.Keys - ancestors
    ensures id in space ==> |space.Keys - (ancestors + {id})| == |space.Keys - ancestors| - 1
    ensures id !in space ==> space.Keys - (ancestors + {id}) == space.Keys - ancestors
  {
    if id in space {
      assert space.Keys - (ancestors + {id}) == (space.Keys - ancestors) - {id};
    }
  }

  /** The recursive walk from the root: the forest found and how many nodes were visited. */
  function BrowseAll(space: AddressSpace, root: NodeId, limits: Limits, parentPath: RelativePath)
    : Outcome<(seq<BrowsedNode>, nat)>
  {
    if limits.maxDepth == Some(0) then Ok(([], 0))
    else
      var found :- BrowseNode(space, root);
      var top :- AppendPaths(parentPath, found);
      Visit(space, limits, top, {root}, 1, 0)
  }

  // ---------------------------------------------------------------- iterative walk

  // One unfinished sibling list: what is finished, the node being expanded, what is left.
  datatype Crumb = Crumb(done: seq<BrowsedNode>, node: BrowsedNode, todo: seq<BrowsedNode>)

  ghost function Flat(trail: seq<Crumb>): seq<BrowsedNode> {
    if trail == [] then []
    else
      var last := trail[|trail| - 1];
      Flat(trail[..|trail| - 1]) + (last.done + [last.node] + last.todo)
  }

  // `nodes[index..limit]` is still to be visited or under way.
  datatype Frame = Frame(index: nat, limit: nat)

  // The stack frames of the unfinished lists: each starts where the one below ends.
  ghost function Frames(trail: seq<Crumb>): (frames: seq<Frame>)
    ensures |frames| == |trail|
  {
    if trail == [] then []
    else
      var below := trail[..|trail| - 1];
      Frames(below) + [Frame(|Flat(below)| + |trail[|trail| - 1].done|, |Flat(trail)|)]
  }

  ghost function Ancestry(root: NodeId, trail: seq<Crumb>): set<NodeId> {
    if trail == [] then {root}
    else Ancestry(root, trail[..|trail| - 1]) + {trail[|trail| - 1].node.id}
  }

  ghost predicate Distinct(root: NodeId, trail: seq<Crumb>) {
    trail == [] ||
    (var below := trail[..|trail| - 1];
     trail[|trail| - 1].node.id !in Ancestry(root, below) && Distinct(root, below))
  }

  // How the walk ends when resumed with `todo` left in the innermost list.
  ghost function Resume(space: AddressSpace, limits: Limits, root: NodeId, trail: seq<Crumb>,
                        done: seq<BrowsedNode>, todo: seq<BrowsedNode>, count: nat)
    : Outcome<(seq<BrowsedNode>, nat)>
    decreases |trail|
  {
    var (more, c) :- Visit(space, limits, todo, Ancestry(root, trail), |trail| + 1, count);
    if trail == [] then Ok((done + more, c))
    else
      var last := trail[|trail| - 1];
      Resume(space, limits, root, trail[..|trail| - 1],
             last.done + [last.node.(children := done + more)], last.todo, c)
  }

  // Loop iterations needed to visit `nodes`: one push and one pop for each node of the unfolding.
  ghost function Work(space: AddressSpace, limits: Limits, nodes: seq<BrowsedNode>,
                      ancestors: set<NodeId>, level: nat): nat
    decreases space.Keys - ancestors, |nodes|
  {
    if nodes == [] || nodes[0].id in ancestors then 0
    else
      AncestryShrinks(space, ancestors, nodes[0].id);
      match Children(space, limits, nodes[0], level)
      case Err(_) => 0
      case Ok(kids) =>
        2 + Work(space, limits, kids, ancestors + {nodes[0].id}, level + 1)
        + Work(space, limits, nodes[1..], ancestors, level)
  }

  ghost function Remaining(space: AddressSpace, limits: Limits, root: NodeId,
                           trail: seq<Crumb>, todo: seq<BrowsedNode>): nat
    decreases |trail|
  {
    Work(space, limits, todo, Ancestry(root, trail), |trail| + 1)
    + if trail == [] then 0
      else 1 + Remaining(space, limits, root, trail[..|trail| - 1], trail[|trail| - 1].todo)
  }

  method AppendPathsInPlace(parent: RelativePath, nodes: seq<BrowsedNode>)
    returns (r: Outcome<seq<BrowsedNode>>)
    ensures r == AppendPaths(parent, nodes)
  {
    var children := nodes;
    var i := 0;
    assert nodes[0..] == nodes && forall rest :: children[..0] + rest == rest;
    while i < |children|
      invariant 0 <= i <= |children| == |nodes|
      invariant children[i..] == nodes[i..]
      invariant AppendPaths(parent, nodes) ==
                match AppendPaths(parent, nodes[i..])
                case Ok(rest) => Ok(children[..i] + rest)
                case Err(e) => Err(e)
    {
      assert nodes[i..][1..] == nodes[i + 1..] && nodes[i..][0] == nodes[i];
      var child := AppendPath(parent, children[i]);
      if child.Err? {
        return Err(child.error);
      }
      ghost var before := children;
      children := children[i := child.value];
      assert children[..i + 1] == before[..i] + [child.value];
      assert forall rest :: before[..i] + ([child.value] + rest) == children[..i + 1] + rest;
      i := i + 1;
    }
    assert children[..i] + [] == children;
    r := Ok(children);
  }

  method Expand(space: AddressSpace, limits: Limits, node: BrowsedNode, level: nat)
    returns (r: Outcome<seq<BrowsedNode>>)
    ensures r == Children(space, limits, node, level)
  {
    var newChildren := [];
    if !(limits.maxDepth.Some? && level >= limits.maxDepth.value) {
      var browsed := BrowseNode(space, node.id);
      if browsed.Err? {
        return browsed;
      }
      newChildren := browsed.value;
    }
    r := AppendPathsInPlace(node.path, newChildren);
  }

  /** `visited` is the final value of the walk's node counter. */
  method BrowseIterative(space: AddressSpace, root: NodeId, limits: Limits, parentPath: RelativePath)
    returns (r: Outcome<seq<BrowsedNode>>, visited: nat)
    ensures match BrowseAll(space, root, limits, parentPath)
            case Ok((forest, count)) => r == Ok(forest) && visited == count
            case Err(e) => r == Err(e)
  {
    if limits.maxDepth == Some(0) {
      return Ok([]), 0;
    }
    var found := BrowseNode(space, root);
    if found.Err? {
      return Err(found.error), 0;
    }
    var rooted := AppendPathsInPlace(parentPath, found.value);
    if rooted.Err? {
      return Err(rooted.error), 0;
    }
    r, visited := BrowseLoop(space, root, limits, rooted.value);
  }

  ghost predicate Closed(nodes: seq<BrowsedNode>, stack: seq<Frame>, ancestors: set<NodeId>,
                         nodes': seq<BrowsedNode>, stack': seq<Frame>, ancestors': set<NodeId>)
  {
    && |stack| > 1
    && var Frame(prev, prevLimit) := stack[|stack| - 2];
       && prev < prevLimit <= |nodes|
       && nodes' == nodes[..prevLimit][prev := nodes[prev].(children := nodes[prevLimit..])]
       && stack' == stack[..|stack| - 2] + [Frame(prev + 1, prevLimit)]
       && ancestors' == ancestors - {nodes[prev].id}
  }

  /** Pops the finished frame and gives its nodes, split off the vector, to the parent. */
  method CloseFrame(nodes: seq<BrowsedNode>, stack: seq<Frame>, ancestors: set<NodeId>)
    returns (nodes': seq<BrowsedNode>, stack': seq<Frame>, ancestors': set<NodeId>)
    requires |stack| > 1
    requires var Frame(prev, prevLimit) := stack[|stack| - 2]; prev < prevLimit <= |nodes|
    ensures Closed(nodes, stack, ancestors, nodes', stack', ancestors')
  {
    stack' := stack[..|stack| - 1];
    var Frame(prev, prevLimit) := stack'[|stack'| - 1];
    var children := nodes[prevLimit..];
    nodes' := nodes[..prevLimit];
    var prevNode := nodes'[prev];
    nodes' := nodes'[prev := prevNode.(children := children)];
    ancestors' := ancestors - {prevNode.id};
    stack' := stack'[..|stack'| - 1] + [Frame(prev + 1, prevLimit)];
  }

  method BrowseLoop(space: AddressSpace, root: NodeId, limits: Limits, top: seq<BrowsedNode>)
    returns (r: Outcome<seq<BrowsedNode>>, visited: nat)
    ensures match Visit(space, limits, top, {root}, 1, 0)
            case Ok((forest, count)) => r == Ok(forest) && visited == count
            case Err(e) => r == Err(e)
  {
    visited := 0;
    var ancestors := {root};
    var nodes := top;
    var stack: seq<Frame> := [Frame(0, |nodes|)];

    ghost var trail, done, todo := [], [], nodes;
    ghost var goal := Visit(space, limits, top, {root}, 1, 0);
    StartGoes(space, limits, root, top, goal);
    while true
      invariant Going(space, limits, root, nodes, stack, ancestors, visited, trail, done, todo, goal)
      decreases Remaining(space, limits, root, trail, todo)
    {
      var Frame(current, limit) := stack[|stack| - 1];
      Inspect(space, limits, root, nodes, stack, ancestors, visited, trail, done, todo, goal);
      ghost var nodes0, stack0, ancestors0, visited0 := nodes, stack, ancestors, visited;
      if current < limit {
        var currentNode := nodes[current];
        if limits.nodeLimit.Some? && visited >= limits.nodeLimit.value {
          return Err(NodeLimitExceeded(currentNode.id)), visited;
        }
        visited := visited + 1;
        if currentNode.id in ancestors {
          return Err(CycleDetected(currentNode.id)), visited;
        }
        ancestors := ancestors + {currentNode.id};
        var placed := Expand(space, limits, currentNode, |stack|);
        if placed.Err? {
          return Err(placed.error), visited;
        }
        stack := stack + [Frame(limit, limit + |placed.value|)];
        nodes := nodes + placed.value;
        ghost var longer := trail + [Crumb(done, todo[0], todo[1..])];
        PushGoes(space, limits, root, nodes0, stack0, ancestors0, visited0, trail, done, todo, goal,
                 stack, visited, longer, placed.value);
        trail, done, todo := longer, [], placed.value;
      } else {
        if |stack| == 1 {
          return Ok(nodes), visited;
        }
        nodes, stack, ancestors := CloseFrame(nodes, stack, ancestors);
        ghost var last, below := trail[|trail| - 1], trail[..|trail| - 1];
        ghost var closed := last.done + [last.node.(children := done)];
        PopGoes(space, limits, root, nodes0, stack0, ancestors0, visited, trail, done, goal,
                nodes, stack, ancestors, below, closed);
        trail, done, todo := below, closed, last.todo;
      }
    }
  }

  // The loop invariant: the state represents an unfinished walk that ends in `goal`.
  ghost predicate Going(space: AddressSpace, limits: Limits, root: NodeId, nodes: seq<BrowsedNode>, stack: seq<Frame>,
                        ancestors: set<NodeId>, visited: nat, trail: seq<Crumb>, done: seq<BrowsedNode>,
                        todo: seq<BrowsedNode>, goal: Outcome<(seq<BrowsedNode>, nat)>)
  {
    && Laid(root, nodes, stack, ancestors, trail, done, todo)
    && Leads(space, limits, root, trail, done, todo, visited, goal)
    && Browsed(space, trail, todo)
  }

  // Only a node that can be browsed has children: every ancestor is one, but
  // for the innermost while nothing is open below it.
  ghost predicate Browsed(space: AddressSpace, trail: seq<Crumb>, todo: seq<BrowsedNode>) {
    forall i :: 0 <= i < |trail| && (i < |trail| - 1 || todo != []) ==> trail[i].node.id in space
  }

  // What the top frame shows, and the outcome in each case where the walk stops here.
  lemma Inspect(space: AddressSpace, limits: Limits, root: NodeId, nodes: seq<BrowsedNode>, stack: seq<Frame>,
                ancestors: set<NodeId>, visited: nat, trail: seq<Crumb>, done: seq<BrowsedNode>,
                todo: seq<BrowsedNode>, goal: Outcome<(seq<BrowsedNode>, nat)>)
    requires Going(space, limits, root, nodes, stack, ancestors, visited, trail, done, todo, goal)
    ensures |stack| == |trail| + 1 && |stack| <= |space| + 2
    ensures stack[|trail|].limit == |nodes|
    ensures todo == [] ==> stack[|trail|].index == |nodes|
    ensures todo == [] && trail == [] ==> goal == Ok((nodes, visited))
    ensures todo == [] && trail != [] ==> stack[|trail| - 1].index < stack[|trail| - 1].limit <= |nodes|
    ensures todo != [] ==>
              var full := limits.nodeLimit.Some? && visited >= limits.nodeLimit.value;
              var kids := Children(space, limits, todo[0], |stack|);
              && stack[|trail|].index < |nodes| && nodes[stack[|trail|].index] == todo[0]
              && (full ==> goal == Err(NodeLimitExceeded(todo[0].id)))
              && (!full && todo[0].id in ancestors ==> goal == Err(CycleDetected(todo[0].id)))
              && (!full && todo[0].id !in ancestors && kids.Err? ==> goal == Err(kids.error))
  {
    TopFrame(root, nodes, stack, ancestors, trail, done, todo);
    WhereItLeads(space, limits, root, trail, done, todo, visited, goal);
    StackIsShort(space, limits, root, nodes, stack, ancestors, visited, trail, done, todo, goal);
    if todo == [] && trail != [] {
      TopCloses(root, nodes, stack, ancestors, trail, done);
    }
  }

  lemma StartGoes(space: AddressSpace, limits: Limits, root: NodeId, top: seq<BrowsedNode>,
                  goal: Outcome<(seq<BrowsedNode>, nat)>)
    requires goal == Visit(space, limits, top, {root}, 1, 0)
    ensures Going(space, limits, root, top, [Frame(0, |top|)], {root}, 0, [], [], top, goal)
  {
    assert goal.Ok? ==> [] + goal.value.0 == goal.value.0;
  }

  lemma PushGoes(space: AddressSpace, limits: Limits, root: NodeId, nodes: seq<BrowsedNode>, stack: seq<Frame>,
                 ancestors: set<NodeId>, visited: nat, trail: seq<Crumb>, done: seq<BrowsedNode>,
                 todo: seq<BrowsedNode>, goal: Outcome<(seq<BrowsedNode>, nat)>,
                 taller: seq<Frame>, counted: nat, longer: seq<Crumb>, kids: seq<BrowsedNode>)
    requires Going(space, limits, root, nodes, stack, ancestors, visited, trail, done, todo, goal)
    requires todo != [] && todo[0].id !in ancestors
    requires (limits.nodeLimit.Some? ==> visited < limits.nodeLimit.value) && counted == visited + 1
    requires Children(space, limits, todo[0], |stack|) == Ok(kids)
    requires longer == trail + [Crumb(done, todo[0], todo[1..])]
    requires taller == stack + [Frame(|nodes|, |nodes| + |kids|)]
    ensures Going(space, limits, root, nodes + kids, taller, ancestors + {todo[0].id}, counted, longer, [], kids, goal)
    ensures Remaining(space, limits, root, longer, kids) < Remaining(space, limits, root, trail, todo)
  {
    TopFrame(root, nodes, stack, ancestors, trail, done, todo);
    PushLaid(root, nodes, stack, ancestors, trail, done, todo, taller, longer, kids);
    PushStep(space, limits, root, trail, longer, done, todo, visited, counted, kids, goal);
    assert kids != [] ==> todo[0].id in space;
  }

  lemma PopGoes(space: AddressSpace, limits: Limits, root: NodeId, nodes: seq<BrowsedNode>, stack: seq<Frame>,
                ancestors: set<NodeId>, visited: nat, trail: seq<Crumb>, done: seq<BrowsedNode>,
                goal: Outcome<(seq<BrowsedNode>, nat)>,
                nodes': seq<BrowsedNode>, stack': seq<Frame>, ancestors': set<NodeId>,
                below: seq<Crumb>, closed: seq<BrowsedNode>)
    requires trail != []
    requires Going(space, limits, root, nodes, stack, ancestors, visited, trail, done, [], goal)
    requires Closed(nodes, stack, ancestors, nodes', stack', ancestors')
    requires below == trail[..|trail| - 1]
    requires closed == trail[|trail| - 1].done + [trail[|trail| - 1].node.(children := done)]
    ensures Going(space, limits, root, nodes', stack', ancestors', visited, below, closed, trail[|trail| - 1].todo, goal)
    ensures Remaining(space, limits, root, below, trail[|trail| - 1].todo) < Remaining(space, limits, root, trail, [])
  {
    PopLaid(root, nodes, stack, ancestors, trail, done, nodes', stack', ancestors', below, closed);
    PopStep(space, limits, root, trail, done, visited, goal, below, closed);
  }

  // How the vector, the stack and the ancestor set represent the unfinished lists.
  ghost predicate Laid(root: NodeId, nodes: seq<BrowsedNode>, stack: seq<Frame>, ancestors: set<NodeId>,
                       trail: seq<Crumb>, done: seq<BrowsedNode>, todo: seq<BrowsedNode>)
  {
    && stack == Frames(trail) + [Frame(|Flat(trail)| + |done|, |nodes|)]
    && nodes == Flat(trail) + (done + todo)
    && ancestors == Ancestry(root, trail)
    && Distinct(root, trail)
  }

  lemma TopFrame(root: NodeId, nodes: seq<BrowsedNode>, stack: seq<Frame>, ancestors: set<NodeId>,
                 trail: seq<Crumb>, done: seq<BrowsedNode>, todo: seq<BrowsedNode>)
    requires Laid(root, nodes, stack, ancestors, trail, done, todo)
    ensures |stack| == |trail| + 1
    ensures var Frame(current, limit) := stack[|trail|];
            && limit == |nodes|
            && (current < limit <==> todo != [])
            && (current < limit ==> nodes[current] == todo[0])
    ensures todo == [] && trail == [] ==> nodes == done
  {
  }

  /**
   The stack has one frame per ancestor, the root's included, so distinct
   ancestors bound its height; and each frame below the top stands at its
   ancestor in the vector.
   */
  lemma StackIsAncestry(root: NodeId, nodes: seq<BrowsedNode>, stack: seq<Frame>, ancestors: set<NodeId>,
                        trail: seq<Crumb>, done: seq<BrowsedNode>, todo: seq<BrowsedNode>, j: nat)
    requires Laid(root, nodes, stack, ancestors, trail, done, todo) && j < |stack| - 1
    ensures |stack| == |ancestors|
    ensures stack[j].index < stack[j].limit <= stack[j + 1].index <= stack[j + 1].limit <= |nodes|
    ensures nodes[stack[j].index].id in ancestors && nodes[stack[j].index].id != root
  {
    AncestrySize(root, trail);
    FrameAt(root, trail, j);
    if j + 1 < |trail| {
      FrameAt(root, trail, j + 1);
    }
  }

  lemma {:induction false} AncestrySize(root: NodeId, trail: seq<Crumb>)
    requires Distinct(root, trail)
    ensures |Ancestry(root, trail)| == |trail| + 1
  {
    if trail != [] {
      AncestrySize(root, trail[..|trail| - 1]);
    }
  }

  lemma {:induction false} AncestryBrowsed(space: AddressSpace, root: NodeId, trail: seq<Crumb>)
    requires forall i :: 0 <= i < |trail| ==> trail[i].node.id in space
    ensures Ancestry(root, trail) <= space.Keys + {root}
  {
    if trail != [] {
      AncestryBrowsed(space, root, trail[..|trail| - 1]);
    }
  }

  lemma SubsetSize<T>(a: set<T>, b: set<T>)
    requires a <= b
    ensures |a| <= |b|
  {
    assert |b| == |a| + |b - a| by {
      assert a + (b - a) == b;
    }
  }

  /**
   The stack never grows past the number of browsable ids and two: the root
   and one last node without children.
   */
  lemma StackIsShort(space: AddressSpace, limits: Limits, root: NodeId, nodes: seq<BrowsedNode>, stack: seq<Frame>,
                     ancestors: set<NodeId>, visited: nat, trail: seq<Crumb>, done: seq<BrowsedNode>,
                     todo: seq<BrowsedNode>, goal: Outcome<(seq<BrowsedNode>, nat)>)
    requires Going(space, limits, root, nodes, stack, ancestors, visited, trail, done, todo, goal)
    ensures |stack| == |ancestors| <= |space| + 2
  {
    AncestrySize(root, trail);
    if trail != [] {
      var below, id := trail[..|trail| - 1], trail[|trail| - 1].node.id;
      AncestryBrowsed(space, root, below);
      SubsetSize(ancestors, space.Keys + {root} + {id});
    }
  }

  lemma RootIsAncestor(root: NodeId, trail: seq<Crumb>)
    ensures root in Ancestry(root, trail)
  {}

  lemma {:induction false} FrameAt(root: NodeId, trail: seq<Crumb>, j: nat)
    requires j < |trail| && Distinct(root, trail)
    ensures var frame := Frames(trail)[j];
            && frame.index < frame.limit <= |Flat(trail)|
            && Flat(trail)[frame.index].id in Ancestry(root, trail) && Flat(trail)[frame.index].id != root
            && (j + 1 == |trail| ==> frame.limit == |Flat(trail)|)
            && (j + 1 < |trail| ==> frame.limit <= Frames(trail)[j + 1].index)
  {
    var below := trail[..|trail| - 1];
    var last := trail[|trail| - 1];
    RootIsAncestor(root, below);
    assert Flat(trail)[|Flat(below)| + |last.done|] == last.node;
    if j < |below| {
      FrameAt(root, below, j);
    }
  }

  lemma PushLaid(root: NodeId, nodes: seq<BrowsedNode>, stack: seq<Frame>, ancestors: set<NodeId>,
                 trail: seq<Crumb>, done: seq<BrowsedNode>, todo: seq<BrowsedNode>,
                 taller: seq<Frame>, longer: seq<Crumb>, kids: seq<BrowsedNode>)
    requires Laid(root, nodes, stack, ancestors, trail, done, todo)
    requires todo != [] && todo[0].id !in ancestors
    requires longer == trail + [Crumb(done, todo[0], todo[1..])]
    requires taller == stack + [Frame(|nodes|, |nodes| + |kids|)]
    ensures Laid(root, nodes + kids, taller, ancestors + {todo[0].id}, longer, [], kids)
  {
    assert longer[..|trail|] == trail;
    assert done + [todo[0]] + todo[1..] == done + todo;
    assert Flat(longer) == nodes;
    assert Frames(longer) == stack;
    assert [] + kids == kids;
  }

  // Where the frame below the top points, once the top one is finished.
  lemma TopCloses(root: NodeId, nodes: seq<BrowsedNode>, stack: seq<Frame>, ancestors: set<NodeId>,
                  trail: seq<Crumb>, done: seq<BrowsedNode>)
    requires trail != [] && Laid(root, nodes, stack, ancestors, trail, done, [])
    ensures |stack| == |trail| + 1
    ensures var Frame(prev, prevLimit) := stack[|stack| - 2];
            var last := trail[|trail| - 1];
            && prev < prevLimit <= |nodes|
            && prev == |Flat(trail[..|trail| - 1])| + |last.done|
            && nodes[..prevLimit] == Flat(trail)
            && nodes[prevLimit..] == done
            && nodes[prev] == last.node
  {
    var last := trail[|trail| - 1];
    assert stack[..|trail|] == Frames(trail);
    assert done + [] == done;
    assert Flat(trail) == Flat(trail[..|trail| - 1]) + (last.done + [last.node] + last.todo);
    var Frame(prev, prevLimit) := stack[|stack| - 2];
    assert nodes[..prevLimit] == Flat(trail);
  }

  lemma PopLaid(root: NodeId, nodes: seq<BrowsedNode>, stack: seq<Frame>, ancestors: set<NodeId>,
                trail: seq<Crumb>, done: seq<BrowsedNode>,
                nodes': seq<BrowsedNode>, stack': seq<Frame>, ancestors': set<NodeId>,
                below: seq<Crumb>, closed: seq<BrowsedNode>)
    requires trail != [] && Laid(root, nodes, stack, ancestors, trail, done, [])
    requires Closed(nodes, stack, ancestors, nodes', stack', ancestors')
    requires below == trail[..|trail| - 1]
    requires closed == trail[|trail| - 1].done + [trail[|trail| - 1].node.(children := done)]
    ensures Laid(root, nodes', stack', ancestors', below, closed, trail[|trail| - 1].todo)
  {
    TopCloses(root, nodes, stack, ancestors, trail, done);
    var last := trail[|trail| - 1];
    assert Flat(trail) == Flat(below) + (last.done + [last.node] + last.todo);
    assert nodes' == Flat(below) + (closed + last.todo);
    assert stack[..|stack| - 2] == Frames(below) by {
      assert stack[..|trail|] == Frames(trail);
    }
    assert ancestors' == Ancestry(root, below);
  }

  ghost predicate Leads(space: AddressSpace, limits: Limits, root: NodeId, trail: seq<Crumb>,
                        done: seq<BrowsedNode>, todo: seq<BrowsedNode>, count: nat,
                        goal: Outcome<(seq<BrowsedNode>, nat)>)
  {
    Resume(space, limits, root, trail, done, todo, count) == goal
  }

  // The outcome, in each case where the walk stops here.
  lemma WhereItLeads(space: AddressSpace, limits: Limits, root: NodeId, trail: seq<Crumb>,
                     done: seq<BrowsedNode>, todo: seq<BrowsedNode>, count: nat,
                     goal: Outcome<(seq<BrowsedNode>, nat)>)
    requires Leads(space, limits, root, trail, done, todo, count, goal)
    ensures todo == [] && trail == [] ==> goal == Ok((done, count))
    ensures todo != [] ==>
              var full := limits.nodeLimit.Some? && count >= limits.nodeLimit.value;
              var kids := Children(space, limits, todo[0], |trail| + 1);
              && (full ==> goal == Err(NodeLimitExceeded(todo[0].id)))
              && (!full && todo[0].id in Ancestry(root, trail) ==> goal == Err(CycleDetected(todo[0].id)))
              && (!full && todo[0].id !in Ancestry(root, trail) && kids.Err? ==> goal == Err(kids.error))
  {
    assert done + [] == done;
  }

  lemma PushStep(space: AddressSpace, limits: Limits, root: NodeId, trail: seq<Crumb>, longer: seq<Crumb>,
                 done: seq<BrowsedNode>, todo: seq<BrowsedNode>, count: nat, counted: nat,
                 kids: seq<BrowsedNode>, goal: Outcome<(seq<BrowsedNode>, nat)>)
    requires Leads(space, limits, root, trail, done, todo, count, goal)
    requires todo != [] && todo[0].id !in Ancestry(root, trail)
    requires (limits.nodeLimit.Some? ==> count < limits.nodeLimit.value) && counted == count + 1
    requires Children(space, limits, todo[0], |trail| + 1) == Ok(kids)
    requires longer == trail + [Crumb(done, todo[0], todo[1..])]
    ensures Leads(space, limits, root, longer, [], kids, counted, goal)
    ensures Remaining(space, limits, root, longer, kids) < Remaining(space, limits, root, trail, todo)
  {
    assert longer[..|trail|] == trail;
    assert Ancestry(root, longer) == Ancestry(root, trail) + {todo[0].id};
    PushResumes(space, limits, root, trail, longer, done, todo, count, kids);
  }

  lemma PushResumes(space: AddressSpace, limits: Limits, root: NodeId, trail: seq<Crumb>, longer: seq<Crumb>,
                    done: seq<BrowsedNode>, todo: seq<BrowsedNode>, count: nat, kids: seq<BrowsedNode>)
    requires todo != [] && todo[0].id !in Ancestry(root, trail)
    requires limits.nodeLimit.Some? ==> count < limits.nodeLimit.value
    requires Children(space, limits, todo[0], |trail| + 1) == Ok(kids)
    requires longer == trail + [Crumb(done, todo[0], todo[1..])]
    ensures Resume(space, limits, root, longer, [], kids, count + 1)
         == Resume(space, limits, root, trail, done, todo, count)
  {
    assert longer[..|trail|] == trail;
    assert Ancestry(root, longer) == Ancestry(root, trail) + {todo[0].id};
    var inner := Visit(space, limits, kids, Ancestry(root, longer), |trail| + 2, count + 1);
    if inner.Ok? {
      var (below, c) := inner.value;
      assert [] + below == below;
      var head := [todo[0].(children := below)];
      var rest := Visit(space, limits, todo[1..], Ancestry(root, trail), |trail| + 1, c);
      if rest.Ok? {
        assert done + (head + rest.value.0) == (done + head) + rest.value.0;
      }
    }
  }

  lemma PopStep(space: AddressSpace, limits: Limits, root: NodeId, trail: seq<Crumb>,
                done: seq<BrowsedNode>, count: nat, goal: Outcome<(seq<BrowsedNode>, nat)>,
                below: seq<Crumb>, closed: seq<BrowsedNode>)
    requires trail != [] && Leads(space, limits, root, trail, done, [], count, goal)
    requires below == trail[..|trail| - 1]
    requires closed == trail[|trail| - 1].done + [trail[|trail| - 1].node.(children := done)]
    ensures Leads(space, limits, root, below, closed, trail[|trail| - 1].todo, count, goal)
    ensures Remaining(space, limits, root, below, trail[|trail| - 1].todo)
          < Remaining(space, limits, root, trail, [])
  {
    assert done + [] == done;
  }
}
