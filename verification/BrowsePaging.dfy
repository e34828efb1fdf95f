/**
 The client's own `browse_node`: references arrive in pages chained by
 continuation points and are collected into one list.
 */
module BrowsePaging {
  import opened Wrappers
  import opened Browse
  import opened BrowseTheorems

  type ContinuationPoint = nat

  datatype Reference = Reference(
    nodeId: NodeId,
    browseName: QualifiedName,
    displayName: string,
    nodeClass: nat,
    isForward: bool)

  datatype Page = Page(references: seq<Reference>, more: Option<ContinuationPoint>)

  // One answer to browse-next: the call may fail; otherwise it carries results, of which the last is used.
  type Reply = Outcome<seq<Outcome<Page>>>

  const HIERARCHICAL_REFERENCES: nat := 33

  function ToNode(r: Reference): BrowsedNode {
    BrowsedNode(r.nodeId, r.browseName.name, r.displayName, r.nodeClass,
                Some([Segment(HIERARCHICAL_REFERENCES, true, !r.isForward, r.browseName)]), [])
  }

  function ToNodes(references: seq<Reference>): seq<BrowsedNode> {
    seq(|references|, i requires 0 <= i < |references| => ToNode(references[i]))
  }

  // What the answers so far to the successive browse-next calls come to; None
  // while the client has a continuation point and no answer for it yet.
  function Collect(page: Page, replies: seq<Reply>): Option<Outcome<seq<Reference>>>
    decreases |replies|
  {
    if page.more.None? then Some(Ok(page.references))
    else if replies == [] then None
    else match replies[0]
      case Err(e) => Some(Err(e))
      case Ok(results) =>
        if results == [] then Some(Ok(page.references))
        else match results[|results| - 1]
          case Err(e) => Some(Err(e))
          case Ok(next) => Prepend(page.references, Collect(next, replies[1..]))
  }

  function Prepend(before: seq<Reference>, rest: Option<Outcome<seq<Reference>>>): Option<Outcome<seq<Reference>>> {
    if rest.Some? && rest.value.Ok? then Some(Ok(before + rest.value.value)) else rest
  }

  // The nodes of all references that follow the answer to the first browse.
  function AllNodes(first: Outcome<Page>, replies: seq<Reply>): Option<Outcome<seq<BrowsedNode>>> {
    match first
    case Err(e) => Some(Err(e))
    case Ok(page) => AsNodes(Collect(page, replies))
  }

  function AsNodes(r: Option<Outcome<seq<Reference>>>): Option<Outcome<seq<BrowsedNode>>> {
    match r
    case None => None
    case Some(Err(e)) => Some(Err(e))
    case Some(Ok(all)) => Some(Ok(ToNodes(all)))
  }

  /** None stands for still waiting for an answer when `replies` are used up. */
  method BrowseNodePaged(first: Outcome<Page>, replies: seq<Reply>) returns (r: Option<Outcome<seq<BrowsedNode>>>)
    ensures r == AllNodes(first, replies)
  {
    if first.Err? {
      return Some(Err(first.error));
    }
    var allRefs, more := first.value.references, first.value.more;
    ghost var page, before: seq<Reference> := first.value, [];
    var calls := 0;
    assert replies[0..] == replies && [] + allRefs == allRefs;
    PrependNothing(Collect(page, replies));
    while more.Some?
      invariant calls <= |replies|
      invariant more == page.more && allRefs == before + page.references
      invariant Collect(first.value, replies) == Prepend(before, Collect(page, replies[calls..]))
      decreases |replies| - calls
    {
      if calls == |replies| {
        return None;
      }
      var reply := replies[calls];
      assert replies[calls..][1..] == replies[calls + 1..];
      calls := calls + 1;
      if reply.Err? {
        return Some(Err(reply.error));
      }
      if reply.value == [] {
        break;
      }
      var result := reply.value[|reply.value| - 1];
      if result.Err? {
        return Some(Err(result.error));
      }
      PrependTwice(before, page.references, Collect(result.value, replies[calls..]));
      before := allRefs;
      allRefs := allRefs + result.value.references;
      more, page := result.value.more, result.value;
    }
    r := Some(Ok(ToNodes(allRefs)));
  }

  lemma PrependNothing(rest: Option<Outcome<seq<Reference>>>)
    ensures Prepend([], rest) == rest
  {
    if rest.Some? && rest.value.Ok? {
      assert [] + rest.value.value == rest.value.value;
    }
  }

  lemma PrependTwice(a: seq<Reference>, b: seq<Reference>, rest: Option<Outcome<seq<Reference>>>)
    ensures Prepend(a, Prepend(b, rest)) == Prepend(a + b, rest)
  {
    if rest.Some? && rest.value.Ok? {
      Regroup(a, b, rest.value.value);
    }
  }

  /** Once the client has its result, further answers are never asked for. */
  lemma {:induction false} ResultIsFinal(page: Page, replies: seq<Reply>, more: seq<Reply>)
    requires Collect(page, replies).Some?
    ensures Collect(page, replies + more) == Collect(page, replies)
    decreases |replies|
  {
    if page.more.Some? && replies[0].Ok? && replies[0].value != [] {
      var result := replies[0].value[|replies[0].value| - 1];
      assert (replies + more)[0] == replies[0] && (replies + more)[1..] == replies[1..] + more;
      if result.Ok? {
        ResultIsFinal(result.value, replies[1..], more);
      }
    }
  }

  // The server's answers when it deals `pages` out one at a time.
  function Dealt(pages: seq<seq<Reference>>, cp: ContinuationPoint): (dealt: (Page, seq<Reply>))
    requires pages != []
  {
    if |pages| == 1 then (Page(pages[0], None), [])
    else
      var (next, replies) := Dealt(pages[1..], cp + 1);
      (Page(pages[0], Some(cp)), [Ok([Ok(next)])] + replies)
  }

  function Concat<T>(parts: seq<seq<T>>): seq<T> {
    if parts == [] then [] else parts[0] + Concat(parts[1..])
  }

  /** However the server pages its references, all of them are collected, in order. */
  lemma {:induction false} PagingIsTransparent(pages: seq<seq<Reference>>, cp: ContinuationPoint)
    requires pages != []
    ensures Collect(Dealt(pages, cp).0, Dealt(pages, cp).1) == Some(Ok(Concat(pages)))
  {
    if |pages| == 1 {
      assert pages[1..] == [] && pages[0] + [] == pages[0];
    } else {
      PagingIsTransparent(pages[1..], cp + 1);
      var (page, replies) := Dealt(pages, cp);
      assert replies[1..] == Dealt(pages[1..], cp + 1).1;
    }
  }

  /**
   The nodes a browse answers: one for each reference collected, in order, with
   what the reference says and a single forward or inverse segment of its own.
   */
  lemma NodesSayReferences(first: Outcome<Page>, replies: seq<Reply>, i: nat)
    requires AllNodes(first, replies).Some? && AllNodes(first, replies).value.Ok?
    ensures first.Ok? && Collect(first.value, replies).Some? && Collect(first.value, replies).value.Ok?
    ensures |AllNodes(first, replies).value.value| == |Collect(first.value, replies).value.value|
    ensures i < |AllNodes(first, replies).value.value| ==>
              var node := AllNodes(first, replies).value.value[i];
              var reference := Collect(first.value, replies).value.value[i];
              && node.id == reference.nodeId
              && node.name == reference.browseName.name
              && node.displayName == reference.displayName
              && node.nodeClass == reference.nodeClass
              && node.children == []
              && node.path.Some? && |node.path.value| == 1
              && (var segment := node.path.value[0];
                  && segment.referenceType == 33 && segment.includeSubtypes
                  && (segment.isInverse <==> !reference.isForward)
                  && segment.target == reference.browseName)
  {}

  /** An address space served by this client gives every reference a one-element path. */
  lemma ClientGivesOneSegment(space: AddressSpace)
    requires forall id :: id in space && space[id].Ok? ==>
               exists references :: space[id].value == ToNodes(references)
    ensures OneSegmentEach(space)
  {
    forall id, n | id in space && space[id].Ok? && n in space[id].value
      ensures n.path.Some? && |n.path.value| == 1
    {
      var references :| space[id].value == ToNodes(references);
      var i :| 0 <= i < |references| && ToNodes(references)[i] == n;
    }
  }
}
