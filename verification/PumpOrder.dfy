/**
 Per-node time order of the pump's output: exactly when it holds, if the
 server is timely, and that it always does with server timestamps only.
 */
module PumpOrder {
  import opened Wrappers
  import opened Pump
  import opened PumpTheorems

  function Time(s: Sample): int {
    if s.server.Some? then s.server.value else 0
  }

  predicate AtLeast(t: int, times: set<int>) {
    forall u :: u in times ==> u <= t
  }

  function ItemTimes(items: seq<Item>, node: NodeId): set<int> {
    set i | 0 <= i < |items| && items[i].node == node :: Time(items[i].data)
  }

  // Times of the notifications of `node`.
  function NoteTimes(events: seq<Event>, node: NodeId): set<int> {
    if events == [] then {}
    else NoteTimes(events[..|events| - 1], node) + match events[|events| - 1]
                                                   case Chunk(items) => ItemTimes(items, node)
                                                   case _ => {}
  }

  // Times of the polled samples of `node` flushed by a tick or the exit.
  function FlushedTimes(out: seq<Batch>, node: NodeId): set<int> {
    if out == [] then {}
    else FlushedTimes(out[..|out| - 1], node) + match out[|out| - 1]
                                                case Flush(samples) => if node in samples then {Time(samples[node])} else {}
                                                case _ => {}
  }

  // The tick stores what it read for `node`.
  predicate Stores(s: State, reply: Reply, node: NodeId) {
    reply.Values? && s.quiet != {} && reply.samples.Keys == s.quiet && node in reply.samples
  }

  // While the pump runs: notifications of `node` come in time order and none is
  // older than a polled sample already flushed; and a value stored is never
  // older than anything emitted for the node, the flush of its own tick included.
  ghost predicate Timely(batch: set<NodeId>, events: seq<Event>, node: NodeId) {
    events == [] ||
    (var before := events[..|events| - 1];
     Timely(batch, before, node) && TimelyNext(Run(batch, before), before, events[|events| - 1], node))
  }

  ghost predicate TimelyNext(s: State, before: seq<Event>, e: Event, node: NodeId) {
    s.running ==>
      match e
      case Chunk(items) => AtLeastAll(items, node, NoteTimes(before, node) + FlushedTimes(s.out, node))
      case Tick(reply) => Stores(s, reply, node) ==>
                            && reply.samples[node].server.Some?
                            && NoneLater(OutTimes(s.out + [Flush(s.polled)], node), Time(reply.samples[node]))
      case End => true
  }

  predicate NoneLater(times: seq<int>, t: int) {
    forall i :: 0 <= i < |times| ==> times[i] <= t
  }

  ghost predicate AtLeastAll(items: seq<Item>, node: NodeId, times: set<int>) {
    items == [] ||
    (var earlier, last := items[..|items| - 1], items[|items| - 1];
     && AtLeastAll(earlier, node, times)
     && (last.node == node ==> last.data.server.Some? && AtLeast(Time(last.data), times + ItemTimes(earlier, node))))
  }

  // The notification releases no polled sample of `node` with a later server time than its own.
  predicate ReleaseInOrder(b: Buffer, item: Item, node: NodeId) {
    item.node == node && node in b.polled && Older(b.polled[node], item.data) ==>
      Time(b.polled[node]) <= Time(item.data)
  }

  predicate ItemsInOrder(b: Buffer, items: seq<Item>, node: NodeId) {
    items == [] ||
    (var earlier, last := items[..|items| - 1], items[|items| - 1];
     ItemsInOrder(b, earlier, node) && ReleaseInOrder(NotifyAll(b, earlier), last, node))
  }

  // No notification of the run releases a polled sample with a later server time.
  predicate ReleasesInOrder(batch: set<NodeId>, events: seq<Event>, node: NodeId) {
    events == [] ||
    (var before, last := events[..|events| - 1], events[|events| - 1];
     var s := Run(batch, before);
     && ReleasesInOrder(batch, before, node)
     && (s.running && last.Chunk? ==> ItemsInOrder(Buffer(s.quiet, s.polled, []), last.items, node)))
  }

  function TimesIn(emissions: seq<Emission>, node: NodeId): seq<int> {
    if emissions == [] then []
    else
      var last := emissions[|emissions| - 1];
      TimesIn(emissions[..|emissions| - 1], node) + if last.node == node then [Time(last.sample)] else []
  }

  function BatchTimes(b: Batch, node: NodeId): seq<int> {
    match b
    case Flush(samples) => if node in samples then [Time(samples[node])] else []
    case Samples(emissions) => TimesIn(emissions, node)
  }

  // The timestamps the callback saw for `node`, in order.
  function OutTimes(out: seq<Batch>, node: NodeId): seq<int> {
    if out == [] then []
    else OutTimes(out[..|out| - 1], node) + BatchTimes(out[|out| - 1], node)
  }

  predicate Nondecreasing(times: seq<int>) {
    forall i, j :: 0 <= i < j < |times| ==> times[i] <= times[j]
  }

  // `t` is no later than a notification so far, or is one of `polls`.
  predicate Covered(t: int, notes: set<int>, polls: set<int>) {
    t in polls || exists u :: u in notes && t <= u
  }

  ghost predicate InOrder(times: seq<int>, held: Option<Sample>, notes: set<int>, polls: set<int>) {
    && Nondecreasing(times)
    && (forall i :: 0 <= i < |times| ==> Covered(times[i], notes, polls))
    && (held.Some? ==> held.value.server.Some? && NoneLater(times, Time(held.value)))
  }

  function HeldFor(polled: map<NodeId, Sample>, node: NodeId): Option<Sample> {
    if node in polled then Some(polled[node]) else None
  }

  lemma TimesSnoc(emissions: seq<Emission>, e: Emission, node: NodeId)
    ensures TimesIn(emissions + [e], node) == TimesIn(emissions, node) + if e.node == node then [Time(e.sample)] else []
  {
    assert (emissions + [e])[..|emissions|] == emissions;
  }

  lemma OutSnoc(out: seq<Batch>, b: Batch, node: NodeId)
    ensures OutTimes(out + [b], node) == OutTimes(out, node) + BatchTimes(b, node)
  {
    assert (out + [b])[..|out|] == out;
  }

  lemma Append(times: seq<int>, t: int, notes: set<int>, polls: set<int>, more: set<int>, morePolls: set<int>)
    requires InOrder(times, None, notes, polls) && notes <= more && polls <= morePolls
    requires forall i :: 0 <= i < |times| ==> times[i] <= t
    requires Covered(t, more, morePolls)
    ensures InOrder(times + [t], None, more, morePolls)
  {
    forall i | 0 <= i < |times| ensures Covered(times[i], more, morePolls) {
      assert Covered(times[i], notes, polls);
    }
  }

  // What one notification appends to the times of `node`.
  function NotifyAppends(b: Buffer, item: Item, node: NodeId): seq<int> {
    if item.node != node then []
    else if node in b.polled && Older(b.polled[node], item.data) then [Time(b.polled[node]), Time(item.data)]
    else [Time(item.data)]
  }

  lemma NotifyAppendsTimes(b: Buffer, item: Item, node: NodeId)
    ensures TimesIn(Notify(b, item).emitted, node) == TimesIn(b.emitted, node) + NotifyAppends(b, item, node)
  {
    var note := Notified(item.node, item.data);
    if item.node in b.polled && Older(b.polled[item.node], item.data) {
      var released := Polled(item.node, b.polled[item.node]);
      TimesSnoc(b.emitted, released, node);
      TimesSnoc(b.emitted + [released], note, node);
    } else {
      assert b.emitted + [] == b.emitted;
      TimesSnoc(b.emitted, note, node);
    }
  }

  lemma NewerKeepsOrder(times: seq<int>, held: Option<Sample>, data: Sample, notes: set<int>, polls: set<int>)
    requires InOrder(times, held, notes, polls)
    requires data.server.Some? && AtLeast(Time(data), notes + polls)
    requires held.Some? && Older(held.value, data) ==> Time(held.value) <= Time(data)
    ensures InOrder(times + [Time(data)], None, notes + {Time(data)}, polls)
    ensures held.Some? && Older(held.value, data) ==>
              InOrder(times + [Time(held.value), Time(data)], None, notes + {Time(data)}, polls)
  {
    var t := Time(data);
    forall i | 0 <= i < |times| ensures times[i] <= t {
      assert Covered(times[i], notes, polls);
    }
    Append(times, t, notes, polls, notes + {t}, polls);
    if held.Some? && Older(held.value, data) {
      var p := Time(held.value);
      Append(times, p, notes, polls, notes + {t}, polls);
      Append(times + [p], t, notes + {t}, polls, notes + {t}, polls);
      assert times + [p] + [t] == times + [p, t];
    }
  }

  lemma NotifyTimes(b: Buffer, item: Item, node: NodeId, before: seq<int>, notes: set<int>, polls: set<int>)
    requires InOrder(before + TimesIn(b.emitted, node), HeldFor(b.polled, node), notes, polls)
    requires item.node == node ==> item.data.server.Some? && AtLeast(Time(item.data), notes + polls)
    requires ReleaseInOrder(b, item, node)
    ensures var after := Notify(b, item);
            InOrder(before + TimesIn(after.emitted, node), HeldFor(after.polled, node),
                    notes + if item.node == node then {Time(item.data)} else {}, polls)
  {
    var times := before + TimesIn(b.emitted, node);
    NotifyAppendsTimes(b, item, node);
    Regroup(before, TimesIn(b.emitted, node), NotifyAppends(b, item, node));
    if item.node == node {
      NewerKeepsOrder(times, HeldFor(b.polled, node), item.data, notes, polls);
    } else {
      assert times + [] == times && notes + {} == notes;
    }
  }

  lemma Regroup(a: seq<int>, b: seq<int>, c: seq<int>)
    ensures a + (b + c) == (a + b) + c
  {}

  lemma ItemTimesSnoc(items: seq<Item>, node: NodeId)
    requires items != []
    ensures var earlier, item := items[..|items| - 1], items[|items| - 1];
            forall notes: set<int> :: notes + ItemTimes(items, node)
                                   == notes + ItemTimes(earlier, node) + if item.node == node then {Time(item.data)} else {}
  {
    var earlier, item := items[..|items| - 1], items[|items| - 1];
    forall t ensures t in ItemTimes(items, node) <==> t in ItemTimes(earlier, node) || (item.node == node && t == Time(item.data)) {
      if t in ItemTimes(items, node) {
        var i :| 0 <= i < |items| && items[i].node == node && Time(items[i].data) == t;
        assert i < |earlier| ==> earlier[i] == items[i];
      }
    }
  }

  lemma {:induction false} NotifyAllTimes(b: Buffer, items: seq<Item>, node: NodeId, before: seq<int>,
                                          notes: set<int>, polls: set<int>)
    requires b.emitted == [] && InOrder(before, HeldFor(b.polled, node), notes, polls)
    requires AtLeastAll(items, node, notes + polls) && ItemsInOrder(b, items, node)
    ensures var after := NotifyAll(b, items);
            InOrder(before + TimesIn(after.emitted, node), HeldFor(after.polled, node),
                    notes + ItemTimes(items, node), polls)
  {
    if items == [] {
      assert before + [] == before && notes + {} == notes;
    } else {
      var earlier, item := items[..|items| - 1], items[|items| - 1];
      NotifyAllTimes(b, earlier, node, before, notes, polls);
      assert notes + ItemTimes(earlier, node) + polls == notes + polls + ItemTimes(earlier, node);
      NotifyTimes(NotifyAll(b, earlier), item, node, before, notes + ItemTimes(earlier, node), polls);
      ItemTimesSnoc(items, node);
    }
  }

  // ---------------------------------------------------------------- ticks

  lemma FlushedSnoc(out: seq<Batch>, b: Batch, node: NodeId)
    ensures FlushedTimes(out + [b], node)
         == FlushedTimes(out, node) + if b.Flush? && node in b.samples then {Time(b.samples[node])} else {}
  {
    assert (out + [b])[..|out|] == out;
  }

  // Emitting the buffer, and then once more with nothing left in it.
  lemma FlushTimes(s: State, node: NodeId, notes: set<int>)
    requires InOrder(OutTimes(s.out, node), HeldFor(s.polled, node), notes, FlushedTimes(s.out, node))
    ensures var flushed := s.out + [Flush(s.polled)];
            && InOrder(OutTimes(flushed, node), None, notes, FlushedTimes(flushed, node))
            && OutTimes(flushed + [Flush(map[])], node) == OutTimes(flushed, node)
            && FlushedTimes(flushed + [Flush(map[])], node) == FlushedTimes(flushed, node)
  {
    var times, polls := OutTimes(s.out, node), FlushedTimes(s.out, node);
    var flushed := s.out + [Flush(s.polled)];
    OutSnoc(s.out, Flush(s.polled), node);
    OutSnoc(flushed, Flush(map[]), node);
    FlushedSnoc(s.out, Flush(s.polled), node);
    FlushedSnoc(flushed, Flush(map[]), node);
    if node in s.polled {
      Append(times, Time(s.polled[node]), notes, polls, notes, FlushedTimes(flushed, node));
    } else {
      assert times + [] == times;
    }
  }

  // What every timely run whose releases are in order keeps for each node.
  ghost predicate OnTime(s: State, events: seq<Event>, node: NodeId) {
    var times := OutTimes(s.out, node);
    && Nondecreasing(times)
    && (s.running ==> InOrder(times, HeldFor(s.polled, node), NoteTimes(events, node), FlushedTimes(s.out, node)))
  }

  lemma TickOut(batch: set<NodeId>, s: State, reply: Reply, node: NodeId)
    ensures var flushed := s.out + [Flush(s.polled)];
            var t := OnTick(batch, s, reply);
            && (t.out == flushed || t.out == flushed + [Flush(map[])])
            && (t.running ==> t.out == flushed || !s.running)
            && (node in t.polled ==> Stores(s, reply, node) && t.polled[node] == reply.samples[node])
  {
    assert reply.Values? ==> map[] + reply.samples == reply.samples;
  }

  lemma TickOnTime(batch: set<NodeId>, before: seq<Event>, reply: Reply, node: NodeId)
    requires Timely(batch, before + [Tick(reply)], node) && Run(batch, before).running
    requires OnTime(Run(batch, before), before, node)
    ensures OnTime(OnTick(batch, Run(batch, before), reply), before + [Tick(reply)], node)
  {
    var s := Run(batch, before);
    var events := before + [Tick(reply)];
    assert Init(events) == before && events[..|before|] == before;
    assert NoteTimes(events, node) == NoteTimes(before, node);
    FlushTimes(s, node, NoteTimes(before, node));
    TickOut(batch, s, reply, node);
  }

  // ---------------------------------------------------------------- chunks

  // What a chunk adds to the output, as seen for one node.
  lemma ChunkOut(s: State, items: seq<Item>, node: NodeId)
    ensures var emitted := NotifyAll(Buffer(s.quiet, s.polled, []), items).emitted;
            && OutTimes(OnChunk(s, items).out, node) == OutTimes(s.out, node) + TimesIn(emitted, node)
            && FlushedTimes(OnChunk(s, items).out, node) == FlushedTimes(s.out, node)
  {
    var emitted := NotifyAll(Buffer(s.quiet, s.polled, []), items).emitted;
    OutSnoc(s.out, Samples(emitted), node);
    FlushedSnoc(s.out, Samples(emitted), node);
    assert OutTimes(s.out, node) + [] == OutTimes(s.out, node);
  }

  lemma ChunkOnTime(batch: set<NodeId>, before: seq<Event>, items: seq<Item>, node: NodeId)
    requires Timely(batch, before + [Chunk(items)], node) && Run(batch, before).running
    requires OnTime(Run(batch, before), before, node)
    requires ReleasesInOrder(batch, before + [Chunk(items)], node)
    ensures OnTime(OnChunk(Run(batch, before), items), before + [Chunk(items)], node)
  {
    var s := Run(batch, before);
    var events := before + [Chunk(items)];
    assert events[..|before|] == before;
    NotifyAllTimes(Buffer(s.quiet, s.polled, []), items, node, OutTimes(s.out, node),
                   NoteTimes(before, node), FlushedTimes(s.out, node));
    ChunkOut(s, items, node);
  }

  lemma {:induction false} TimelyRunsStayOnTime(batch: set<NodeId>, events: seq<Event>, node: NodeId)
    requires Timely(batch, events, node) && ReleasesInOrder(batch, events, node)
    ensures OnTime(Run(batch, events), events, node)
  {
    if events != [] {
      var before, e := Init(events), Last(events);
      assert events == before + [e];
      TimelyRunsStayOnTime(batch, before, node);
      var s := Run(batch, before);
      if s.running {
        match e
        case Tick(reply) => TickOnTime(batch, before, reply, node);
        case Chunk(items) => ChunkOnTime(batch, before, items, node);
        case End => FlushTimes(s, node, NoteTimes(before, node));
      }
    }
  }

  // ---------------------------------------------------------------- releases out of order

  lemma DecreaseStays(times: seq<int>, more: seq<int>)
    requires !Nondecreasing(times)
    ensures !Nondecreasing(times + more)
  {
    var i, j :| 0 <= i < j < |times| && times[i] > times[j];
    assert (times + more)[i] > (times + more)[j];
  }

  lemma {:induction false} ItemsDecrease(b: Buffer, items: seq<Item>, node: NodeId, before: seq<int>)
    requires !ItemsInOrder(b, items, node)
    ensures !Nondecreasing(before + TimesIn(NotifyAll(b, items).emitted, node))
  {
    var earlier, item := items[..|items| - 1], items[|items| - 1];
    var halfway := NotifyAll(b, earlier);
    var more := NotifyAppends(halfway, item, node);
    NotifyAppendsTimes(halfway, item, node);
    Regroup(before, TimesIn(halfway.emitted, node), more);
    if ItemsInOrder(b, earlier, node) {
      var times := before + TimesIn(halfway.emitted, node);
      assert (times + more)[|times|] > (times + more)[|times| + 1];
    } else {
      ItemsDecrease(b, earlier, node, before);
      DecreaseStays(before + TimesIn(halfway.emitted, node), more);
    }
  }

  // The output only grows.
  lemma StepAppends(batch: set<NodeId>, s: State, e: Event, node: NodeId)
    ensures exists more :: OutTimes(Step(batch, s, e).out, node) == OutTimes(s.out, node) + more
  {
    var times := OutTimes(s.out, node);
    assert times == times + [];
    if s.running {
      var flushed := s.out + [Flush(s.polled)];
      OutSnoc(s.out, Flush(s.polled), node);
      OutSnoc(flushed, Flush(map[]), node);
      var more := BatchTimes(Flush(s.polled), node);
      assert more + [] == more;
      match e
      case Tick(reply) => TickOut(batch, s, reply, node);
      case Chunk(items) => ChunkOut(s, items, node);
      case End =>
    }
  }

  lemma {:induction false} DisorderShows(batch: set<NodeId>, events: seq<Event>, node: NodeId)
    requires !ReleasesInOrder(batch, events, node)
    ensures !Nondecreasing(OutTimes(Run(batch, events).out, node))
  {
    var before, e := Init(events), Last(events);
    var s := Run(batch, before);
    if ReleasesInOrder(batch, before, node) {
      ItemsDecrease(Buffer(s.quiet, s.polled, []), e.items, node, OutTimes(s.out, node));
      ChunkOut(s, e.items, node);
    } else {
      DisorderShows(batch, before, node);
      StepAppends(batch, s, e, node);
      var more :| OutTimes(Step(batch, s, e).out, node) == OutTimes(s.out, node) + more;
      DecreaseStays(OutTimes(s.out, node), more);
    }
  }

  /**
   If the server is timely about a node, its samples come out in time order
   exactly when no notification releases a polled sample with a later server
   time than its own.
   */
  lemma OutputInTimeOrderIff(batch: set<NodeId>, events: seq<Event>, node: NodeId)
    requires Timely(batch, events, node)
    ensures Nondecreasing(OutTimes(Run(batch, events).out, node)) <==> ReleasesInOrder(batch, events, node)
  {
    if ReleasesInOrder(batch, events, node) {
      TimelyRunsStayOnTime(batch, events, node);
    } else {
      DisorderShows(batch, events, node);
    }
  }

  // ---------------------------------------------------------------- server timestamps only

  // No notification of `node` carries a source timestamp.
  predicate NoSources(events: seq<Event>, node: NodeId) {
    forall k :: 0 <= k < |events| && events[k].Chunk? ==> NoSourcesIn(events[k].items, node)
  }

  predicate NoSourcesIn(items: seq<Item>, node: NodeId) {
    forall i :: 0 <= i < |items| && items[i].node == node ==> items[i].data.source.None?
  }

  lemma {:induction false} ServerItemsInOrder(b: Buffer, items: seq<Item>, node: NodeId)
    requires NoSourcesIn(items, node)
    ensures ItemsInOrder(b, items, node)
  {
    if items != [] {
      ServerItemsInOrder(b, items[..|items| - 1], node);
    }
  }

  lemma {:induction false} ServerReleasesInOrder(batch: set<NodeId>, events: seq<Event>, node: NodeId)
    requires NoSources(events, node)
    ensures ReleasesInOrder(batch, events, node)
  {
    if events != [] {
      var before, e := events[..|events| - 1], events[|events| - 1];
      ServerReleasesInOrder(batch, before, node);
      if e.Chunk? {
        var s := Run(batch, before);
        ServerItemsInOrder(Buffer(s.quiet, s.polled, []), e.items, node);
      }
    }
  }

  /** With server timestamps only, a timely server is enough: each node's samples come out in time order. */
  lemma OutputInTimeOrder(batch: set<NodeId>, events: seq<Event>, node: NodeId)
    requires Timely(batch, events, node) && NoSources(events, node)
    ensures Nondecreasing(OutTimes(Run(batch, events).out, node))
  {
    ServerReleasesInOrder(batch, events, node);
    OutputInTimeOrderIff(batch, events, node);
  }

  // ---------------------------------------------------------------- instances

  lemma Extend(batch: set<NodeId>, before: seq<Event>, e: Event, node: NodeId)
    ensures Run(batch, before + [e]) == Step(batch, Run(batch, before), e)
    ensures Timely(batch, before + [e], node)
       <==> Timely(batch, before, node) && TimelyNext(Run(batch, before), before, e, node)
    ensures NoteTimes(before + [e], node) == NoteTimes(before, node) + if e.Chunk? then ItemTimes(e.items, node) else {}
  {
    assert (before + [e])[..|before|] == before;
  }

  lemma OneItem(b: Buffer, item: Item, times: set<int>)
    ensures NotifyAll(b, [item]) == Notify(b, item)
    ensures AtLeastAll([item], item.node, times) <==> item.data.server.Some? && AtLeast(Time(item.data), times)
    ensures ItemTimes([item], item.node) == {Time(item.data)}
  {
    assert [item][..0] == [];
    assert times + ItemTimes([], item.node) == times;
  }

  // The run so far: one tick, which stored `read`.
  lemma PolledOnce(node: NodeId, read: Sample)
    requires read.server.Some?
    ensures var events := [Tick(Values(map[node := read]))];
            var s := Run({node}, events);
            && Timely({node}, events, node) && NoteTimes(events, node) == {}
            && s == State({node}, map[node := read], [Flush(map[])], [{node}], true)
            && OutTimes(s.out, node) == [] && FlushedTimes(s.out, node) == {}
  {
    var e := Tick(Values(map[node := read]));
    Extend({node}, [], e, node);
    assert [] + [e] == [e];
    assert map[node := read].Keys == {node};
    assert map[] + map[node := read] == map[node := read];
    OutSnoc([], Flush(map[]), node);
    FlushedSnoc([], Flush(map[]), node);
  }

  /**
   With source timestamps besides, a timely server is not enough: a value read
   with the later server time but the earlier source time is released before
   the notification.
   */
  lemma SourceTimesCanDisorder(node: NodeId, read: Sample, note: Sample)
    requires read.source.Some? && note.source.Some? && read.source.value < note.source.value
    requires read.server.Some? && note.server.Some?
    ensures var events := [Tick(Values(map[node := read])), Chunk([Item(node, note)])];
            && Timely({node}, events, node)
            && OutTimes(Run({node}, events).out, node) == [Time(read), Time(note)]
  {
    var before := [Tick(Values(map[node := read]))];
    var s := Run({node}, before);
    PolledOnce(node, read);
    Extend({node}, before, Chunk([Item(node, note)]), node);
    assert before + [Chunk([Item(node, note)])] == [before[0], Chunk([Item(node, note)])];
    ChunkOfOne(s, node, note);
  }

  // A chunk of one notification, as seen for its node.
  lemma ChunkOfOne(s: State, node: NodeId, note: Sample)
    ensures var after := OnChunk(s, [Item(node, note)]);
            && OutTimes(after.out, node)
               == OutTimes(s.out, node) + NotifyAppends(Buffer(s.quiet, s.polled, []), Item(node, note), node)
            && FlushedTimes(after.out, node) == FlushedTimes(s.out, node)
            && after.polled == s.polled - {node} && after.quiet == s.quiet - {node} && after.running == s.running
    ensures forall times :: AtLeastAll([Item(node, note)], node, times)
                       <==> note.server.Some? && AtLeast(Time(note), times)
  {
    var b := Buffer(s.quiet, s.polled, []);
    OneItem(b, Item(node, note), {});
    NotifyAppendsTimes(b, Item(node, note), node);
    ChunkOut(s, [Item(node, note)], node);
    forall times ensures AtLeastAll([Item(node, note)], node, times) <==> note.server.Some? && AtLeast(Time(note), times) {
      OneItem(b, Item(node, note), times);
    }
  }

  // The run a little further: a notification has dropped what was read.
  lemma DroppedOnce(node: NodeId, read: Sample, first: Sample)
    requires read.server.Some? && first.server.Some? && !Older(read, first)
    ensures var events := [Tick(Values(map[node := read]))] + [Chunk([Item(node, first)])];
            var s := Run({node}, events);
            && Timely({node}, events, node) && NoteTimes(events, node) == {Time(first)}
            && s.running && s.quiet == {} && s.polled == map[]
            && OutTimes(s.out, node) == [Time(first)] && FlushedTimes(s.out, node) == {}
  {
    var before, note := [Tick(Values(map[node := read]))], Chunk([Item(node, first)]);
    var s := Run({node}, before);
    PolledOnce(node, read);
    Extend({node}, before, note, node);
    ChunkOfOne(s, node, first);
    OneItem(Buffer(s.quiet, s.polled, []), Item(node, first), {});
  }

  // A tick with nothing to read and nothing to flush.
  lemma IdleTick(batch: set<NodeId>, s: State, reply: Reply, node: NodeId)
    requires s.running && s.quiet == {} && s.polled == map[]
    ensures var after := OnTick(batch, s, reply);
            && after.running && after.polled == map[]
            && OutTimes(after.out, node) == OutTimes(s.out, node)
            && FlushedTimes(after.out, node) == FlushedTimes(s.out, node)
  {
    OutSnoc(s.out, Flush(map[]), node);
    FlushedSnoc(s.out, Flush(map[]), node);
  }

  lemma DroppedThenTick(node: NodeId, read: Sample, first: Sample)
    requires read.server.Some? && first.server.Some? && !Older(read, first)
    ensures var events := [Tick(Values(map[node := read]))] + [Chunk([Item(node, first)])] + [Tick(Failed)];
            var s := Run({node}, events);
            && Timely({node}, events, node) && NoteTimes(events, node) == {Time(first)}
            && s.running && s.polled == map[]
            && OutTimes(s.out, node) == [Time(first)] && FlushedTimes(s.out, node) == {}
  {
    var start := [Tick(Values(map[node := read]))] + [Chunk([Item(node, first)])];
    DroppedOnce(node, read, first);
    Extend({node}, start, Tick(Failed), node);
    IdleTick({node}, Run({node}, start), Failed, node);
  }

  /**
   What was read but never came out binds nothing: after a notification has
   dropped the value read, one older than that value is still timely, and the
   order holds.
   */
  lemma DroppedPollsDoNotCount(node: NodeId, read: Sample, first: Sample, second: Sample)
    requires read.server.Some? && first.server.Some? && second.server.Some? && !Older(read, first)
    requires Time(first) <= Time(second) < Time(read)
    ensures var start := [Tick(Values(map[node := read]))] + [Chunk([Item(node, first)])];
            var events := start + [Tick(Failed)] + [Chunk([Item(node, second)])];
            && Timely({node}, events, node)
            && OutTimes(Run({node}, events).out, node) == [Time(first), Time(second)]
  {
    var before := [Tick(Values(map[node := read]))] + [Chunk([Item(node, first)])] + [Tick(Failed)];
    var s := Run({node}, before);
    DroppedThenTick(node, read, first);
    Extend({node}, before, Chunk([Item(node, second)]), node);
    ChunkOfOne(s, node, second);
    assert NotifyAppends(Buffer(s.quiet, s.polled, []), Item(node, second), node) == [Time(second)];
  }
}
