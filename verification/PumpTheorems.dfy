/**
 What the pump guarantees over whole runs: which nodes are polled, what
 happens to each polled sample, and the order of what comes out.
 */
module PumpTheorems {
  import opened Wrappers
  import opened Pump

  function Init(events: seq<Event>): seq<Event>
    requires events != []
  {
    events[..|events| - 1]
  }

  function Last(events: seq<Event>): Event
    requires events != []
  {
    events[|events| - 1]
  }

  lemma {:induction false} RunningBefore(batch: set<NodeId>, events: seq<Event>, k: nat)
    requires k <= |events| && Run(batch, events).running
    ensures Run(batch, events[..k]).running
  {
    if !Run(batch, events[..k]).running {
      StaysStopped(batch, events, k);
    }
  }

  // ---------------------------------------------------------------- what is polled, what is buffered

  function ItemNodes(items: seq<Item>): set<NodeId> {
    set i | 0 <= i < |items| :: items[i].node
  }

  // The nodes that notified anywhere in `events`.
  function Noted(events: seq<Event>): set<NodeId> {
    if events == [] then {}
    else Noted(events[..|events| - 1]) + match events[|events| - 1]
                                         case Chunk(items) => ItemNodes(items)
                                         case _ => {}
  }

  // A tick that had nothing to read, or read it.
  predicate Completed(batch: set<NodeId>, before: seq<Event>, e: Event) {
    e.Tick? && var quiet := Run(batch, before).quiet;
               quiet == {} || (e.reply.Values? && e.reply.samples.Keys == quiet)
  }

  // Just past the last tick that did not end in a read error; 0 if there is none.
  function Since(batch: set<NodeId>, events: seq<Event>): (k: nat)
    ensures k <= |events|
    ensures k > 0 ==> Completed(batch, events[..k - 1], events[k - 1])
    ensures forall j :: k <= j < |events| ==> !Completed(batch, events[..j], events[j])
  {
    if events == [] then 0
    else
      var before := events[..|events| - 1];
      if Completed(batch, before, events[|events| - 1]) then |events|
      else
        var k := Since(batch, before);
        assert forall j :: 0 <= j < |before| ==> before[..j] == events[..j];
        k
  }

  // Just past the last tick, whatever its outcome; 0 if there is none.
  function SinceTick(events: seq<Event>): (k: nat)
    ensures k <= |events|
    ensures k > 0 ==> events[k - 1].Tick?
    ensures forall j :: k <= j < |events| ==> !events[j].Tick?
  {
    if events == [] then 0
    else if events[|events| - 1].Tick? then |events|
    else SinceTick(events[..|events| - 1])
  }

  // The part of the last tick's reply that no notification has answered yet.
  function Awaiting(batch: set<NodeId>, events: seq<Event>): map<NodeId, Sample> {
    var k := SinceTick(events);
    if k == 0 then map[]
    else
      var quiet := Run(batch, events[..k - 1]).quiet;
      var reply := events[k - 1].reply;
      if quiet != {} && reply.Values? && reply.samples.Keys == quiet then reply.samples - Noted(events[k..])
      else map[]
  }

  lemma {:induction false} NotifyAllRemoves(b: Buffer, items: seq<Item>)
    ensures NotifyAll(b, items).quiet == b.quiet - ItemNodes(items)
    ensures NotifyAll(b, items).polled == b.polled - ItemNodes(items)
  {
    if items == [] {
      assert b.polled - {} == b.polled;
    } else {
      NotifyAllRemoves(b, items[..|items| - 1]);
      assert ItemNodes(items) == ItemNodes(items[..|items| - 1]) + {items[|items| - 1].node};
    }
  }

  lemma NotedSnoc(events: seq<Event>, k: nat)
    requires events != [] && k < |events|
    ensures Noted(events[k..]) == Noted(Init(events)[k..]) + match Last(events)
                                                             case Chunk(items) => ItemNodes(items)
                                                             case _ => {}
  {
    assert events[k..][..|events| - k - 1] == Init(events)[k..];
  }

  /** The quiet set is the batch without every node that notified since the last completed tick. */
  lemma {:induction false} QuietIs(batch: set<NodeId>, events: seq<Event>)
    requires Run(batch, events).running
    ensures Run(batch, events).quiet == batch - Noted(events[Since(batch, events)..])
  {
    if events != [] {
      var before, e := Init(events), Last(events);
      RunningBefore(batch, events, |events| - 1);
      QuietIs(batch, before);
      if Completed(batch, before, e) {
        assert events[|events|..] == [];
      } else {
        NotedSnoc(events, Since(batch, before));
        if e.Chunk? {
          var s := Run(batch, before);
          NotifyAllRemoves(Buffer(s.quiet, s.polled, []), e.items);
        }
      }
    }
  }

  /**
   The request of a tick: exactly the batch nodes with no notification since
   the last tick that did not end in a read error, and none when there are none.
   */
  lemma PolledSet(batch: set<NodeId>, events: seq<Event>, reply: Reply)
    requires Run(batch, events).running
    ensures var quiet := batch - Noted(events[Since(batch, events)..]);
            Run(batch, events + [Tick(reply)]).requests
            == Run(batch, events).requests + if quiet == {} then [] else [quiet]
  {
    QuietIs(batch, events);
    assert Init(events + [Tick(reply)]) == events;
  }

  lemma AwaitingAfterTick(batch: set<NodeId>, events: seq<Event>, reply: Reply)
    requires Run(batch, events).running && OnTick(batch, Run(batch, events), reply).running
    ensures OnTick(batch, Run(batch, events), reply).polled == Awaiting(batch, events + [Tick(reply)])
  {
    var longer := events + [Tick(reply)];
    assert SinceTick(longer) == |longer|;
    assert longer[..|longer| - 1] == events && longer[|longer|..] == [];
    if reply.Values? {
      assert map[] + reply.samples == reply.samples == reply.samples - Noted([]);
    }
  }

  lemma WithoutBoth(m: map<NodeId, Sample>, a: set<NodeId>, b: set<NodeId>)
    ensures m - (a + b) == (m - a) - b
  {}

  lemma AwaitingAfterChunk(batch: set<NodeId>, events: seq<Event>, items: seq<Item>)
    ensures Awaiting(batch, events + [Chunk(items)]) == Awaiting(batch, events) - ItemNodes(items)
  {
    var longer := events + [Chunk(items)];
    var k := SinceTick(events);
    assert Init(longer) == events;
    assert SinceTick(longer) == k;
    NotedSnoc(longer, k);
    if k > 0 {
      assert longer[..k - 1] == events[..k - 1] && longer[k - 1] == events[k - 1];
      var reply := events[k - 1].reply;
      if reply.Values? {
        WithoutBoth(reply.samples, Noted(events[k..]), ItemNodes(items));
      }
    }
  }

  /** The buffer is the last tick's reply without every node that notified since. */
  lemma {:induction false} BufferIs(batch: set<NodeId>, events: seq<Event>)
    requires Run(batch, events).running
    ensures Run(batch, events).polled == Awaiting(batch, events)
  {
    if events != [] {
      var before, e := Init(events), Last(events);
      assert events == before + [e];
      RunningBefore(batch, events, |events| - 1);
      var s := Run(batch, before);
      match e
      case Tick(reply) => AwaitingAfterTick(batch, before, reply);
      case Chunk(items) =>
        BufferIs(batch, before);
        NotifyAllRemoves(Buffer(s.quiet, s.polled, []), items);
        AwaitingAfterChunk(batch, before, items);
      case End =>
    }
  }

  /**
   The fate of a polled sample that no notification answers: the next tick, or
   the exit, emits exactly those, and nothing stays buffered past either.
   */
  lemma UnansweredAreFlushed(batch: set<NodeId>, events: seq<Event>, e: Event)
    requires Run(batch, events).running && !e.Chunk?
    ensures var out := Run(batch, events).out + [Flush(Awaiting(batch, events))];
            var after := Run(batch, events + [e]);
            && after.out == (if e.Tick? && !after.running then out + [Flush(map[])] else out)
            && (after.polled == map[] || (e.Tick? && e.reply.Values? && after.polled == e.reply.samples))
            && (!after.running ==> after.polled == map[])
  {
    BufferIs(batch, events);
    assert Init(events + [e]) == events;
    assert e.Tick? && e.reply.Values? ==> map[] + e.reply.samples == e.reply.samples;
  }

  // ---------------------------------------------------------------- conservation

  // How often `sample` for `node` sits in a map: a map holds one sample a node.
  function Held(m: map<NodeId, Sample>, node: NodeId, sample: Sample): nat {
    if node in m && m[node] == sample then 1 else 0
  }

  // How often successful polls returned `sample` for `node`.
  function Read(batch: set<NodeId>, events: seq<Event>, node: NodeId, sample: Sample): nat {
    if events == [] then 0
    else
      var before := events[..|events| - 1];
      var s := Run(batch, before);
      Read(batch, before, node, sample)
      + match events[|events| - 1]
        case Tick(Values(samples)) =>
          if s.running && s.quiet != {} && samples.Keys == s.quiet then Held(samples, node, sample) else 0
        case _ => 0
  }

  function PolledIn(emissions: seq<Emission>, node: NodeId, sample: Sample): nat {
    if emissions == [] then 0
    else PolledIn(emissions[..|emissions| - 1], node, sample)
         + if emissions[|emissions| - 1] == Polled(node, sample) then 1 else 0
  }

  function PolledInBatch(b: Batch, node: NodeId, sample: Sample): nat {
    match b
    case Flush(samples) => Held(samples, node, sample)
    case Samples(emissions) => PolledIn(emissions, node, sample)
  }

  // How often it was handed to the callback as a polled sample.
  function Emitted(out: seq<Batch>, node: NodeId, sample: Sample): nat {
    if out == [] then 0
    else Emitted(out[..|out| - 1], node, sample) + PolledInBatch(out[|out| - 1], node, sample)
  }

  // How often one notification forgets it: buffered, and not older than the notification.
  function DroppedBy(b: Buffer, item: Item, node: NodeId, sample: Sample): nat {
    if item.node == node && Held(b.polled, node, sample) == 1 && !Older(sample, item.data) then 1 else 0
  }

  function DroppedIn(b: Buffer, items: seq<Item>, node: NodeId, sample: Sample): nat {
    if items == [] then 0
    else
      var earlier := items[..|items| - 1];
      DroppedIn(b, earlier, node, sample) + DroppedBy(NotifyAll(b, earlier), items[|items| - 1], node, sample)
  }

  function Dropped(batch: set<NodeId>, events: seq<Event>, node: NodeId, sample: Sample): nat {
    if events == [] then 0
    else
      var before := events[..|events| - 1];
      var s := Run(batch, before);
      Dropped(batch, before, node, sample)
      + if s.running && events[|events| - 1].Chunk?
        then DroppedIn(Buffer(s.quiet, s.polled, []), events[|events| - 1].items, node, sample)
        else 0
  }

  lemma PolledSnoc(emissions: seq<Emission>, e: Emission, node: NodeId, sample: Sample)
    ensures PolledIn(emissions + [e], node, sample)
         == PolledIn(emissions, node, sample) + if e == Polled(node, sample) then 1 else 0
  {
    assert (emissions + [e])[..|emissions|] == emissions;
  }

  lemma NotifyConserves(b: Buffer, item: Item, node: NodeId, sample: Sample)
    ensures PolledIn(Notify(b, item).emitted, node, sample) + Held(Notify(b, item).polled, node, sample)
            + DroppedBy(b, item, node, sample)
         == PolledIn(b.emitted, node, sample) + Held(b.polled, node, sample)
  {
    var note := Notified(item.node, item.data);
    if item.node in b.polled && Older(b.polled[item.node], item.data) {
      var released := Polled(item.node, b.polled[item.node]);
      PolledSnoc(b.emitted, released, node, sample);
      PolledSnoc(b.emitted + [released], note, node, sample);
    } else {
      assert b.emitted + [] == b.emitted;
      PolledSnoc(b.emitted, note, node, sample);
    }
  }

  lemma {:induction false} NotifyAllConserves(b: Buffer, items: seq<Item>, node: NodeId, sample: Sample)
    ensures PolledIn(NotifyAll(b, items).emitted, node, sample) + Held(NotifyAll(b, items).polled, node, sample)
            + DroppedIn(b, items, node, sample)
         == PolledIn(b.emitted, node, sample) + Held(b.polled, node, sample)
  {
    if items != [] {
      var earlier := items[..|items| - 1];
      NotifyAllConserves(b, earlier, node, sample);
      NotifyConserves(NotifyAll(b, earlier), items[|items| - 1], node, sample);
    }
  }

  lemma EmittedSnoc(out: seq<Batch>, b: Batch, node: NodeId, sample: Sample)
    ensures Emitted(out + [b], node, sample) == Emitted(out, node, sample) + PolledInBatch(b, node, sample)
  {
    assert (out + [b])[..|out|] == out;
  }

  lemma TickConserves(batch: set<NodeId>, s: State, reply: Reply, node: NodeId, sample: Sample)
    requires s.running
    ensures var t := OnTick(batch, s, reply);
            Emitted(t.out, node, sample) + Held(t.polled, node, sample)
            == Emitted(s.out, node, sample) + Held(s.polled, node, sample)
               + if reply.Values? && s.quiet != {} && reply.samples.Keys == s.quiet
                 then Held(reply.samples, node, sample) else 0
  {
    EmittedSnoc(s.out, Flush(s.polled), node, sample);
    EmittedSnoc(s.out + [Flush(s.polled)], Flush(map[]), node, sample);
  }

  lemma ChunkConserves(s: State, items: seq<Item>, node: NodeId, sample: Sample)
    ensures var t := OnChunk(s, items);
            Emitted(t.out, node, sample) + Held(t.polled, node, sample)
            + DroppedIn(Buffer(s.quiet, s.polled, []), items, node, sample)
            == Emitted(s.out, node, sample) + Held(s.polled, node, sample)
  {
    var b := Buffer(s.quiet, s.polled, []);
    NotifyAllConserves(b, items, node, sample);
    EmittedSnoc(s.out, Samples(NotifyAll(b, items).emitted), node, sample);
  }

  /**
   Conservation, over every run and for every node and sample: as often as
   successful polls returned it, it was emitted as polled, or is still buffered,
   or was dropped. A stopped pump buffers nothing.
   */
  lemma {:induction false} PolledSamplesAreConserved(batch: set<NodeId>, events: seq<Event>, node: NodeId, sample: Sample)
    ensures var s := Run(batch, events);
            && Read(batch, events, node, sample)
            == Emitted(s.out, node, sample) + Held(s.polled, node, sample) + Dropped(batch, events, node, sample)
            && (!s.running ==> s.polled == map[])
  {
    if events != [] {
      var before, e := Init(events), Last(events);
      PolledSamplesAreConserved(batch, before, node, sample);
      var s := Run(batch, before);
      if s.running {
        match e
        case Tick(reply) => TickConserves(batch, s, reply, node, sample);
        case Chunk(items) => ChunkConserves(s, items, node, sample);
        case End => EmittedSnoc(s.out, Flush(s.polled), node, sample);
      }
    }
  }

  // ---------------------------------------------------------------- notifications

  // What the pump heard: the items of every chunk that found it running.
  function Heard(batch: set<NodeId>, events: seq<Event>): seq<Item> {
    if events == [] then []
    else
      var before := events[..|events| - 1];
      Heard(batch, before) + if Run(batch, before).running && events[|events| - 1].Chunk?
                             then events[|events| - 1].items
                             else []
  }

  function NotesIn(emissions: seq<Emission>): seq<Item> {
    if emissions == [] then []
    else
      var last := emissions[|emissions| - 1];
      NotesIn(emissions[..|emissions| - 1]) + if last.Notified? then [Item(last.node, last.sample)] else []
  }

  function NotesOut(out: seq<Batch>): seq<Item> {
    if out == [] then []
    else
      var last := out[|out| - 1];
      NotesOut(out[..|out| - 1]) + if last.Samples? then NotesIn(last.emissions) else []
  }

  // A polled sample sits right before a newer notification of the same node.
  ghost predicate ReleasedAt(emissions: seq<Emission>, i: nat)
    requires i < |emissions|
  {
    emissions[i].Polled? ==>
      && i + 1 < |emissions|
      && emissions[i + 1].Notified?
      && emissions[i + 1].node == emissions[i].node
      && (|| Before(emissions[i].sample.source, emissions[i + 1].sample.source)
          || Before(emissions[i].sample.server, emissions[i + 1].sample.server))
  }

  ghost predicate Released(emissions: seq<Emission>) {
    forall i :: 0 <= i < |emissions| ==> ReleasedAt(emissions, i)
  }

  lemma NotesInSnoc(emissions: seq<Emission>, e: Emission)
    ensures NotesIn(emissions + [e]) == NotesIn(emissions) + if e.Notified? then [Item(e.node, e.sample)] else []
  {
    assert (emissions + [e])[..|emissions|] == emissions;
  }

  lemma NotifyKeepsNotes(b: Buffer, item: Item)
    ensures NotesIn(Notify(b, item).emitted) == NotesIn(b.emitted) + [item]
  {
    var note := Notified(item.node, item.data);
    if item.node in b.polled && Older(b.polled[item.node], item.data) {
      var released := Polled(item.node, b.polled[item.node]);
      NotesInSnoc(b.emitted, released);
      NotesInSnoc(b.emitted + [released], note);
      assert NotesIn(b.emitted) + [] == NotesIn(b.emitted);
    } else {
      assert b.emitted + [] == b.emitted;
      NotesInSnoc(b.emitted, note);
    }
  }

  // Both times are there, and the first is strictly earlier.
  predicate Before(a: Option<int>, b: Option<int>) {
    a.Some? && b.Some? && a.value < b.value
  }

  /**
   What one notification of a run emits: the sample read for its node, if that
   still awaits one, comes out before it exactly when its source time or its
   server time is strictly earlier; otherwise the notification alone does, and
   either way the node awaits nothing more.
   */
  lemma ReleasedIff(batch: set<NodeId>, events: seq<Event>, items: seq<Item>, item: Item)
    requires Run(batch, events).running
    ensures var waiting := Awaiting(batch, events) - ItemNodes(items);
            var earlier := Run(batch, events + [Chunk(items)]);
            var after := Run(batch, events + [Chunk(items + [item])]);
            && earlier.polled == waiting && after.polled == waiting - {item.node}
            && Emissions(after.out)
               == Emissions(earlier.out)
                  + (if item.node in waiting && (|| Before(waiting[item.node].source, item.data.source)
                                                 || Before(waiting[item.node].server, item.data.server))
                     then [Polled(item.node, waiting[item.node])] else [])
                  + [Notified(item.node, item.data)]
  {
    var s := Run(batch, events);
    var b := Buffer(s.quiet, s.polled, []);
    BufferIs(batch, events);
    NotifyAllRemoves(b, items);
    assert (events + [Chunk(items)])[..|events|] == events;
    assert (events + [Chunk(items + [item])])[..|events|] == events;
    assert (items + [item])[..|items|] == items;
    ChunkEmits(s, items);
    ChunkEmits(s, items + [item]);
    NotifyEmits(NotifyAll(b, items), item, Emissions(s.out));
  }

  // Everything emitted by chunks, in order.
  function Emissions(out: seq<Batch>): seq<Emission> {
    if out == [] then []
    else Emissions(out[..|out| - 1]) + if out[|out| - 1].Samples? then out[|out| - 1].emissions else []
  }

  lemma ChunkEmits(s: State, items: seq<Item>)
    ensures Emissions(OnChunk(s, items).out) == Emissions(s.out) + NotifyAll(Buffer(s.quiet, s.polled, []), items).emitted
  {
    var emitted := NotifyAll(Buffer(s.quiet, s.polled, []), items).emitted;
    assert (s.out + [Samples(emitted)])[..|s.out|] == s.out;
    assert Emissions(s.out) + [] == Emissions(s.out);
  }

  lemma NotifyEmits(b: Buffer, item: Item, before: seq<Emission>)
    ensures before + Notify(b, item).emitted
         == before + b.emitted
            + (if item.node in b.polled && (|| Before(b.polled[item.node].source, item.data.source)
                                            || Before(b.polled[item.node].server, item.data.server))
               then [Polled(item.node, b.polled[item.node])] else [])
            + [Notified(item.node, item.data)]
  {}

  lemma NotifyKeepsReleased(b: Buffer, item: Item)
    requires Released(b.emitted)
    ensures Released(Notify(b, item).emitted)
  {
    var after := Notify(b, item).emitted;
    forall i | 0 <= i < |after| ensures ReleasedAt(after, i) {
      if i < |b.emitted| {
        assert ReleasedAt(b.emitted, i);
      }
    }
  }

  lemma {:induction false} NotifyAllOrder(b: Buffer, items: seq<Item>)
    requires b.emitted == []
    ensures NotesIn(NotifyAll(b, items).emitted) == items
    ensures Released(NotifyAll(b, items).emitted)
  {
    if items != [] {
      var earlier, item := items[..|items| - 1], items[|items| - 1];
      NotifyAllOrder(b, earlier);
      NotifyKeepsNotes(NotifyAll(b, earlier), item);
      NotifyKeepsReleased(NotifyAll(b, earlier), item);
    }
  }

  lemma StepNotes(batch: set<NodeId>, s: State, e: Event)
    requires s.running
    ensures NotesOut(Step(batch, s, e).out) == NotesOut(s.out) + if e.Chunk? then e.items else []
  {
    match e
    case Chunk(items) =>
      var b := Buffer(s.quiet, s.polled, []);
      NotifyAllOrder(b, items);
      NotesSnoc(s.out, Samples(NotifyAll(b, items).emitted));
    case _ =>
      NotesSnoc(s.out, Flush(s.polled));
      NotesSnoc(s.out + [Flush(s.polled)], Flush(map[]));
  }

  /** The notifications in the output are exactly the ones heard, in arrival order. */
  lemma {:induction false} NotificationsInOrder(batch: set<NodeId>, events: seq<Event>)
    ensures NotesOut(Run(batch, events).out) == Heard(batch, events)
  {
    if events != [] {
      var before, e := Init(events), Last(events);
      NotificationsInOrder(batch, before);
      if Run(batch, before).running {
        StepNotes(batch, Run(batch, before), e);
      }
    }
  }

  lemma NotesSnoc(out: seq<Batch>, b: Batch)
    ensures NotesOut(out + [b]) == NotesOut(out) + if b.Samples? then NotesIn(b.emissions) else []
  {
    assert (out + [b])[..|out|] == out;
  }

  /** Wherever a notification released a polled sample, the two are adjacent and in time order. */
  lemma {:induction false} ReleasedBeforeNewer(batch: set<NodeId>, events: seq<Event>)
    ensures forall b :: b in Run(batch, events).out && b.Samples? ==> Released(b.emissions)
  {
    if events != [] {
      var before, e := Init(events), Last(events);
      ReleasedBeforeNewer(batch, before);
      var s := Run(batch, before);
      if e.Chunk? {
        NotifyAllOrder(Buffer(s.quiet, s.polled, []), e.items);
      }
    }
  }
}
