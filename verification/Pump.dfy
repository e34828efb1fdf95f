/**
 The subscription pump of crates/instro-opcua/src/client.rs: notifications are
 passed on as they arrive, quiet nodes are polled on every tick, and polled
 samples wait one tick so that late notifications can supersede them.
 */
module Pump {
  import opened Wrappers

  type NodeId = string

  datatype Sample = Sample(value: string, source: Option<int>, server: Option<int>)

  // How a read ends. `Values` holds the values zipped with the requested
  // nodes; values for any other set of nodes are a length mismatch.
  datatype Reply = Values(samples: map<NodeId, Sample>) | Failed | Disconnected

  datatype Item = Item(node: NodeId, data: Sample)

  // What the loop waits for; `End` is the notification stream closing.
  datatype Event = Tick(reply: Reply) | Chunk(items: seq<Item>) | End

  datatype Emission = Polled(node: NodeId, sample: Sample) | Notified(node: NodeId, sample: Sample)

  // One callback invocation. A drained hash map has no order of its own.
  datatype Batch = Flush(samples: map<NodeId, Sample>) | Samples(emissions: seq<Emission>)

  datatype State = State(
    quiet: set<NodeId>,
    polled: map<NodeId, Sample>,
    out: seq<Batch>,
    requests: seq<set<NodeId>>,
    running: bool)

  // polled_sample_filter: whether the polled sample is older than the notification.
  predicate Older(polled: Sample, data: Sample) {
    || (polled.source.Some? && data.source.Some? && polled.source.value < data.source.value)
    || (polled.server.Some? && data.server.Some? && polled.server.value < data.server.value)
  }

  // ---------------------------------------------------------------- specification

  datatype Buffer = Buffer(quiet: set<NodeId>, polled: map<NodeId, Sample>, emitted: seq<Emission>)

  function Notify(b: Buffer, item: Item): Buffer {
    var released := if item.node in b.polled && Older(b.polled[item.node], item.data)
                    then [Polled(item.node, b.polled[item.node])]
                    else [];
    Buffer(b.quiet - {item.node}, b.polled - {item.node},
           b.emitted + released + [Notified(item.node, item.data)])
  }

  function NotifyAll(b: Buffer, items: seq<Item>): Buffer {
    if items == [] then b else Notify(NotifyAll(b, items[..|items| - 1]), items[|items| - 1])
  }

  function Exit(s: State): State {
    s.(out := s.out + [Flush(s.polled)], polled := map[], running := false)
  }

  function OnTick(batch: set<NodeId>, s: State, reply: Reply): State {
    var flushed := s.(out := s.out + [Flush(s.polled)], polled := map[]);
    if s.quiet == {} then flushed.(quiet := batch)
    else
      var asked := flushed.(requests := s.requests + [s.quiet]);
      if reply.Values? && reply.samples.Keys == s.quiet then asked.(polled := asked.polled + reply.samples, quiet := batch)
      else if reply.Disconnected? then Exit(asked)
      else asked
  }

  function OnChunk(s: State, items: seq<Item>): State {
    var b := NotifyAll(Buffer(s.quiet, s.polled, []), items);
    s.(quiet := b.quiet, polled := b.polled, out := if b.emitted == [] then s.out else s.out + [Samples(b.emitted)])
  }

  function Step(batch: set<NodeId>, s: State, e: Event): State {
    if !s.running then s
    else match e
      case Tick(reply) => OnTick(batch, s, reply)
      case Chunk(items) => OnChunk(s, items)
      case End => Exit(s)
  }

  /** The pump after `events`; a stopped pump hears nothing more. */
  function Run(batch: set<NodeId>, events: seq<Event>): State {
    if events == [] then State(batch, map[], [], [], true)
    else Step(batch, Run(batch, events[..|events| - 1]), events[|events| - 1])
  }

  // ---------------------------------------------------------------- the loop

  method SubscriptionLoop(batch: set<NodeId>, events: seq<Event>)
    returns (quiet: set<NodeId>, polled: map<NodeId, Sample>, out: seq<Batch>, requests: seq<set<NodeId>>, running: bool)
    ensures State(quiet, polled, out, requests, running) == Run(batch, events)
  {
    quiet, polled, out, requests, running := batch, map[], [], [], true;
    var i := 0;
    while i < |events|
      invariant 0 <= i <= |events| && running
      invariant State(quiet, polled, out, requests, running) == Run(batch, events[..i])
    {
      assert events[..i + 1][..i] == events[..i];
      var event := events[i];
      i := i + 1;
      match event {
        case Tick(reply) =>
          out := out + [Flush(polled)];
          polled := map[];
          if quiet != {} {
            requests := requests + [quiet];
            if reply.Disconnected? {
              running := false;
              break;
            }
            if !(reply.Values? && reply.samples.Keys == quiet) {
              continue;
            }
            polled := polled + reply.samples;
          }
          quiet := batch;
        case Chunk(items) =>
          var samples;
          quiet, polled, samples := HandleChunk(quiet, polled, items);
          if samples != [] {
            out := out + [Samples(samples)];
          }
        case End =>
          running := false;
          break;
      }
    }
    if !running {
      out := out + [Flush(polled)];
      polled := map[];
      StaysStopped(batch, events, i);
    } else {
      assert events[..i] == events;
    }
  }

  method HandleChunk(quiet: set<NodeId>, polled: map<NodeId, Sample>, items: seq<Item>)
    returns (quiet': set<NodeId>, polled': map<NodeId, Sample>, samples: seq<Emission>)
    ensures Buffer(quiet', polled', samples) == NotifyAll(Buffer(quiet, polled, []), items)
  {
    quiet', polled', samples := quiet, polled, [];
    var i := 0;
    while i < |items|
      invariant 0 <= i <= |items|
      invariant Buffer(quiet', polled', samples) == NotifyAll(Buffer(quiet, polled, []), items[..i])
    {
      assert items[..i + 1][..i] == items[..i];
      var Item(node, data) := items[i];
      quiet' := quiet' - {node};
      if node in polled' {
        var sample := polled'[node];
        polled' := polled' - {node};
        if Older(sample, data) {
          samples := samples + [Polled(node, sample)];
        }
      }
      samples := samples + [Notified(node, data)];
      i := i + 1;
    }
    assert items[..i] == items;
  }

  lemma {:induction false} StaysStopped(batch: set<NodeId>, events: seq<Event>, k: nat)
    requires k <= |events| && !Run(batch, events[..k]).running
    ensures Run(batch, events) == Run(batch, events[..k])
  {
    if k < |events| {
      var shorter := events[..|events| - 1];
      assert shorter[..k] == events[..k];
      StaysStopped(batch, shorter, k);
    } else {
      assert events[..k] == events;
    }
  }
}
