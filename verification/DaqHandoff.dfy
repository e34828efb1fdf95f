/**
 The hand-off of whole acquisitions from the background daemon to waiting
 readers (instro/daq/daq.py), as steps of threads sharing one condition.
 */
module DaqHandoff {
  import opened Wrappers

  type Acquisition = seq<string>

  datatype Thread = Daemon | ReaderThread(id: nat)

  datatype DaemonPc =
    | Fetching
    | Fetched(batch: Acquisition)    // waiting for the lock
    | Storing(batch: Acquisition)    // lock held, nothing assigned yet
    | Stored(batch: Acquisition)     // lock held, acquisition assigned, count not yet

  datatype ReaderPc =
    | Outside
    | Entered                        // lock held
    | Waiting(seen: nat)             // lock given up
    | Awake(seen: nat)               // lock held again
    | Returned(seen: nat, batch: Acquisition, number: nat)
    | Raised(seen: nat, number: nat)

  // `published` is the history of counted acquisitions; the rest is the shared state.
  datatype State = State(
    lock: Option<Thread>,
    acquisition: Acquisition,
    count: nat,
    daemon: DaemonPc,
    alive: bool,
    readers: map<nat, ReaderPc>,
    published: seq<Acquisition>)

  datatype Action =
    | Fetch(batch: Acquisition)
    | DaemonLocks
    | Store
    | CountAndRelease
    | DaemonStops
    | Enter(id: nat)
    | Look(id: nat)                  // remember the count, then wait unless the daemon is gone
    | Wake(id: nat, timedOut: bool)  // notified, spurious, or out of time
    | Finish(id: nat)

  function Start(readers: set<nat>): State {
    State(None, [], 0, Fetching, true, map r | r in readers :: Outside, [])
  }

  predicate Enabled(s: State, a: Action) {
    match a
    case Fetch(_) => s.alive && s.daemon.Fetching?
    case DaemonLocks => s.daemon.Fetched? && s.lock.None?
    case Store => s.daemon.Storing?
    case CountAndRelease => s.daemon.Stored?
    case DaemonStops => s.daemon.Fetching?
    case Enter(id) => id in s.readers && s.readers[id].Outside? && s.lock.None?
    case Look(id) => id in s.readers && s.readers[id].Entered?
    case Wake(id, _) => id in s.readers && s.readers[id].Waiting? && s.lock.None?
    case Finish(id) => id in s.readers && s.readers[id].Awake?
  }

  function Step(s: State, a: Action): State {
    if !Enabled(s, a) then s
    else match a
      case Fetch(batch) => s.(daemon := Fetched(batch))
      case DaemonLocks => s.(daemon := Storing(s.daemon.batch), lock := Some(Daemon))
      case Store => s.(daemon := Stored(s.daemon.batch), acquisition := s.daemon.batch)
      case CountAndRelease =>
        s.(daemon := Fetching, count := s.count + 1, lock := None, published := s.published + [s.daemon.batch])
      case DaemonStops => s.(alive := false)
      case Enter(id) => s.(readers := s.readers[id := Entered], lock := Some(ReaderThread(id)))
      case Look(id) =>
        if s.alive then s.(readers := s.readers[id := Waiting(s.count)], lock := None)
        else s.(readers := s.readers[id := Awake(s.count)])
      case Wake(id, timedOut) =>
        var seen := s.readers[id].seen;
        if s.count > seen || !s.alive || timedOut then
          s.(readers := s.readers[id := Awake(seen)], lock := Some(ReaderThread(id)))
        else s
      case Finish(id) =>
        var seen := s.readers[id].seen;
        s.(lock := None,
           readers := s.readers[id := if s.count == seen then Raised(seen, s.count)
                                      else Returned(seen, s.acquisition, s.count)])
  }

  function Run(s: State, actions: seq<Action>): State {
    if actions == [] then s else Step(Run(s, actions[..|actions| - 1]), actions[|actions| - 1])
  }

  // ---------------------------------------------------------------- invariant

  predicate HoldsLock(pc: ReaderPc) {
    pc.Entered? || pc.Awake?
  }

  predicate ReaderOk(s: State, pc: ReaderPc) {
    match pc
    case Outside | Entered => true
    case Waiting(seen) => seen <= |s.published|
    case Awake(seen) => seen <= |s.published|
    case Returned(seen, batch, number) => seen < number <= |s.published| && batch == s.published[number - 1]
    case Raised(seen, number) => seen == number <= |s.published|
  }

  ghost predicate Consistent(s: State) {
    && s.count == |s.published|
    && (if s.daemon.Stored? then s.acquisition == s.daemon.batch
        else s.count > 0 ==> s.acquisition == s.published[s.count - 1])
    && (s.lock == Some(Daemon) <==> s.daemon.Storing? || s.daemon.Stored?)
    && (forall r :: r in s.readers ==> (HoldsLock(s.readers[r]) <==> s.lock == Some(ReaderThread(r))))
    && (forall r :: r in s.readers ==> ReaderOk(s, s.readers[r]))
  }

  lemma StepKeepsConsistent(s: State, a: Action)
    requires Consistent(s)
    ensures Consistent(Step(s, a))
  {
    if Enabled(s, a) && a.CountAndRelease? {
      var t := Step(s, a);
      forall r | r in t.readers ensures ReaderOk(t, t.readers[r]) {
        assert ReaderOk(s, s.readers[r]);
      }
    }
  }

  lemma {:induction false} RunsStayConsistent(readers: set<nat>, actions: seq<Action>)
    ensures Consistent(Run(Start(readers), actions))
  {
    if actions != [] {
      RunsStayConsistent(readers, actions[..|actions| - 1]);
      StepKeepsConsistent(Run(Start(readers), actions[..|actions| - 1]), actions[|actions| - 1]);
    }
  }

  /**
   Under every interleaving: a reader that returned holds one whole published
   acquisition, numbered past the count it saw when it began to wait, and a
   reader that raised did so with nothing published since.
   */
  lemma ReadersGetWholeAcquisitions(readers: set<nat>, actions: seq<Action>, id: nat)
    requires id in Run(Start(readers), actions).readers
    ensures var s := Run(Start(readers), actions);
            match s.readers[id]
            case Returned(seen, batch, number) => seen < number <= |s.published| && batch == s.published[number - 1]
            case Raised(seen, number) => number == seen
            case _ => true
  {
    RunsStayConsistent(readers, actions);
    assert ReaderOk(Run(Start(readers), actions), Run(Start(readers), actions).readers[id]);
  }

  /**
   Waking: in any run, a waiting reader that finds the lock free goes on exactly
   if something was published since it looked, the daemon is gone or its time
   is up, and otherwise keeps waiting.
   */
  lemma WakeOutcome(readers: set<nat>, actions: seq<Action>, id: nat, timedOut: bool)
    requires var s := Run(Start(readers), actions); id in s.readers && s.readers[id].Waiting? && s.lock.None?
    ensures var s := Run(Start(readers), actions);
            var seen := s.readers[id].seen;
            var after := Step(s, Wake(id, timedOut));
            if |s.published| > seen || !s.alive || timedOut
            then after.readers == s.readers[id := Awake(seen)] && after.lock == Some(ReaderThread(id))
            else after == s
  {
    RunsStayConsistent(readers, actions);
  }

  /**
   Looking: a reader that finds the daemon alive remembers the count and gives
   up the lock to wait; once the daemon has stopped it raises at once.
   */
  lemma LookOutcome(readers: set<nat>, actions: seq<Action>, id: nat)
    requires Enabled(Run(Start(readers), actions), Look(id))
    ensures var s := Run(Start(readers), actions);
            var stopped := Step(s, DaemonStops);
            && (s.alive ==> && Step(s, Look(id)).readers == s.readers[id := Waiting(|s.published|)]
                            && Step(s, Look(id)).lock == None)
            && (s.daemon.Fetching? ==>
                  && !Enabled(stopped, Fetch([]))
                  && id in stopped.readers
                  && Step(Step(stopped, Look(id)), Finish(id)).readers
                     == s.readers[id := Raised(|s.published|, |s.published|)])
  {
    RunsStayConsistent(readers, actions);
  }

  /**
   Nobody is left holding the lock: in any run whoever has it can move, and one
   or two moves free it, the acquisition counted or the reader waiting or done.
   */
  lemma HolderMoves(readers: set<nat>, actions: seq<Action>)
    ensures var s := Run(Start(readers), actions);
            match s.lock
            case None => true
            case Some(Daemon) =>
              var stored := if s.daemon.Storing? then Step(s, Store) else s;
              Enabled(stored, CountAndRelease) && Step(stored, CountAndRelease).lock == None
              && Step(stored, CountAndRelease).count == s.count + 1
            case Some(ReaderThread(id)) =>
              id in s.readers ==>
                var looked := if s.readers[id].Entered? then Step(s, Look(id)) else s;
                looked.lock == None || (Enabled(looked, Finish(id)) && Step(looked, Finish(id)).lock == None)
  {
    RunsStayConsistent(readers, actions);
  }

  /** And a free lock can be had: by a daemon with a batch, a reader outside, a reader waiting. */
  lemma FreeLockCanBeTaken(readers: set<nat>, actions: seq<Action>, id: nat)
    requires Run(Start(readers), actions).lock == None && id in readers
    ensures var s := Run(Start(readers), actions);
            && (s.daemon.Fetching? || Step(s, DaemonLocks).lock == Some(Daemon))
            && id in s.readers
            && (s.readers[id].Outside? ==> Step(s, Enter(id)).lock == Some(ReaderThread(id)))
            && (s.readers[id].Waiting? ==> Step(s, Wake(id, true)).lock == Some(ReaderThread(id)))
  {
    RunsStayConsistent(readers, actions);
    ReadersStay(readers, actions);
  }

  lemma {:induction false} ReadersStay(readers: set<nat>, actions: seq<Action>)
    ensures Run(Start(readers), actions).readers.Keys == readers
  {
    if actions != [] {
      ReadersStay(readers, actions[..|actions| - 1]);
    }
  }

  // The reader has looked, and the count it remembers is `n`.
  predicate HasSeen(pc: ReaderPc, n: nat) {
    (pc.Waiting? || pc.Awake? || pc.Returned? || pc.Raised?) && pc.seen == n
  }

  lemma {:induction false} SeenStays(s: State, actions: seq<Action>, id: nat)
    requires id in s.readers && HasSeen(s.readers[id], |s.published|)
    ensures var t := Run(s, actions);
            && id in t.readers && HasSeen(t.readers[id], |s.published|)
            && |t.published| >= |s.published| && t.published[..|s.published|] == s.published
  {
    if actions != [] {
      SeenStays(s, actions[..|actions| - 1], id);
    }
  }

  /**
   How a wait ends, for every run: `between` is what happens from the moment
   the reader looks at the count until it is about to finish, and `news` the
   acquisitions published meanwhile. It raises exactly if there were none,
   otherwise returns the latest; and that is the next one after it looked
   exactly if there was just one.
   */
  lemma FinishOutcome(readers: set<nat>, before: seq<Action>, id: nat, between: seq<Action>)
    requires Enabled(Run(Start(readers), before), Look(id))
    requires Enabled(Run(Start(readers), before + [Look(id)] + between), Finish(id))
    ensures var looked := Run(Start(readers), before);
            var s := Run(Start(readers), before + [Look(id)] + between);
            var done := Step(s, Finish(id)).readers[id];
            && |s.published| >= |looked.published| && s.published[..|looked.published|] == looked.published
            && var news := s.published[|looked.published|..];
               && (done.Raised? <==> news == [])
               && (done.Returned? <==> news != [])
               && (news != [] ==> && done == Returned(looked.count, news[|news| - 1], looked.count + |news|)
                                  && (done.number == looked.count + 1 <==> |news| == 1))
  {
    var looked := Run(Start(readers), before);
    var s := Run(Start(readers), before + [Look(id)] + between);
    RunsStayConsistent(readers, before);
    RunsStayConsistent(readers, before + [Look(id)] + between);
    RunAppends(Start(readers), before + [Look(id)], between);
    RunAppends(Start(readers), before, [Look(id)]);
    RunOne(looked, Look(id));
    SeenStays(Step(looked, Look(id)), between, id);
  }

  lemma RunOne(s: State, x: Action)
    ensures Run(s, [x]) == Step(s, x)
  {
    assert [x][..0] == [];
    assert Run(s, []) == s;
  }

  lemma {:induction false} RunAppends(s: State, a: seq<Action>, b: seq<Action>)
    ensures Run(s, a + b) == Run(Run(s, a), b)
  {
    if b == [] {
      assert a + b == a;
    } else {
      assert (a + b)[..|a + b| - 1] == a + b[..|b| - 1];
      RunAppends(s, a, b[..|b| - 1]);
    }
  }

  lemma RunTwo(s: State, x: Action, y: Action)
    ensures Run(s, [x, y]) == Step(Step(s, x), y)
  {
    assert [x] + [y] == [x, y];
    RunAppends(s, [x], [y]);
    RunOne(s, x);
    RunOne(Step(s, x), y);
  }

  function Publish(batch: Acquisition): seq<Action> {
    [Fetch(batch), DaemonLocks] + [Store, CountAndRelease]
  }

  // An undisturbed cycle of the daemon.
  lemma PublishRuns(s: State, batch: Acquisition)
    requires s.alive && s.daemon.Fetching? && s.lock.None?
    ensures Run(s, Publish(batch))
         == s.(acquisition := batch, count := s.count + 1, published := s.published + [batch])
  {
    RunAppends(s, [Fetch(batch), DaemonLocks], [Store, CountAndRelease]);
    RunTwo(s, Fetch(batch), DaemonLocks);
    RunTwo(Run(s, [Fetch(batch), DaemonLocks]), Store, CountAndRelease);
  }

  /**
   Such a run from the start: two cycles pass before a waiting reader gets the
   lock, and it returns the second acquisition, not the next one.
   */
  lemma ReaderMaySkip(id: nat, first: Acquisition, second: Acquisition)
    ensures var actions := [Enter(id), Look(id)] + (Publish(first) + Publish(second)) + [Wake(id, false), Finish(id)];
            && id in Run(Start({id}), actions).readers
            && Run(Start({id}), actions).readers[id] == Returned(0, second, 2)
            && Run(Start({id}), actions).published == [first, second]
  {
    var start, wait := Start({id}), [Enter(id), Look(id)];
    var cycles := Publish(first) + Publish(second);
    var waiting := Run(start, wait);
    RunAppends(start, wait + cycles, [Wake(id, false), Finish(id)]);
    RunAppends(start, wait, cycles);
    RunTwo(start, Enter(id), Look(id));
    RunAppends(waiting, Publish(first), Publish(second));
    PublishRuns(waiting, first);
    PublishRuns(Run(waiting, Publish(first)), second);
    RunTwo(Run(waiting, cycles), Wake(id, false), Finish(id));
  }
}
