/**
 The simulator's own objects: channels whose fields the handlers assign, and
 the supply that dispatches to them. Each handler is proved to do what
 Psu.Execute says of the whole supply.
 */
module PsuDevice {
  import opened Wrappers
  import opened Psu
  import opened PsuTheorems

  // The simulator's scalar attributes, grouped by who writes them: handlers
  // assign `settings`, protection assigns `protection`, solving assigns `readings`.
  class SimulatedChannel {
    const id: int
    var settings: Settings
    var load: Load
    var output: bool
    var protection: Protection
    var readings: Readings

    function State(): Channel
      reads this
    {
      Channel(id, settings, load, output, protection, readings)
    }

    constructor (id: int, load: Load)
      ensures State() == NewChannel(id, load)
    {
      this.id := id;
      this.load := load;
      settings := Settings(DEFAULT_VOLTAGE_MAX, DEFAULT_CURRENT_MAX, 0.0, 0.0,
                           DEFAULT_VOLTAGE_MAX, false, DEFAULT_CURRENT_MAX, false, false);
      output := false;
      protection := UNTRIPPED;
      readings := IDLE;
    }

    method Reboot()
      modifies this
      ensures State() == Rebooted(old(State()))
    {
      settings := Settings(settings.voltageMax, settings.currentMax, 0.0, 0.0,
                           settings.voltageMax, false, settings.currentMax, false, settings.remoteSense);
      output := false;
      protection := UNTRIPPED;
      readings := IDLE;
    }

    method UpdateVoltageSource()
      modifies this`readings
      ensures readings == Solve(settings, load)
    {
      var demand := Demand(settings, load);
      if demand.Some? && demand.value <= settings.limit {
        var drop := demand.value * load.probe;
        readings := readings.(mode := CV, current := demand.value);
        if settings.remoteSense {
          readings := readings.(loadVoltage := settings.setpoint);
          readings := readings.(terminalVoltage := settings.setpoint + drop);
        } else {
          readings := readings.(terminalVoltage := settings.setpoint);
          readings := readings.(loadVoltage := settings.setpoint - drop);
        }
      } else {
        readings := readings.(mode := CC, current := settings.limit);
        if load.resistance.Ohms? {
          readings := readings.(loadVoltage := readings.current * load.resistance.value + load.emf);
          readings := readings.(terminalVoltage := readings.loadVoltage + readings.current * load.probe);
        } else {
          readings := readings.(loadVoltage := 0.0, terminalVoltage := 0.0);
        }
      }
    }

    method Update() returns (trips: seq<ScpiError>)
      modifies this`readings, this`output, this`protection
      ensures (State(), trips) == Updated(old(State()))
    {
      trips := [];
      if !output || protection.latched {
        readings := IDLE;
        return;
      }
      UpdateVoltageSource();
      if settings.ovpOn && Sensed(settings, readings) > settings.ovpLevel {
        protection := protection.(latched := true, ovTripped := true);
        output := false;
        trips := [OvervoltageTripped];
        readings := IDLE;
      } else if settings.ocpOn && Abs(readings.current) > settings.ocpLevel {
        protection := protection.(latched := true, ocTripped := true);
        output := false;
        trips := [OvercurrentTripped];
        readings := IDLE;
      }
    }
  }

  class SimulatedPsu {
    var channels: seq<SimulatedChannel>
    var errors: seq<ScpiError>

    ghost predicate Valid()
      reads this
    {
      forall i, j :: 0 <= i < j < |channels| ==> channels[i] != channels[j]
    }

    function States(): seq<Channel>
      reads this, channels
    {
      seq(|channels|, i requires 0 <= i < |channels| reads this, channels => channels[i].State())
    }

    function State(): Supply
      reads this, channels
    {
      Supply(States(), errors)
    }

    constructor (channels: seq<SimulatedChannel>)
      requires forall i, j :: 0 <= i < j < |channels| ==> channels[i] != channels[j]
      ensures Valid() && this.channels == channels && errors == []
    {
      this.channels := channels;
      errors := [];
    }

    method PushError(e: ScpiError)
      modifies this`errors
      ensures State() == Push(old(State()), e)
    {
      errors := errors + [e];
    }

    method FindChannel(id: int) returns (k: nat)
      ensures k == Find(States(), id)
    {
      k := 0;
      assert States()[0..] == States();
      while k < |channels| && channels[k].id != id
        invariant k <= |channels|
        invariant Find(States(), id) == k + Find(States()[k..], id)
      {
        assert States()[k..][1..] == States()[k + 1..];
        k := k + 1;
      }
    }

    method UpdateAt(i: nat)
      requires Valid() && i < |channels|
      modifies this`errors, channels[i]
      ensures State() == UpdatedAt(old(State()), i)
    {
      var trips := channels[i].Update();
      errors := errors + trips;
    }

    method UpdateChannels()
      requires Valid()
      modifies this`errors, channels
      ensures State() == UpdateAll(old(State()))
    {
      UpdatesAll(State());
      var i := 0;
      while i < |channels|
        invariant i <= |channels|
        invariant UpdateFrom(State(), i) == UpdateAll(old(State()))
      {
        UpdateAt(i);
        i := i + 1;
      }
    }

    // Common to the handlers: the channel must exist and a parameter must be given.
    method RequireChannel(id: int) returns (k: nat)
      modifies this`errors
      ensures k == Find(old(States()), id) <= |channels|
      ensures State() == if k == |channels| then Push(old(State()), HeaderSuffixOutOfRange) else old(State())
    {
      k := FindChannel(id);
      if k == |channels| {
        PushError(HeaderSuffixOutOfRange);
      }
    }

    method Require(id: int, args: seq<Token>, ghost action: Action) returns (k: nat, ok: bool)
      requires (action.Adjust? || action.SetOutput?) && action.args == args
      modifies this`errors
      ensures States() == old(States()) && k == Find(States(), id)
      ensures ok ==> k < |channels| && args != [] && errors == old(errors)
      ensures !ok ==> State() == Execute(old(State()), ToChannel(id, action))
    {
      ghost var was := State();
      k := RequireChannel(id);
      ok := k < |channels| && args != [];
      if k < |channels| && args == [] {
        PushError(MissingParameter);
      }
      assert States() == was.channels;
    }

    // A handler's refusal.
    method Reject(e: ScpiError, k: nat, ghost id: int, ghost action: Action)
      requires IsHandled(action) && k == Find(States(), id) < |channels|
      requires Handle(States()[k], action) == Err(e)
      modifies this`errors
      ensures State() == Execute(old(State()), ToChannel(id, action))
    {
      ghost var was := State();
      PushError(e);
      assert States() == was.channels;
    }

    // The end of an accepted handler: channel `k` has been edited, nothing else has.
    method Commit(k: nat, ghost was: Supply, ghost id: int, ghost action: Action)
      requires Valid() && |channels| == |was.channels| && errors == was.errors
      requires IsHandled(action) && k == Find(was.channels, id) < |channels|
      requires Handle(was.channels[k], action) == Ok(channels[k].State())
      requires forall j :: 0 <= j < |channels| && j != k ==> channels[j].State() == was.channels[j]
      modifies this`errors, channels
      ensures State() == Execute(was, ToChannel(id, action))
    {
      assert States() == was.channels[k := channels[k].State()];
      UpdateChannels();
    }

    method SetVoltage(id: int, args: seq<Token>)
      requires Valid()
      modifies this`errors, channels
      ensures State() == Execute(old(State()), ToChannel(id, Adjust(Voltage, args)))
    {
      ghost var was, action := State(), Adjust(Voltage, args);
      var k, ok := Require(id, args, action);
      if !ok {
        return;
      }
      var ch := channels[k];
      match ParseRanged(args[0], CHANNEL_MIN, ch.settings.voltageMax) {
        case Err(e) => Reject(e, k, id, action);
        case Ok(voltage) =>
          if voltage > ch.settings.ovpLevel {
            Reject(PvAboveOvp, k, id, action);
          } else {
            ch.settings := ch.settings.(setpoint := voltage);
            Commit(k, was, id, action);
          }
      }
    }

    method SetCurrent(id: int, args: seq<Token>)
      requires Valid()
      modifies this`errors, channels
      ensures State() == Execute(old(State()), ToChannel(id, Adjust(CurrentLimit, args)))
    {
      ghost var was, action := State(), Adjust(CurrentLimit, args);
      var k, ok := Require(id, args, action);
      if !ok {
        return;
      }
      var ch := channels[k];
      match ParseRanged(args[0], CHANNEL_MIN, ch.settings.currentMax) {
        case Err(e) => Reject(e, k, id, action);
        case Ok(limit) =>
          if limit > ch.settings.ocpLevel {
            Reject(PcAboveOcp, k, id, action);
          } else {
            ch.settings := ch.settings.(limit := limit);
            Commit(k, was, id, action);
          }
      }
    }

    method SetOcpLevel(id: int, args: seq<Token>)
      requires Valid()
      modifies this`errors, channels
      ensures State() == Execute(old(State()), ToChannel(id, Adjust(OcpLevel, args)))
    {
      ghost var was, action := State(), Adjust(OcpLevel, args);
      var k, ok := Require(id, args, action);
      if !ok {
        return;
      }
      var ch := channels[k];
      match ParseRanged(args[0], PROTECTION_MIN, ch.settings.currentMax) {
        case Err(e) => Reject(e, k, id, action);
        case Ok(level) =>
          if level < ch.settings.limit {
            Reject(OcpBelowPc, k, id, action);
          } else {
            ch.settings := ch.settings.(ocpLevel := level);
            Commit(k, was, id, action);
          }
      }
    }

    method SetOvpLevel(id: int, args: seq<Token>)
      requires Valid()
      modifies this`errors, channels
      ensures State() == Execute(old(State()), ToChannel(id, Adjust(OvpLevel, args)))
    {
      ghost var was, action := State(), Adjust(OvpLevel, args);
      var k, ok := Require(id, args, action);
      if !ok {
        return;
      }
      var ch := channels[k];
      match ParseRanged(args[0], PROTECTION_MIN, ch.settings.voltageMax) {
        case Err(e) => Reject(e, k, id, action);
        case Ok(level) =>
          if level < ch.settings.setpoint {
            Reject(OvpBelowPv, k, id, action);
          } else {
            ch.settings := ch.settings.(ovpLevel := level);
            Commit(k, was, id, action);
          }
      }
    }

    method SetOcpState(id: int, args: seq<Token>)
      requires Valid()
      modifies this`errors, channels
      ensures State() == Execute(old(State()), ToChannel(id, Adjust(OcpState, args)))
    {
      ghost var was, action := State(), Adjust(OcpState, args);
      var k, ok := Require(id, args, action);
      if !ok {
        return;
      }
      match ParseBool(args[0]) {
        case Err(e) => Reject(e, k, id, action);
        case Ok(enable) =>
          var ch := channels[k];
          ch.settings := ch.settings.(ocpOn := enable);
          Commit(k, was, id, action);
      }
    }

    method SetOvpState(id: int, args: seq<Token>)
      requires Valid()
      modifies this`errors, channels
      ensures State() == Execute(old(State()), ToChannel(id, Adjust(OvpState, args)))
    {
      ghost var was, action := State(), Adjust(OvpState, args);
      var k, ok := Require(id, args, action);
      if !ok {
        return;
      }
      match ParseBool(args[0]) {
        case Err(e) => Reject(e, k, id, action);
        case Ok(enable) =>
          var ch := channels[k];
          ch.settings := ch.settings.(ovpOn := enable);
          Commit(k, was, id, action);
      }
    }

    method SetRemoteSense(id: int, args: seq<Token>)
      requires Valid()
      modifies this`errors, channels
      ensures State() == Execute(old(State()), ToChannel(id, Adjust(RemoteSense, args)))
    {
      ghost var was, action := State(), Adjust(RemoteSense, args);
      var k, ok := Require(id, args, action);
      if !ok {
        return;
      }
      match ParseSense(args[0]) {
        case Err(e) => Reject(e, k, id, action);
        case Ok(remote) =>
          var ch := channels[k];
          ch.settings := ch.settings.(remoteSense := remote);
          Commit(k, was, id, action);
      }
    }

    method SetOutput(id: int, args: seq<Token>)
      requires Valid()
      modifies this`errors, channels
      ensures State() == Execute(old(State()), ToChannel(id, Action.SetOutput(args)))
    {
      ghost var was, action := State(), Action.SetOutput(args);
      var k, ok := Require(id, args, action);
      if !ok {
        return;
      }
      match ParseBool(args[0]) {
        case Err(e) => Reject(e, k, id, action);
        case Ok(enable) =>
          var ch := channels[k];
          if enable {
            ch.protection := UNTRIPPED;
          }
          ch.output := enable;
          Commit(k, was, id, action);
      }
    }

    method ClearProtectionLatch(id: int)
      requires Valid()
      modifies this`errors, channels
      ensures State() == Execute(old(State()), ToChannel(id, ClearLatch))
    {
      ghost var was, action := State(), ClearLatch;
      var k := RequireChannel(id);
      if k == |channels| {
        return;
      }
      var ch := channels[k];
      ch.protection := UNTRIPPED;
      Commit(k, was, id, action);
    }

    /** Voltage as measured, before the simulator's noise. */
    method MeasureVoltage(id: int) returns (volts: real)
      requires Valid()
      modifies this`errors, channels
      ensures State() == Execute(old(State()), ToChannel(id, Measure))
      ensures volts == MeasuredVoltage(State(), id)
    {
      MeasureMeans(State(), id);
      UpdateChannels();
      var k := RequireChannel(id);
      if k == |channels| {
        return 0.0;
      }
      var ch := channels[k];
      volts := if ch.settings.remoteSense then ch.readings.loadVoltage else ch.readings.terminalVoltage;
    }

    method ResetChannels()
      requires Valid()
      modifies this`errors, channels
      ensures State() == Execute(old(State()), Reset)
    {
      var i := 0;
      while i < |channels|
        invariant i <= |channels|
        invariant forall j :: 0 <= j < i ==> channels[j].State() == Rebooted(old(channels[j].State()))
        invariant forall j :: i <= j < |channels| ==> channels[j].State() == old(channels[j].State())
      {
        channels[i].Reboot();
        i := i + 1;
      }
      errors := [];
    }

    method NextError() returns (e: Option<ScpiError>)
      modifies this`errors
      ensures State() == Execute(old(State()), QueryError)
      ensures e == if old(errors) == [] then None else Some(old(errors)[0])
    {
      if errors == [] {
        return None;
      }
      e := Some(errors[0]);
      errors := errors[1..];
    }

    method ClearErrors()
      modifies this`errors
      ensures State() == Execute(old(State()), ClearStatus)
    {
      errors := [];
    }

    /** Queries that only look: an unknown channel is an error. */
    method Look(id: int)
      modifies this`errors
      ensures State() == Execute(old(State()), ToChannel(id, Query))
    {
      var k := RequireChannel(id);
    }

    /** Any command or operator action keeps the whole supply in order. */
    method Dispatch(command: Command)
      requires Valid() && SupplyOk(State())
      modifies this`errors, channels
      ensures State() == Execute(old(State()), command) && SupplyOk(State())
    {
      ExecuteKeepsOk(State(), command);
      match command {
        case Reset => ResetChannels();
        case ClearStatus => ClearErrors();
        case QueryError => var e := NextError();
        case ToChannel(id, action) => DispatchTo(id, action);
      }
    }

    method DispatchTo(id: int, action: Action)
      requires Valid()
      modifies this`errors, channels
      ensures State() == Execute(old(State()), ToChannel(id, action))
    {
      match action {
        case Adjust(setting, args) => DispatchSetting(id, setting, args);
        case SetOutput(args) => SetOutput(id, args);
        case ClearLatch => ClearProtectionLatch(id);
        case EditLoad(load) => PromptLoad(id, load);
        case EditVoltageMax(value) => PromptVoltageMax(id, value);
        case EditCurrentMax(value) => PromptCurrentMax(id, value);
        case Query => Look(id);
        case Measure => var volts := MeasureVoltage(id);
      }
    }

    method DispatchSetting(id: int, setting: Setting, args: seq<Token>)
      requires Valid()
      modifies this`errors, channels
      ensures State() == Execute(old(State()), ToChannel(id, Adjust(setting, args)))
    {
      match setting {
        case Voltage => SetVoltage(id, args);
        case CurrentLimit => SetCurrent(id, args);
        case OcpLevel => SetOcpLevel(id, args);
        case OcpState => SetOcpState(id, args);
        case OvpLevel => SetOvpLevel(id, args);
        case OvpState => SetOvpState(id, args);
        case RemoteSense => SetRemoteSense(id, args);
      }
    }

    /** A session: the commands one after the other, on a supply whose channels are in order. */
    method Serve(commands: seq<Command>)
      requires Valid() && SupplyOk(State())
      modifies this`errors, channels
      ensures State() == Run(old(State()), commands) && SupplyOk(State())
    {
      var i := 0;
      while i < |commands|
        invariant i <= |commands|
        invariant State() == Run(old(State()), commands[..i]) && SupplyOk(State())
      {
        Dispatch(commands[i]);
        assert commands[..i + 1][..i] == commands[..i];
        i := i + 1;
      }
      assert commands[..i] == commands;
    }

    method PromptLoad(id: int, load: Load)
      requires Valid()
      modifies this`errors, channels
      ensures State() == Execute(old(State()), ToChannel(id, EditLoad(load)))
    {
      ghost var was, action := State(), EditLoad(load);
      var k := FindChannel(id);
      if k == |channels| {
        return;
      }
      var ch := channels[k];
      ch.load := load;
      Commit(k, was, id, action);
    }

    method PromptVoltageMax(id: int, value: real)
      requires Valid()
      modifies this`errors, channels
      ensures State() == Execute(old(State()), ToChannel(id, EditVoltageMax(value)))
    {
      if value < CHANNEL_MIN {
        return;
      }
      var k := FindChannel(id);
      if k == |channels| {
        return;
      }
      var ch := channels[k];
      ch.settings := ch.settings.(voltageMax := value);
      assert States() == old(States())[k := ch.State()];
      ResetChannels();
    }

    method PromptCurrentMax(id: int, value: real)
      requires Valid()
      modifies this`errors, channels
      ensures State() == Execute(old(State()), ToChannel(id, EditCurrentMax(value)))
    {
      if value < CHANNEL_MIN {
        return;
      }
      var k := FindChannel(id);
      if k == |channels| {
        return;
      }
      var ch := channels[k];
      ch.settings := ch.settings.(currentMax := value);
      assert States() == old(States())[k := ch.State()];
      ResetChannels();
    }
  }

  function UpdatedAt(s: Supply, i: nat): Supply
    requires i < |s.channels|
  {
    var (ch, trips) := Updated(s.channels[i]);
    Supply(s.channels[i := ch], s.errors + trips)
  }

  // The supply once its channels from `i` on are brought up to date, one by one.
  ghost function UpdateFrom(s: Supply, i: nat): Supply
    requires i <= |s.channels|
    decreases |s.channels| - i
  {
    if i == |s.channels| then s else UpdateFrom(UpdatedAt(s, i), i + 1)
  }

  // The supply with its first `i` channels up to date.
  ghost function UpdatedTo(s: Supply, i: nat): Supply
    requires i <= |s.channels|
  {
    var done := UpdateAll(Supply(s.channels[..i], s.errors));
    Supply(done.channels + s.channels[i..], done.errors)
  }

  lemma UpdatedToNext(s: Supply, i: nat)
    requires i < |s.channels|
    ensures |UpdatedTo(s, i).channels| == |s.channels|
    ensures UpdatedTo(s, i + 1) == UpdatedAt(UpdatedTo(s, i), i)
  {
    assert s.channels[..i + 1][..i] == s.channels[..i];
    UpdateKeepsIds(Supply(s.channels[..i], s.errors));
  }

  lemma UpdatedToStart(s: Supply)
    ensures UpdatedTo(s, 0) == s
  {
    assert [] + s.channels[0..] == s.channels;
  }

  lemma UpdatedToEnd(s: Supply)
    ensures UpdatedTo(s, |s.channels|) == UpdateAll(s)
  {
    var all := Supply(s.channels[..|s.channels|], s.errors);
    assert all == s;
    assert UpdateAll(all).channels + s.channels[|s.channels|..] == UpdateAll(all).channels;
  }

  lemma {:induction false} UpdatesFrom(s: Supply, i: nat)
    requires i <= |s.channels|
    ensures i <= |UpdatedTo(s, i).channels| && UpdateFrom(UpdatedTo(s, i), i) == UpdateAll(s)
    decreases |s.channels| - i
  {
    if i < |s.channels| {
      UpdatedToNext(s, i);
      UpdatesFrom(s, i + 1);
    } else {
      UpdateKeepsIds(s);
      UpdatedToEnd(s);
    }
  }

  lemma UpdatesAll(s: Supply)
    ensures UpdateFrom(s, 0) == UpdateAll(s)
  {
    UpdatedToStart(s);
    UpdatesFrom(s, 0);
  }

  lemma MeasureMeans(s: Supply, id: int)
    ensures var now := UpdateAll(s);
            Execute(s, ToChannel(id, Measure))
            == if Find(now.channels, id) == |now.channels| then Push(now, HeaderSuffixOutOfRange) else now
  {
    SameIds(s.channels, UpdateAll(s).channels, s.errors, id);
  }

  lemma {:induction false} FindById(a: seq<Channel>, b: seq<Channel>, id: int)
    requires |a| == |b| && forall k :: 0 <= k < |a| ==> a[k].id == b[k].id
    ensures Find(a, id) == Find(b, id)
  {
    if a != [] && a[0].id != id {
      FindById(a[1..], b[1..], id);
    }
  }

  lemma {:induction false} UpdateKeepsIds(s: Supply)
    ensures |UpdateAll(s).channels| == |s.channels|
    ensures forall k :: 0 <= k < |s.channels| ==> UpdateAll(s).channels[k].id == s.channels[k].id
    decreases |s.channels|
  {
    if s.channels != [] {
      UpdateKeepsIds(Supply(s.channels[..|s.channels| - 1], s.errors));
    }
  }

  lemma SameIds(before: seq<Channel>, after: seq<Channel>, errors: seq<ScpiError>, id: int)
    requires after == UpdateAll(Supply(before, errors)).channels
    ensures |after| == |before| && Find(after, id) == Find(before, id)
  {
    UpdateKeepsIds(Supply(before, errors));
    FindById(before, after, id);
  }
}
