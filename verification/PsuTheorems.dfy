/**
 What holds of the supply in every reachable state: the interlocks, the
 isolation of channels from each other, and the circuit laws.
 */
module PsuTheorems {
  import opened Wrappers
  import opened Psu

  predicate Ordered(cfg: Settings) {
    && 0.0 <= cfg.setpoint <= cfg.ovpLevel <= cfg.voltageMax
    && 0.0 <= cfg.limit <= cfg.ocpLevel <= cfg.currentMax
  }

  // Latched exactly when one trip flag, and only one, is set; a latched channel is off.
  predicate Interlocked(ch: Channel) {
    && (ch.protection.latched <==> ch.protection.ovTripped || ch.protection.ocTripped)
    && !(ch.protection.ovTripped && ch.protection.ocTripped)
    && (ch.protection.latched ==> !ch.output)
  }

  // Bringing the channel up to date again would change nothing and trip nothing.
  predicate Settled(ch: Channel) {
    Updated(ch) == (ch, [])
  }

  predicate ChannelOk(ch: Channel) {
    Ordered(ch.settings) && Interlocked(ch) && Settled(ch)
  }

  ghost predicate SupplyOk(s: Supply) {
    forall k :: 0 <= k < |s.channels| ==> ChannelOk(s.channels[k])
  }

  lemma UpdatedIsOk(ch: Channel)
    requires Ordered(ch.settings) && Interlocked(ch)
    ensures ChannelOk(Updated(ch).0)
    ensures Updated(ch).0.settings == ch.settings && Updated(ch).0.load == ch.load && Updated(ch).0.id == ch.id
    ensures Updated(ch).0.output ==> ch.output
    ensures |Updated(ch).1| <= 1
  {}

  lemma {:induction false} UpdateAllPointwise(s: Supply)
    ensures |UpdateAll(s).channels| == |s.channels|
    ensures forall k :: 0 <= k < |s.channels| ==> UpdateAll(s).channels[k] == Updated(s.channels[k]).0
    decreases |s.channels|
  {
    if s.channels != [] {
      UpdateAllPointwise(Supply(s.channels[..|s.channels| - 1], s.errors));
    }
  }

  lemma AdjustedKeepsOrder(cfg: Settings, setting: Setting, arg: Token)
    requires Ordered(cfg) && Adjusted(cfg, setting, arg).Ok?
    ensures Ordered(Adjusted(cfg, setting, arg).value)
  {}

  lemma HandleKeepsOrder(ch: Channel, action: Action)
    requires IsHandled(action) && Ordered(ch.settings) && Interlocked(ch) && Handle(ch, action).Ok?
    ensures var edited := Handle(ch, action).value;
            Ordered(edited.settings) && Interlocked(edited)
  {
    if action.Adjust? {
      AdjustedKeepsOrder(ch.settings, action.setting, action.args[0]);
    }
  }

  lemma ResetIsOk(channels: seq<Channel>)
    requires forall k :: 0 <= k < |channels| ==>
               channels[k].settings.voltageMax >= 0.0 && channels[k].settings.currentMax >= 0.0
    ensures SupplyOk(ResetAll(channels))
  {}

  lemma UpdateAllIsOk(s: Supply)
    requires forall k :: 0 <= k < |s.channels| ==> Ordered(s.channels[k].settings) && Interlocked(s.channels[k])
    ensures SupplyOk(UpdateAll(s))
  {
    UpdateAllPointwise(s);
    forall k | 0 <= k < |s.channels| ensures ChannelOk(UpdateAll(s).channels[k]) {
      UpdatedIsOk(s.channels[k]);
    }
  }

  lemma ApplyKeepsOk(s: Supply, k: nat, action: Action)
    requires SupplyOk(s) && k < |s.channels|
    ensures SupplyOk(Apply(s, k, action))
  {
    var ch := s.channels[k];
    if action.Measure? {
      UpdateAllIsOk(s);
    } else if action.EditVoltageMax? && action.value >= CHANNEL_MIN {
      ResetIsOk(s.channels[k := ch.(settings := ch.settings.(voltageMax := action.value))]);
    } else if action.EditCurrentMax? && action.value >= CHANNEL_MIN {
      ResetIsOk(s.channels[k := ch.(settings := ch.settings.(currentMax := action.value))]);
    } else if IsHandled(action) && Handle(ch, action).Ok? {
      HandleKeepsOrder(ch, action);
      UpdateAllIsOk(Supply(s.channels[k := Handle(ch, action).value], s.errors));
    }
  }

  // What a reset does not touch.
  predicate SameHardware(a: Channel, b: Channel) {
    && a.id == b.id && a.load == b.load && a.settings.remoteSense == b.settings.remoteSense
    && a.settings.voltageMax == b.settings.voltageMax && a.settings.currentMax == b.settings.currentMax
  }

  /**
   A reset forgets everything a run of commands did but maxima, load and
   sensing: supplies that agree on these reset to the same supply, whose
   outputs are off, setpoints zero and protections wide open.
   */
  lemma ResetForgets(s: Supply, t: Supply)
    requires |s.channels| == |t.channels| && forall k :: 0 <= k < |s.channels| ==> SameHardware(s.channels[k], t.channels[k])
    ensures Execute(s, Reset) == Execute(t, Reset)
    ensures Execute(Execute(s, Reset), Reset) == Execute(s, Reset)
    ensures forall k :: 0 <= k < |s.channels| ==>
              var ch := Execute(s, Reset).channels[k];
              && SameHardware(ch, s.channels[k])
              && !ch.output && !ch.protection.latched && ch.readings == IDLE
              && ch.settings.setpoint == 0.0 && ch.settings.limit == 0.0
              && !ch.settings.ovpOn && ch.settings.ovpLevel == ch.settings.voltageMax
              && !ch.settings.ocpOn && ch.settings.ocpLevel == ch.settings.currentMax
  {}

  /** Every command, accepted or rejected, keeps every channel in order. */
  lemma ExecuteKeepsOk(s: Supply, command: Command)
    requires SupplyOk(s)
    ensures SupplyOk(Execute(s, command))
  {
    if command.Reset? {
      ResetIsOk(s.channels);
    } else if command.ToChannel? {
      var k := Find(s.channels, command.id);
      if k < |s.channels| {
        ApplyKeepsOk(s, k, command.action);
      } else {
        UpdateAllIsOk(s);
      }
    }
  }

  /** So it holds after any run of commands on a supply as built, whatever its loads. */
  lemma {:induction false} RunsStayOk(s: Supply, commands: seq<Command>)
    requires forall k :: 0 <= k < |s.channels| ==> s.channels[k] == NewChannel(s.channels[k].id, s.channels[k].load)
    ensures SupplyOk(Run(s, commands))
  {
    if commands != [] {
      RunsStayOk(s, commands[..|commands| - 1]);
      ExecuteKeepsOk(Run(s, commands[..|commands| - 1]), commands[|commands| - 1]);
    }
  }

  /** What being in order means for an observer. */
  lemma OkMeans(ch: Channel)
    requires ChannelOk(ch)
    ensures !ch.output <==> ch.readings.mode == Off
    ensures !ch.output ==> ch.readings == Readings(Off, 0.0, 0.0, 0.0)
    ensures ch.output && ch.settings.ovpOn ==> Sensed(ch.settings, ch.readings) <= ch.settings.ovpLevel
    ensures ch.output && ch.settings.ocpOn ==> -ch.settings.ocpLevel <= ch.readings.current <= ch.settings.ocpLevel
    ensures ch.protection.latched ==> !ch.output && (ch.protection.ovTripped <==> !ch.protection.ocTripped)
    ensures ch.output ==> ch.readings == Solve(ch.settings, ch.load)
  {
    if ch.output {
      assert Trip(ch.settings, ch.readings).None?;
    }
  }

  // ---------------------------------------------------------------- isolation

  predicate ResetsAll(command: Command) {
    command.Reset? || (command.ToChannel? && (command.action.EditVoltageMax? || command.action.EditCurrentMax?))
  }

  predicate Addresses(s: Supply, command: Command, k: nat) {
    command.ToChannel? && k == Find(s.channels, command.id)
  }

  lemma {:induction false} UpdateAllSettled(s: Supply)
    requires forall k :: 0 <= k < |s.channels| ==> Settled(s.channels[k])
    ensures UpdateAll(s) == s
    decreases |s.channels|
  {
    if s.channels != [] {
      UpdateAllSettled(Supply(s.channels[..|s.channels| - 1], s.errors));
      assert s.channels[..|s.channels| - 1] + [s.channels[|s.channels| - 1]] == s.channels;
      assert s.errors + [] == s.errors;
    }
  }

  lemma {:induction false} UpdateAllOne(s: Supply, k: nat)
    requires k < |s.channels|
    requires forall j :: 0 <= j < |s.channels| && j != k ==> Settled(s.channels[j])
    ensures UpdateAll(s) == Supply(s.channels[k := Updated(s.channels[k]).0], s.errors + Updated(s.channels[k]).1)
    decreases |s.channels|
  {
    var last := |s.channels| - 1;
    var front := Supply(s.channels[..last], s.errors);
    var ch := Updated(s.channels[k]).0;
    if k == last {
      UpdateAllSettled(front);
      assert s.channels[k := ch] == front.channels + [ch];
    } else {
      UpdateAllOne(front, k);
      assert s.channels[k := ch] == front.channels[k := ch] + [s.channels[last]];
      var errors := UpdateAll(front).errors;
      assert errors + [] == errors;
    }
  }

  // `after` differs from `s` at most at position `k` and in one more error.
  ghost predicate OnlyAt(s: Supply, after: Supply, k: nat) {
    && |after.channels| == |s.channels|
    && (forall j :: 0 <= j < |s.channels| && j != k ==> after.channels[j] == s.channels[j])
    && (after.errors == s.errors || exists e :: after.errors == s.errors + [e])
  }

  lemma ApplyIsLocal(s: Supply, k: nat, action: Action)
    requires SupplyOk(s) && k < |s.channels| && !action.EditVoltageMax? && !action.EditCurrentMax?
    ensures OnlyAt(s, Apply(s, k, action), k)
  {
    if action.Measure? {
      UpdateAllSettled(s);
    } else if IsHandled(action) {
      var handled := Handle(s.channels[k], action);
      if handled.Ok? {
        UpdateAllOne(Supply(s.channels[k := handled.value], s.errors), k);
        var trips := Updated(handled.value).1;
        assert trips == [] || trips == [trips[0]];
        assert s.errors + [] == s.errors;
      }
    }
  }

  /**
   A command reaches only the channel it addresses: although every accepted
   command re-solves all circuits, every other channel stays as it was, and at
   most one error is reported.
   */
  lemma CommandsAreIsolated(s: Supply, command: Command)
    requires SupplyOk(s) && !ResetsAll(command)
    ensures var after := Execute(s, command);
            && |after.channels| == |s.channels|
            && (forall j :: 0 <= j < |s.channels| && !Addresses(s, command, j) ==> after.channels[j] == s.channels[j])
            && (command.ToChannel? ==> after.errors == s.errors || exists e :: after.errors == s.errors + [e])
  {
    if command.ToChannel? {
      var k := Find(s.channels, command.id);
      if k < |s.channels| {
        ApplyIsLocal(s, k, command.action);
      } else {
        UpdateAllSettled(s);
      }
    }
  }

  lemma UpdatingChangesNothing(s: Supply)
    requires SupplyOk(s)
    ensures UpdateAll(s) == s
  {
    forall k | 0 <= k < |s.channels| ensures Settled(s.channels[k]) {
      assert ChannelOk(s.channels[k]);
    }
    UpdateAllSettled(s);
  }

  /** Asking and measuring leave every channel as it is. */
  lemma QueriesChangeNothing(s: Supply, id: int, action: Action)
    requires SupplyOk(s) && (action.Query? || action.Measure?)
    ensures Execute(s, ToChannel(id, action)).channels == s.channels
  {
    UpdatingChangesNothing(s);
  }

  lemma HandledTurnsOn(ch: Channel, action: Action)
    requires IsHandled(action) && Handle(ch, action).Ok? && !ch.output
    requires Updated(Handle(ch, action).value).0.output
    ensures action.SetOutput? && action.args != [] && action.args[0].text in ["1", "ON"]
  {}

  lemma ApplyTurnsOn(s: Supply, j: nat, action: Action)
    requires SupplyOk(s) && j < |s.channels| && !s.channels[j].output
    requires !action.EditVoltageMax? && !action.EditCurrentMax?
    requires |Apply(s, j, action).channels| == |s.channels| && Apply(s, j, action).channels[j].output
    ensures action.SetOutput? && action.args != [] && action.args[0].text in ["1", "ON"]
  {
    if action.Measure? {
      UpdatingChangesNothing(s);
    } else if IsHandled(action) && Handle(s.channels[j], action).Ok? {
      UpdateAllPointwise(Supply(s.channels[j := Handle(s.channels[j], action).value], s.errors));
      HandledTurnsOn(s.channels[j], action);
    }
  }

  /** Only an output-enable command, addressed to it, ever turns a channel's output on. */
  lemma OnlyEnableTurnsOn(s: Supply, command: Command, j: nat)
    requires SupplyOk(s) && j < |s.channels| && !s.channels[j].output
    requires |Execute(s, command).channels| == |s.channels| && Execute(s, command).channels[j].output
    ensures Addresses(s, command, j) && command.action.SetOutput?
    ensures command.action.args != [] && command.action.args[0].text in ["1", "ON"]
  {
    if !ResetsAll(command) {
      CommandsAreIsolated(s, command);
      ApplyTurnsOn(s, j, command.action);
    }
  }

  // ---------------------------------------------------------------- accepted commands

  // The numbers a setting can take beside the others: its range and its interlock in one.
  predicate InWindow(cfg: Settings, setting: Setting, x: real) {
    match setting
    case Voltage => 0.0 <= x <= cfg.ovpLevel
    case CurrentLimit => 0.0 <= x <= cfg.ocpLevel
    case OvpLevel => cfg.setpoint <= x <= cfg.voltageMax
    case OcpLevel => cfg.limit <= x <= cfg.currentMax
    case _ => false
  }

  // What the query of a numeric setting answers.
  function Answer(cfg: Settings, setting: Setting): real {
    match setting
    case Voltage => cfg.setpoint
    case CurrentLimit => cfg.limit
    case OvpLevel => cfg.ovpLevel
    case OcpLevel => cfg.ocpLevel
    case _ => 0.0
  }

  // What the query of a switch answers.
  function State(cfg: Settings, setting: Setting): bool {
    match setting
    case OvpState => cfg.ovpOn
    case OcpState => cfg.ocpOn
    case RemoteSense => cfg.remoteSense
    case _ => false
  }

  predicate IsNumeric(setting: Setting) {
    setting.Voltage? || setting.CurrentLimit? || setting.OvpLevel? || setting.OcpLevel?
  }

  // Every query but that of `setting` answers as before, and the maxima stay.
  ghost predicate OthersAnswerAlike(a: Settings, b: Settings, setting: Setting) {
    && a.voltageMax == b.voltageMax && a.currentMax == b.currentMax
    && forall other: Setting :: other != setting ==> Answer(a, other) == Answer(b, other) && State(a, other) == State(b, other)
  }

  predicate PlainNumber(arg: Token, x: real) {
    arg.number == Some(x) && arg.text !in ["MAX", "MAXIMUM", "MIN", "MINIMUM", "DEF", "DEFAULT"]
  }

  lemma AdjustedInWindow(cfg: Settings, setting: Setting, arg: Token, x: real)
    requires Ordered(cfg) && IsNumeric(setting) && PlainNumber(arg, x)
    ensures Adjusted(cfg, setting, arg).Ok? <==> InWindow(cfg, setting, x)
    ensures InWindow(cfg, setting, x) ==>
              var after := Adjusted(cfg, setting, arg).value;
              Answer(after, setting) == x && OthersAnswerAlike(after, cfg, setting)
  {}

  // What `command` leaves of the channel it addresses: its settings, or an error and no change.
  lemma AdjustReaches(s: Supply, id: int, setting: Setting, arg: Token)
    requires SupplyOk(s) && Find(s.channels, id) < |s.channels|
    ensures var k := Find(s.channels, id);
            var after := Execute(s, ToChannel(id, Adjust(setting, [arg])));
            && |after.channels| == |s.channels|
            && match Adjusted(s.channels[k].settings, setting, arg)
               case Ok(settings) => after.channels[k].settings == settings
               case Err(e) => after == Supply(s.channels, s.errors + [e])
  {
    var k := Find(s.channels, id);
    var adjusted := Adjusted(s.channels[k].settings, setting, arg);
    if adjusted.Ok? {
      UpdateAllPointwise(Supply(s.channels[k := s.channels[k].(settings := adjusted.value)], s.errors));
    }
  }

  /**
   A number is accepted exactly inside the window the interlocks leave: it then
   reads back, and no other setting moves. Outside it one error is queued and
   nothing changes.
   */
  lemma SettingWindow(s: Supply, id: int, setting: Setting, arg: Token, x: real)
    requires SupplyOk(s) && Find(s.channels, id) < |s.channels|
    requires IsNumeric(setting) && PlainNumber(arg, x)
    ensures var k := Find(s.channels, id);
            var was := s.channels[k].settings;
            var after := Execute(s, ToChannel(id, Adjust(setting, [arg])));
            && |after.channels| == |s.channels|
            && (InWindow(was, setting, x) ==>
                  Answer(after.channels[k].settings, setting) == x
                  && OthersAnswerAlike(after.channels[k].settings, was, setting))
            && (!InWindow(was, setting, x) ==> after.channels == s.channels && |after.errors| == |s.errors| + 1)
  {
    var k := Find(s.channels, id);
    assert ChannelOk(s.channels[k]);
    AdjustReaches(s, id, setting, arg);
    AdjustedInWindow(s.channels[k].settings, setting, arg, x);
  }

  // What MAX asks for.
  function Maximum(cfg: Settings, setting: Setting): real {
    if setting.Voltage? || setting.OvpLevel? then cfg.voltageMax else cfg.currentMax
  }

  // The error of a number within its range that another setting forbids.
  function InterlockError(setting: Setting): ScpiError
    requires IsNumeric(setting)
  {
    match setting
    case Voltage => PvAboveOvp
    case CurrentLimit => PcAboveOcp
    case OvpLevel => OvpBelowPv
    case OcpLevel => OcpBelowPc
  }

  // The command was refused with one error, and changed nothing else.
  predicate Refused(s: Supply, after: Supply, e: ScpiError) {
    after.channels == s.channels && after.errors == s.errors + [e]
  }

  // Channel `k` now answers `x` for the setting, and all else as before.
  ghost predicate NowAnswers(s: Supply, after: Supply, k: nat, setting: Setting, x: real)
    requires k < |s.channels|
  {
    && |after.channels| == |s.channels|
    && Answer(after.channels[k].settings, setting) == x
    && OthersAnswerAlike(after.channels[k].settings, s.channels[k].settings, setting)
  }

  /** MAX asks for the channel's own maximum and MIN or DEF for zero, if the interlock allows it. */
  lemma KeywordSets(s: Supply, id: int, setting: Setting, arg: Token)
    requires SupplyOk(s) && Find(s.channels, id) < |s.channels| && IsNumeric(setting)
    requires arg.text in ["MAX", "MAXIMUM", "MIN", "MINIMUM", "DEF", "DEFAULT"]
    ensures var k := Find(s.channels, id);
            var was := s.channels[k].settings;
            var x := if arg.text in ["MAX", "MAXIMUM"] then Maximum(was, setting) else 0.0;
            var after := Execute(s, ToChannel(id, Adjust(setting, [arg])));
            if InWindow(was, setting, x) then NowAnswers(s, after, k, setting, x)
            else Refused(s, after, InterlockError(setting))
  {
    assert ChannelOk(s.channels[Find(s.channels, id)]);
    AdjustReaches(s, id, setting, arg);
  }

  /** Which error refuses any other token: not a number, out of range, or against the interlock. */
  lemma RefusalSays(s: Supply, id: int, setting: Setting, arg: Token)
    requires SupplyOk(s) && Find(s.channels, id) < |s.channels| && IsNumeric(setting)
    requires arg.text !in ["MAX", "MAXIMUM", "MIN", "MINIMUM", "DEF", "DEFAULT"]
    ensures var was := s.channels[Find(s.channels, id)].settings;
            var after := Execute(s, ToChannel(id, Adjust(setting, [arg])));
            match arg.number
            case None => Refused(s, after, InvalidCharacterData)
            case Some(x) =>
              && (!(0.0 <= x <= Maximum(was, setting)) ==> Refused(s, after, DataOutOfRange))
              && (0.0 <= x <= Maximum(was, setting) && !InWindow(was, setting, x) ==>
                    Refused(s, after, InterlockError(setting)))
  {
    assert ChannelOk(s.channels[Find(s.channels, id)]);
    AdjustReaches(s, id, setting, arg);
  }

  /** A supply as built takes up to 60 volts and 10 amperes. */
  lemma BuiltMaxima(id: int, load: Load, max: Token)
    requires max.text == "MAX"
    ensures var s := Supply([NewChannel(id, load)], []);
            && NowAnswers(s, Execute(s, ToChannel(id, Adjust(Voltage, [max]))), 0, Voltage, 60.0)
            && NowAnswers(s, Execute(s, ToChannel(id, Adjust(CurrentLimit, [max]))), 0, CurrentLimit, 10.0)
  {
    var s := Supply([NewChannel(id, load)], []);
    assert s.channels[0].id == id;
    RunsStayOk(s, []);
    KeywordSets(s, id, Voltage, max);
    KeywordSets(s, id, CurrentLimit, max);
  }

  /** A token that names no state of a switch, or of the output, is refused. */
  lemma SwitchRefuses(s: Supply, id: int, setting: Setting, arg: Token)
    requires SupplyOk(s) && Find(s.channels, id) < |s.channels| && !IsNumeric(setting)
    ensures arg.text !in (if setting.RemoteSense? then ["REM", "LOC"] else ["0", "1", "ON", "OFF"]) ==>
              Refused(s, Execute(s, ToChannel(id, Adjust(setting, [arg]))), IllegalParameterValue)
    ensures arg.text !in ["0", "1", "ON", "OFF"] ==>
              Refused(s, Execute(s, ToChannel(id, SetOutput([arg]))), IllegalParameterValue)
  {
    AdjustReaches(s, id, setting, arg);
  }

  /** A switch set reads back, and no other setting moves. */
  lemma SwitchReadsBack(s: Supply, id: int, setting: Setting, arg: Token)
    requires SupplyOk(s) && Find(s.channels, id) < |s.channels|
    requires !IsNumeric(setting)
    requires arg.text in if setting.RemoteSense? then ["REM", "LOC"] else ["0", "1", "ON", "OFF"]
    ensures var k := Find(s.channels, id);
            var after := Execute(s, ToChannel(id, Adjust(setting, [arg])));
            && |after.channels| == |s.channels|
            && (State(after.channels[k].settings, setting) <==> arg.text in ["REM", "1", "ON"])
            && OthersAnswerAlike(after.channels[k].settings, s.channels[k].settings, setting)
  {
    AdjustReaches(s, id, setting, arg);
  }

  /**
   Enabling the output releases the latch, and the output then stays on exactly
   when the solved circuit trips no protection. Disabling it and clearing the
   latch do just that.
   */
  lemma OutputTakesEffect(s: Supply, id: int, arg: Token)
    requires SupplyOk(s) && Find(s.channels, id) < |s.channels| && arg.text in ["0", "1", "ON", "OFF"]
    ensures var k := Find(s.channels, id);
            var ch := s.channels[k];
            var after := Execute(s, ToChannel(id, SetOutput([arg])));
            var cleared := Execute(s, ToChannel(id, ClearLatch));
            && |after.channels| == |s.channels| == |cleared.channels|
            && after.channels[k].settings == ch.settings
            && (arg.text in ["1", "ON"] ==>
                  && (after.channels[k].output <==> Trip(ch.settings, Solve(ch.settings, ch.load)).None?)
                  && (after.channels[k].output <==> !after.channels[k].protection.latched))
            && (arg.text in ["0", "OFF"] ==> after.channels[k] == ch.(output := false, readings := IDLE))
            && cleared.channels[k] == ch.(protection := UNTRIPPED)
  {
    var k := Find(s.channels, id);
    var ch := s.channels[k];
    assert ChannelOk(ch);
    var switched := Handle(ch, SetOutput([arg])).value;
    UpdateAllPointwise(Supply(s.channels[k := switched], s.errors));
    UpdateAllPointwise(Supply(s.channels[k := ch.(protection := UNTRIPPED)], s.errors));
  }

  // ---------------------------------------------------------------- circuit

  // The loads that can push the sensed voltage past the setpoint: an emf above
  // it across no resistance at all, or a negative resistance at the limit.
  predicate Overshoots(cfg: Settings, load: Load) {
    match Total(cfg, load)
    case Open => false
    case Ohms(r) =>
      || (r == 0.0 && load.emf > cfg.setpoint)
      || (r < 0.0 && cfg.setpoint - load.emf < cfg.limit * r)
  }

  // What the sensing point sees when the limit is what regulates.
  function AtLimit(cfg: Settings, load: Load): real {
    match Total(cfg, load)
    case Open => 0.0
    case Ohms(r) => cfg.limit * r + load.emf
  }

  lemma Quotient(x: real, r: real)
    requires r != 0.0
    ensures (x / r) * r == x
  {}

  lemma ScaleUp(a: real, b: real, r: real)
    requires r > 0.0
    ensures a < b <==> a * r < b * r
  {
    assert (b - a) * r == b * r - a * r;
  }

  lemma ScaleDown(a: real, b: real, r: real)
    requires r < 0.0
    ensures a < b <==> a * r > b * r
  {
    assert (b - a) * r == b * r - a * r;
  }

  lemma Distribute(a: real, b: real, c: real)
    ensures a * (b + c) == a * b + a * c
  {}

  // How the demand compares with the limit, without dividing.
  lemma DemandAgainstLimit(cfg: Settings, load: Load)
    requires Total(cfg, load).Ohms? && Total(cfg, load).value != 0.0
    ensures var r := Total(cfg, load).value;
            var drop := cfg.setpoint - load.emf;
            && Demand(cfg, load).Some?
            && Demand(cfg, load).value * r == drop
            && (r > 0.0 ==> (Demand(cfg, load).value > cfg.limit <==> drop > cfg.limit * r))
            && (r < 0.0 ==> (Demand(cfg, load).value > cfg.limit <==> drop < cfg.limit * r))
  {
    var r := Total(cfg, load).value;
    var d := Demand(cfg, load).value;
    Quotient(cfg.setpoint - load.emf, r);
    if r > 0.0 {
      ScaleUp(cfg.limit, d, r);
    } else {
      ScaleDown(cfg.limit, d, r);
    }
  }

  lemma LimitRegulates(cfg: Settings, load: Load)
    requires load.resistance.Ohms? && Solve(cfg, load).mode == CC
    ensures Sensed(cfg, Solve(cfg, load)) == AtLimit(cfg, load)
  {
    Distribute(cfg.limit, load.resistance.value, load.probe);
  }

  /**
   The solution for every load, without dividing: an open load takes no
   current; with no resistance at all the supply regulates voltage only if the
   emf is the setpoint; otherwise it does so exactly when the current that
   meets the setpoint is within the limit. At the limit, the limit flows.
   */
  lemma Solution(cfg: Settings, load: Load)
    requires cfg.limit >= 0.0
    ensures var on := Solve(cfg, load);
            match load.resistance
            case Open => on == Readings(CV, cfg.setpoint, cfg.setpoint, 0.0)
            case Ohms(ohms) =>
              var r := if cfg.remoteSense then ohms else ohms + load.probe;
              var rise := cfg.setpoint - load.emf;
              && (on.mode == CV <==>
                    if r == 0.0 then rise == 0.0 else if r > 0.0 then rise <= cfg.limit * r else rise >= cfg.limit * r)
              && (on.mode == CV ==> && on.current * r == rise && (r == 0.0 ==> on.current == 0.0)
                                    && (if cfg.remoteSense then on.loadVoltage else on.terminalVoltage) == cfg.setpoint)
              && (on.mode != CV ==> on.mode == CC && on.current == cfg.limit)
  {
    if load.resistance.Ohms? && Total(cfg, load).value != 0.0 {
      DemandAgainstLimit(cfg, load);
    }
  }

  /**
   Regulation, for every load: either the setpoint or the limit is met
   exactly, the current never passes the limit, and the sensed voltage passes
   the setpoint only for the loads that overshoot.
   */
  lemma Regulation(cfg: Settings, load: Load)
    requires cfg.limit >= 0.0
    ensures var on := Solve(cfg, load);
            && on.current <= cfg.limit
            && (Sensed(cfg, on) == cfg.setpoint || on.current == cfg.limit)
            && (Sensed(cfg, on) <= cfg.setpoint <==> !Overshoots(cfg, load))
            && (Overshoots(cfg, load) ==> Sensed(cfg, on) == AtLimit(cfg, load))
  {
    var on := Solve(cfg, load);
    if load.resistance.Ohms? {
      if Total(cfg, load).value != 0.0 {
        DemandAgainstLimit(cfg, load);
      }
      if on.mode == CC {
        LimitRegulates(cfg, load);
      }
    }
  }

  /** For a finite load the drops across the probes and across the load obey Ohm's law, in both modes. */
  lemma OhmsLaw(cfg: Settings, load: Load)
    requires load.resistance.Ohms?
    ensures var on := Solve(cfg, load);
            && on.terminalVoltage - on.loadVoltage == on.current * load.probe
            && on.loadVoltage - load.emf == on.current * load.resistance.value
  {
    var on := Solve(cfg, load);
    if on.mode == CV {
      if Total(cfg, load).value != 0.0 {
        DemandAgainstLimit(cfg, load);
      }
      Distribute(on.current, load.resistance.value, load.probe);
    }
  }

  /**
   When protection trips: overvoltage exactly on an overshooting load whose
   limit-regulated voltage passes the level; overcurrent, otherwise, exactly
   on a reverse current beyond the level.
   */
  lemma WhenProtectionTrips(cfg: Settings, load: Load)
    requires Ordered(cfg)
    ensures var trip := Trip(cfg, Solve(cfg, load));
            && (trip == Some(OvervoltageTripped)
                <==> cfg.ovpOn && Overshoots(cfg, load) && AtLimit(cfg, load) > cfg.ovpLevel)
            && (trip == Some(OvercurrentTripped)
                <==> && trip != Some(OvervoltageTripped)
                     && cfg.ocpOn && Demand(cfg, load).Some? && Demand(cfg, load).value < -cfg.ocpLevel)
  {
    Regulation(cfg, load);
  }

  predicate Passive(cfg: Settings, load: Load) {
    Total(cfg, load).Open? || Total(cfg, load).value > 0.0
  }

  /**
   A channel in order whose circuit has a positive (or infinite) resistance:
   the setpoint and the limit are both respected and one of them is met, and
   no setting in order can make overvoltage protection trip.
   */
  lemma PassiveLoads(ch: Channel, next: Settings)
    requires ChannelOk(ch) && ch.output && Passive(ch.settings, ch.load)
    ensures Sensed(ch.settings, ch.readings) <= ch.settings.setpoint
    ensures ch.readings.current <= ch.settings.limit
    ensures Sensed(ch.settings, ch.readings) == ch.settings.setpoint || ch.readings.current == ch.settings.limit
    ensures Ordered(next) && Passive(next, ch.load) ==> Trip(next, Solve(next, ch.load)) != Some(OvervoltageTripped)
  {
    OkMeans(ch);
    Regulation(ch.settings, ch.load);
    if Ordered(next) {
      WhenProtectionTrips(next, ch.load);
    }
  }

  /** An emf across no resistance at all does trip it: the condition on the load is needed. */
  lemma ShortedEmfTrips()
    ensures var load := Load(Ohms(0.0), 5.0, 0.0);
            var cfg := Settings(60.0, 10.0, 1.0, 2.0, 4.0, true, 10.0, false, false);
            Ordered(cfg) && Trip(cfg, Solve(cfg, load)) == Some(OvervoltageTripped)
  {}

  /**
   A trip latches the channel off with the flag of the protection that
   tripped, and enabling the output again, with nothing changed, repeats it.
   */
  lemma TripRepeats(ch: Channel, e: ScpiError)
    requires Interlocked(ch) && Updated(ch).1 == [e]
    ensures var tripped := Updated(ch).0;
            && tripped.protection == Protection(true, e == OvervoltageTripped, e == OvercurrentTripped)
            && !tripped.output
            && Updated(tripped.(protection := UNTRIPPED, output := true)) == (tripped, [e])
  {}
}
