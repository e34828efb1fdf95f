/**
 The simulated power supply of instro/psu/scpi_sim_server.py as a state
 machine over parsed commands: what one command does to the whole supply.
 */
module Psu {
  import opened Wrappers

  // An unconnected load has infinite resistance.
  datatype Resistance = Ohms(value: real) | Open

  datatype Load = Load(resistance: Resistance, emf: real, probe: real)

  datatype Mode = Off | CV | CC

  datatype Settings = Settings(
    voltageMax: real,
    currentMax: real,
    setpoint: real,
    limit: real,
    ovpLevel: real,
    ovpOn: bool,
    ocpLevel: real,
    ocpOn: bool,
    remoteSense: bool)

  datatype Readings = Readings(mode: Mode, terminalVoltage: real, loadVoltage: real, current: real)

  datatype Protection = Protection(latched: bool, ovTripped: bool, ocTripped: bool)

  datatype Channel = Channel(
    id: int,
    settings: Settings,
    load: Load,
    output: bool,
    protection: Protection,
    readings: Readings)

  datatype ScpiError =
    | MissingParameter
    | HeaderSuffixOutOfRange
    | InvalidCharacterData
    | DataOutOfRange
    | IllegalParameterValue
    | PvAboveOvp
    | PcAboveOcp
    | OvpBelowPv
    | OcpBelowPc
    | OvercurrentTripped
    | OvervoltageTripped

  // A parameter: its text in upper case, and the number it reads as, if any.
  datatype Token = Token(text: string, number: Option<real>)

  const DEFAULT_VOLTAGE_MAX := 60.0
  const DEFAULT_CURRENT_MAX := 10.0
  const CHANNEL_MIN := 0.0
  const PROTECTION_MIN := 0.0

  const IDLE := Readings(Off, 0.0, 0.0, 0.0)
  const UNTRIPPED := Protection(false, false, false)

  function NewChannel(id: int, load: Load): Channel {
    Channel(id,
            Settings(DEFAULT_VOLTAGE_MAX, DEFAULT_CURRENT_MAX, 0.0, 0.0,
                     DEFAULT_VOLTAGE_MAX, false, DEFAULT_CURRENT_MAX, false, false),
            load, false, UNTRIPPED, IDLE)
  }

  // ---------------------------------------------------------------- circuit

  function Total(cfg: Settings, load: Load): Resistance {
    if cfg.remoteSense || load.resistance.Open? then load.resistance
    else Ohms(load.resistance.value + load.probe)
  }

  // The current the setpoint asks for; None stands for an infinite one.
  function Demand(cfg: Settings, load: Load): Option<real> {
    match Total(cfg, load)
    case Open => Some(0.0)
    case Ohms(r) =>
      if r == 0.0 then (if cfg.setpoint - load.emf != 0.0 then None else Some(0.0))
      else Some((cfg.setpoint - load.emf) / r)
  }

  function Solve(cfg: Settings, load: Load): Readings {
    var demand := Demand(cfg, load);
    if demand.Some? && demand.value <= cfg.limit then
      var i := demand.value;
      if cfg.remoteSense then Readings(CV, cfg.setpoint + i * load.probe, cfg.setpoint, i)
      else Readings(CV, cfg.setpoint, cfg.setpoint - i * load.probe, i)
    else if load.resistance.Ohms? then
      var v := cfg.limit * load.resistance.value + load.emf;
      Readings(CC, v + cfg.limit * load.probe, v, cfg.limit)
    else
      Readings(CC, 0.0, 0.0, cfg.limit)
  }

  function Sensed(cfg: Settings, on: Readings): real {
    if cfg.remoteSense then on.loadVoltage else on.terminalVoltage
  }

  function Abs(x: real): real {
    if x < 0.0 then -x else x
  }

  // The trip, if any, that freshly solved readings cause.
  function Trip(cfg: Settings, on: Readings): Option<ScpiError> {
    if cfg.ovpOn && Sensed(cfg, on) > cfg.ovpLevel then Some(OvervoltageTripped)
    else if cfg.ocpOn && Abs(on.current) > cfg.ocpLevel then Some(OvercurrentTripped)
    else None
  }

  // One channel brought up to date, and the trip it reports, if any.
  function Updated(ch: Channel): (Channel, seq<ScpiError>) {
    if !ch.output || ch.protection.latched then (ch.(readings := IDLE), [])
    else
      var on := Solve(ch.settings, ch.load);
      match Trip(ch.settings, on)
      case None => (ch.(readings := on), [])
      case Some(e) =>
        (ch.(output := false, readings := IDLE,
             protection := Protection(true,
                                      e == OvervoltageTripped || ch.protection.ovTripped,
                                      e == OvercurrentTripped || ch.protection.ocTripped)),
         [e])
  }

  // ---------------------------------------------------------------- commands

  datatype Setting = Voltage | CurrentLimit | OcpLevel | OcpState | OvpLevel | OvpState | RemoteSense

  datatype Action =
    | Adjust(setting: Setting, args: seq<Token>)
    | SetOutput(args: seq<Token>)
    | ClearLatch
    | EditLoad(load: Load)          // operator panel
    | EditVoltageMax(value: real)   // operator panel
    | EditCurrentMax(value: real)   // operator panel
    | Query                         // answers from the state as it is
    | Measure                       // brings the supply up to date first

  datatype Command =
    | ToChannel(id: int, action: Action)
    | Reset
    | ClearStatus
    | QueryError

  function ParseBool(token: Token): Result<bool, ScpiError> {
    if token.text in ["1", "ON"] then Ok(true)
    else if token.text in ["0", "OFF"] then Ok(false)
    else Err(IllegalParameterValue)
  }

  function ParseSense(token: Token): Result<bool, ScpiError> {
    if token.text == "REM" then Ok(true)
    else if token.text == "LOC" then Ok(false)
    else Err(IllegalParameterValue)
  }

  function ParseRanged(token: Token, minimum: real, maximum: real): Result<real, ScpiError> {
    if token.text in ["MAX", "MAXIMUM"] then Ok(maximum)
    else if token.text in ["MIN", "MINIMUM", "DEF", "DEFAULT"] then Ok(minimum)
    else if token.number.None? then Err(InvalidCharacterData)
    else if minimum <= token.number.value <= maximum then Ok(token.number.value)
    else Err(DataOutOfRange)
  }

  // A setting changed as its parameter says, or why that is refused.
  function Adjusted(cfg: Settings, setting: Setting, arg: Token): Result<Settings, ScpiError> {
    match setting
    case Voltage =>
      var voltage :- ParseRanged(arg, CHANNEL_MIN, cfg.voltageMax);
      if voltage > cfg.ovpLevel then Err(PvAboveOvp) else Ok(cfg.(setpoint := voltage))
    case CurrentLimit =>
      var limit :- ParseRanged(arg, CHANNEL_MIN, cfg.currentMax);
      if limit > cfg.ocpLevel then Err(PcAboveOcp) else Ok(cfg.(limit := limit))
    case OcpLevel =>
      var level :- ParseRanged(arg, PROTECTION_MIN, cfg.currentMax);
      if level < cfg.limit then Err(OcpBelowPc) else Ok(cfg.(ocpLevel := level))
    case OvpLevel =>
      var level :- ParseRanged(arg, PROTECTION_MIN, cfg.voltageMax);
      if level < cfg.setpoint then Err(OvpBelowPv) else Ok(cfg.(ovpLevel := level))
    case OcpState =>
      var enable :- ParseBool(arg);
      Ok(cfg.(ocpOn := enable))
    case OvpState =>
      var enable :- ParseBool(arg);
      Ok(cfg.(ovpOn := enable))
    case RemoteSense =>
      var remote :- ParseSense(arg);
      Ok(cfg.(remoteSense := remote))
  }

  // What an action does to its channel, before the supply is brought up to date.
  function Handle(ch: Channel, action: Action): Result<Channel, ScpiError>
    requires IsHandled(action)
  {
    if action.ClearLatch? then Ok(ch.(protection := UNTRIPPED))
    else if action.EditLoad? then Ok(ch.(load := action.load))
    else if action.args == [] then Err(MissingParameter)
    else if action.SetOutput? then
      var enable :- ParseBool(action.args[0]);
      Ok(if enable then ch.(protection := UNTRIPPED, output := true) else ch.(output := false))
    else
      var settings :- Adjusted(ch.settings, action.setting, action.args[0]);
      Ok(ch.(settings := settings))
  }

  predicate IsHandled(action: Action) {
    action.Adjust? || action.SetOutput? || action.ClearLatch? || action.EditLoad?
  }

  datatype Supply = Supply(channels: seq<Channel>, errors: seq<ScpiError>)

  // The first channel with the given id; the number of channels if there is none.
  function Find(channels: seq<Channel>, id: int): (k: nat)
    ensures k <= |channels|
    ensures k < |channels| ==> channels[k].id == id
    ensures forall j :: 0 <= j < k ==> channels[j].id != id
  {
    if channels == [] || channels[0].id == id then 0
    else 1 + Find(channels[1..], id)
  }

  // The voltage a channel that is up to date measures; 0 if there is none.
  function MeasuredVoltage(s: Supply, id: int): real {
    var k := Find(s.channels, id);
    if k == |s.channels| then 0.0 else Sensed(s.channels[k].settings, s.channels[k].readings)
  }

  function UpdateAll(s: Supply): Supply
    decreases |s.channels|
  {
    if s.channels == [] then s
    else
      var last := |s.channels| - 1;
      var rest := UpdateAll(Supply(s.channels[..last], s.errors));
      var (ch, trips) := Updated(s.channels[last]);
      Supply(rest.channels + [ch], rest.errors + trips)
  }

  function Rebooted(ch: Channel): Channel {
    var built := NewChannel(ch.id, ch.load);
    built.(settings := built.settings.(
      voltageMax := ch.settings.voltageMax,
      currentMax := ch.settings.currentMax,
      remoteSense := ch.settings.remoteSense,
      ovpLevel := ch.settings.voltageMax,
      ocpLevel := ch.settings.currentMax))
  }

  function ResetAll(channels: seq<Channel>): Supply {
    Supply(seq(|channels|, i requires 0 <= i < |channels| => Rebooted(channels[i])), [])
  }

  function Push(s: Supply, e: ScpiError): Supply {
    s.(errors := s.errors + [e])
  }

  function Unknown(s: Supply, action: Action): Supply {
    if action.EditLoad? || action.EditVoltageMax? || action.EditCurrentMax? then s
    else Push(if action.Measure? then UpdateAll(s) else s, HeaderSuffixOutOfRange)
  }

  function Apply(s: Supply, k: nat, action: Action): Supply
    requires k < |s.channels|
  {
    var ch := s.channels[k];
    match action
    case Query => s
    case Measure => UpdateAll(s)
    case EditVoltageMax(value) =>
      if value < CHANNEL_MIN then s
      else ResetAll(s.channels[k := ch.(settings := ch.settings.(voltageMax := value))])
    case EditCurrentMax(value) =>
      if value < CHANNEL_MIN then s
      else ResetAll(s.channels[k := ch.(settings := ch.settings.(currentMax := value))])
    case _ =>
      match Handle(ch, action)
      case Err(e) => Push(s, e)
      case Ok(edited) => UpdateAll(Supply(s.channels[k := edited], s.errors))
  }

  /** The supply after one command, accepted or rejected. */
  function Execute(s: Supply, command: Command): Supply {
    match command
    case Reset => ResetAll(s.channels)
    case ClearStatus => s.(errors := [])
    case QueryError => if s.errors == [] then s else s.(errors := s.errors[1..])
    case ToChannel(id, action) =>
      var k := Find(s.channels, id);
      if k == |s.channels| then Unknown(s, action) else Apply(s, k, action)
  }

  function Run(s: Supply, commands: seq<Command>): Supply {
    if commands == [] then s
    else Execute(Run(s, commands[..|commands| - 1]), commands[|commands| - 1])
  }
}
