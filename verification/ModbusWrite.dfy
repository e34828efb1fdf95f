/**
 Writing registers (instro/modbus/modbus.py): the runtime validators, their
 agreement with the configuration checks, and what a write leaves to be read.
 */
module ModbusWrite {
  import opened Wrappers
  import opened ModbusWire
  import opened ModbusConfig
  import opened ModbusRead

  datatype Request = Plain(value: Value) | Key(key: string)

  datatype WriteError =
    | UnknownRegister
    | NoValueMap
    | UnknownKey
    | ReadOnly
    | BelowMin
    | AboveMax
    | WrongType
    | OutOfRange

  function Find(entries: seq<Entry>, key: string): Option<Value> {
    if entries == [] then None
    else if entries[0].key == key then Some(entries[0].value)
    else Find(entries[1..], key)
  }

  function Resolve(reg: RegisterDef, request: Request): Result<Value, WriteError> {
    match request
    case Plain(v) => Ok(v)
    case Key(key) =>
      if reg.valueMap.None? then Err(NoValueMap)
      else match Find(reg.valueMap.value, key)
           case None => Err(UnknownKey)
           case Some(v) => Ok(v)
  }

  // _validate_write_value
  function CheckValue(v: Value, reg: RegisterDef): Option<WriteError> {
    if reg.registerType.Input? || reg.registerType.Discrete? then Some(ReadOnly)
    else if reg.writeMin.Some? && Num(v) < reg.writeMin.value then Some(BelowMin)
    else if reg.writeMax.Some? && Num(v) > reg.writeMax.value then Some(AboveMax)
    else if reg.dataType.Bool? || reg.registerType.Coil? then
      if v.BoolValue? || (v.IntValue? && (v.i == 0 || v.i == 1)) then None else Some(WrongType)
    else if IsInteger(reg.dataType) then
      if v.BoolValue? then Some(WrongType)
      else if reg.scale.None? && v.FloatValue? && v.r != Trunc(v.r) as real then Some(WrongType)
      else if reg.scale.None? && !(RangeMin(reg.dataType) <= Trunc(Num(v)) <= RangeMax(reg.dataType)) then Some(OutOfRange)
      else None
    else if v.BoolValue? then Some(WrongType)
    else None
  }

  // _validate_raw_value_range
  function CheckRaw(raw: Value, reg: RegisterDef): Result<Value, WriteError> {
    if !IsInteger(reg.dataType) then Ok(raw)
    else if reg.scale.Some? && raw.FloatValue? then
      var rounded := Round(raw.r);
      if !(-0.000001 <= raw.r - rounded as real <= 0.000001) then Err(WrongType)
      else if !(RangeMin(reg.dataType) <= rounded <= RangeMax(reg.dataType)) then Err(OutOfRange)
      else Ok(IntValue(rounded))
    else if !(RangeMin(reg.dataType) <= Trunc(Num(raw)) <= RangeMax(reg.dataType)) then Err(OutOfRange)
    else Ok(raw)
  }

  function Unscaled(v: Value, reg: RegisterDef): Value
    requires FieldsOk(reg)
  {
    if reg.scale.Some? then FloatValue(ToRaw(reg.scale.value, Num(v))) else v
  }

  // The value that goes on the wire, or why the write is refused.
  function Prepare(reg: RegisterDef, v: Value): Result<Value, WriteError>
    requires FieldsOk(reg)
  {
    match CheckValue(v, reg)
    case Some(e) => Err(e)
    case None => CheckRaw(Unscaled(v, reg), reg)
  }

  lemma PreparedIsEncodable(reg: RegisterDef, v: Value)
    requires FieldsOk(reg) && Prepare(reg, v).Ok?
    ensures Encodable(Prepare(reg, v).value, reg.dataType)
    ensures IsInteger(reg.dataType) && !reg.registerType.Coil? && reg.scale.None? ==>
              WireInt(Prepare(reg, v).value) as real == Num(v)
  {}

  // ---------------------------------------------------------------- configuration and runtime agree

  lemma UnscaledEntryAgrees(reg: RegisterDef, v: Value)
    requires FieldsOk(reg) && reg.registerType.Holding?
    requires IsInteger(reg.dataType) && reg.scale.None? && !v.BoolValue?
    ensures EntryOk(reg, v) <==> Prepare(reg, v).Ok?
  {
    if v.FloatValue? && v.r == Trunc(v.r) as real {
      IntegralRounds(v.r);
    }
    if v.IntValue? {
      IntegralRounds(v.i as real);
    }
  }

  lemma ScaledEntryAgrees(reg: RegisterDef, v: Value)
    requires FieldsOk(reg) && reg.registerType.Holding?
    requires IsInteger(reg.dataType) && reg.scale.Some? && !v.BoolValue?
    ensures EntryOk(reg, v) <==> Prepare(reg, v).Ok?
  {}

  /**
   A write_value_map value passes the configuration's own checks exactly when
   the runtime accepts writing it: for every data type, scale and limits.
   Booleans are integers by the time the configuration is checked.
   */
  lemma MapEntryAgrees(reg: RegisterDef, v: Value)
    requires FieldsOk(reg) && reg.registerType.Holding?
    requires v.BoolValue? ==> reg.dataType.Bool?
    ensures EntryOk(reg, v) <==> Prepare(reg, v).Ok?
  {
    if IsInteger(reg.dataType) {
      if reg.scale.None? {
        UnscaledEntryAgrees(reg, v);
      } else {
        ScaledEntryAgrees(reg, v);
      }
    }
  }

  lemma IntegralRounds(r: real)
    requires r == Trunc(r) as real
    ensures Round(r) == Trunc(r)
  {}

  /** Hence every key of an accepted register's value map can be written. */
  lemma MappedKeysAreWritable(reg: RegisterDef, key: string)
    requires RegisterOk(reg, true) && reg.valueMap.Some?
    requires forall e :: e in reg.valueMap.value ==> !e.value.BoolValue?
    requires Resolve(reg, Key(key)).Ok?
    ensures Prepare(reg, Resolve(reg, Key(key)).value).Ok?
  {
    var v := Resolve(reg, Key(key)).value;
    FindsKey(reg.valueMap.value, key);
    MapEntryAgrees(reg, v);
  }

  /** A key of the map stands for its value; any other is unknown, and without a map every key is refused. */
  lemma {:induction false} KeyResolves(reg: RegisterDef, e: Entry, key: string)
    ensures reg.valueMap.None? ==> Resolve(reg, Key(key)) == Err(NoValueMap)
    ensures reg.valueMap.Some? && (forall d :: d in reg.valueMap.value ==> d.key != key) ==>
              Resolve(reg, Key(key)) == Err(UnknownKey)
    ensures reg.valueMap.Some? && e in reg.valueMap.value
            && (forall d :: d in reg.valueMap.value && d.key == e.key ==> d == e) ==>
              Resolve(reg, Key(e.key)) == Ok(e.value)
  {
    if reg.valueMap.Some? {
      FindsKey(reg.valueMap.value, key);
      FindsKey(reg.valueMap.value, e.key);
    }
  }

  lemma {:induction false} FindsKey(entries: seq<Entry>, key: string)
    ensures Find(entries, key).Some? <==> exists e :: e in entries && e.key == key
    ensures Find(entries, key).Some? ==>
              exists e :: e in entries && e.key == key && e.value == Find(entries, key).value
  {
    if entries != [] {
      assert entries == [entries[0]] + entries[1..];
      FindsKey(entries[1..], key);
      if entries[0].key == key {
        assert entries[0] in entries;
      }
    }
  }

  // ---------------------------------------------------------------- what is accepted, and what refused how

  // The integer `k` is what the value comes to in raw units, to a millionth under a scale.
  predicate ComesTo(reg: RegisterDef, v: Value, k: int)
    requires FieldsOk(reg)
  {
    match reg.scale
    case None => Num(v) == k as real
    case Some(s) => -0.000001 <= (Num(v) - s.offset) / s.gain - k as real <= 0.000001
  }

  predicate Fits(t: DataType, k: int) {
    match t
    case UInt16 => 0 <= k <= 65535
    case Int16 => -32768 <= k <= 32767
    case UInt32 => 0 <= k <= 4294967295
    case Int32 => -2147483648 <= k <= 2147483647
    case UInt64 => 0 <= k <= 18446744073709551615
    case Int64 => -9223372036854775808 <= k <= 9223372036854775807
    case _ => true
  }

  // The limits and the table allow the write.
  predicate Allowed(reg: RegisterDef, v: Value) {
    && (reg.registerType.Holding? || reg.registerType.Coil?)
    && (reg.writeMin.Some? ==> reg.writeMin.value <= Num(v))
    && (reg.writeMax.Some? ==> Num(v) <= reg.writeMax.value)
  }

  // The value is of a kind the data type takes.
  ghost predicate RightKind(reg: RegisterDef, v: Value)
    requires FieldsOk(reg)
  {
    match reg.dataType
    case Bool => v.BoolValue? || v == IntValue(0) || v == IntValue(1)
    case Float32 | Float64 => !v.BoolValue?
    case _ => !v.BoolValue? && exists k :: ComesTo(reg, v, k)
  }

  /** A write to a read-only table is refused first, then one past the lower and one past the upper limit. */
  lemma WhatIsRefusedFirst(reg: RegisterDef, v: Value)
    requires RegisterOk(reg, true)
    ensures var below := reg.writeMin.Some? && Num(v) < reg.writeMin.value;
            var above := reg.writeMax.Some? && Num(v) > reg.writeMax.value;
            match reg.registerType
            case Input | Discrete => Prepare(reg, v) == Err(ReadOnly)
            case Holding | Coil =>
              && (below ==> Prepare(reg, v) == Err(BelowMin))
              && (!below && above ==> Prepare(reg, v) == Err(AboveMax))
  {}

  /**
   Of the writes that table and limits allow, exactly those of the right kind
   are accepted whose value, for an integer type, comes to one that fits.
   */
  lemma WhatIsAccepted(reg: RegisterDef, v: Value)
    requires RegisterOk(reg, true) && Allowed(reg, v)
    ensures !RightKind(reg, v) ==> Prepare(reg, v) == Err(WrongType)
    ensures RightKind(reg, v) && !IsInteger(reg.dataType) ==> Prepare(reg, v).Ok?
    ensures RightKind(reg, v) && IsInteger(reg.dataType) ==>
              forall k :: ComesTo(reg, v, k) ==>
                if Fits(reg.dataType, k) then Prepare(reg, v).Ok? else Prepare(reg, v) == Err(OutOfRange)
  {
    if IsInteger(reg.dataType) && !v.BoolValue? {
      IntegerPrepared(reg, v);
      forall k | ComesTo(reg, v, k) ensures k == Round(Num(Unscaled(v, reg))) {
        OnlyOne(Num(Unscaled(v, reg)), k);
      }
      FitsIsInRange(reg.dataType, Round(Num(Unscaled(v, reg))));
    }
  }

  lemma FitsIsInRange(t: DataType, k: int)
    requires IsInteger(t)
    ensures Fits(t, k) <==> RangeMin(t) <= k <= RangeMax(t)
  {
    IntegerRanges();
  }

  // Only one integer is within a millionth.
  lemma OnlyOne(x: real, k: int)
    requires -0.000001 <= x - k as real <= 0.000001
    ensures k == Round(x)
  {}

  lemma IntegerPrepared(reg: RegisterDef, v: Value)
    requires FieldsOk(reg) && Allowed(reg, v) && IsInteger(reg.dataType) && reg.registerType.Holding? && !v.BoolValue?
    ensures (exists k :: ComesTo(reg, v, k)) <==> ComesTo(reg, v, Round(Num(Unscaled(v, reg))))
    ensures var k := Round(Num(Unscaled(v, reg)));
            Prepare(reg, v).Ok? <==> ComesTo(reg, v, k) && RangeMin(reg.dataType) <= k <= RangeMax(reg.dataType)
    ensures !ComesTo(reg, v, Round(Num(Unscaled(v, reg)))) ==> Prepare(reg, v) == Err(WrongType)
    ensures var k := Round(Num(Unscaled(v, reg)));
            ComesTo(reg, v, k) && !(RangeMin(reg.dataType) <= k <= RangeMax(reg.dataType)) ==>
              Prepare(reg, v) == Err(OutOfRange)
  {
    var x := Num(Unscaled(v, reg));
    if k :| ComesTo(reg, v, k) {
      OnlyOne(x, k);
    }
    if reg.scale.None? && ComesTo(reg, v, Round(x)) {
      assert Trunc(x) == Round(x);
    }
  }

  // ---------------------------------------------------------------- limits

  lemma RawBetween(s: LinearScale, lo: real, x: real, hi: real)
    requires s.gain != 0.0 && lo <= x <= hi
    ensures s.gain > 0.0 ==> ToRaw(s, lo) <= ToRaw(s, x) <= ToRaw(s, hi)
    ensures s.gain < 0.0 ==> ToRaw(s, hi) <= ToRaw(s, x) <= ToRaw(s, lo)
  {
    QuotientMonotone(lo - s.offset, x - s.offset, s.gain);
    QuotientMonotone(x - s.offset, hi - s.offset, s.gain);
  }

  lemma QuotientMonotone(a: real, b: real, g: real)
    requires a <= b && g != 0.0
    ensures g > 0.0 ==> a / g <= b / g
    ensures g < 0.0 ==> b / g <= a / g
  {
    var p, q := a / g, b / g;
    assert p * g == a && q * g == b;
    assert (q - p) * g == q * g - p * g;
    FactorSign(q - p, g);
  }

  lemma FactorSign(d: real, g: real)
    requires d * g >= 0.0
    ensures g > 0.0 ==> d >= 0.0
    ensures g < 0.0 ==> d <= 0.0
  {}

  /**
   An accepted integer register with both limits configured never reports a
   data-type range error for a value between them, whatever the gain's sign.
   */
  lemma LimitsKeepRange(reg: RegisterDef, v: Value)
    requires RegisterOk(reg, true) && IsInteger(reg.dataType)
    requires reg.writeMin.Some? && reg.writeMax.Some? && WithinLimits(Num(v), reg)
    ensures Prepare(reg, v) != Err(OutOfRange)
  {
    var lo, hi := reg.writeMin.value, reg.writeMax.value;
    var min, max := RangeMin(reg.dataType), RangeMax(reg.dataType);
    if reg.scale.Some? {
      RawBetween(reg.scale.value, lo, Num(v), hi);
      RoundWithin(ToRaw(reg.scale.value, Num(v)), min, max);
    } else {
      RoundWithin(Num(v), min, max);
    }
  }

  // A physical value between those of two raw values; a negative gain turns them round.
  predicate PhysicalBetween(s: LinearScale, x: real, min: real, max: real) {
    if s.gain > 0.0 then s.offset + s.gain * min <= x <= s.offset + s.gain * max
    else s.offset + s.gain * max <= x <= s.offset + s.gain * min
  }

  /**
   Which limits are accepted on an integer register: those that lie between
   the physical values of the least and the greatest raw value. On any other
   register all are.
   */
  lemma LimitRange(reg: RegisterDef, x: real)
    requires FieldsOk(reg)
    ensures LimitOk(reg, None)
    ensures !IsInteger(reg.dataType) ==> LimitOk(reg, Some(x))
    ensures var min, max := RangeMin(reg.dataType) as real, RangeMax(reg.dataType) as real;
            IsInteger(reg.dataType) ==>
              (LimitOk(reg, Some(x)) <==>
                 match reg.scale
                 case None => min <= x <= max
                 case Some(s) => PhysicalBetween(s, x, min, max))
  {
    var min, max := RangeMin(reg.dataType) as real, RangeMax(reg.dataType) as real;
    if IsInteger(reg.dataType) && reg.scale.Some? {
      RawWithin(reg.scale.value, x, min, max);
      assert LimitOk(reg, Some(x)) <==> min <= ToRaw(reg.scale.value, x) <= max;
    }
  }

  lemma RawWithin(s: LinearScale, x: real, min: real, max: real)
    requires s.gain != 0.0
    ensures min <= ToRaw(s, x) <= max <==> PhysicalBetween(s, x, min, max)
  {
    RawAgainst(s, x, min);
    RawAgainst(s, x, max);
  }

  lemma RawAgainst(s: LinearScale, x: real, raw: real)
    requires s.gain != 0.0
    ensures s.gain > 0.0 ==> (ToRaw(s, x) <= raw <==> x <= s.offset + s.gain * raw)
                             && (raw <= ToRaw(s, x) <==> s.offset + s.gain * raw <= x)
    ensures s.gain < 0.0 ==> (ToRaw(s, x) <= raw <==> s.offset + s.gain * raw <= x)
                             && (raw <= ToRaw(s, x) <==> x <= s.offset + s.gain * raw)
  {
    var d := ToRaw(s, x) - raw;
    assert ToRaw(s, x) * s.gain == x - s.offset;
    assert d * s.gain == ToRaw(s, x) * s.gain - s.gain * raw;
    if d * s.gain >= 0.0 {
      FactorSign(d, s.gain);
    }
    if d * s.gain <= 0.0 {
      assert (-d) * s.gain == -(d * s.gain);
      FactorSign(-d, s.gain);
    }
  }

  // No value the limits allow is refused for the data type's range.
  ghost predicate RangeIsKept(reg: RegisterDef)
    requires FieldsOk(reg)
  {
    forall v :: WithinLimits(Num(v), reg) ==> Prepare(reg, v) != Err(OutOfRange)
  }

  // The value whose raw form is `raw`, in the units a caller writes.
  function Physical(reg: RegisterDef, raw: int): Value {
    if reg.scale.Some? then FloatValue(ToPhysical(reg.scale.value, raw as real)) else IntValue(raw)
  }

  lemma PhysicalIsRefused(reg: RegisterDef, raw: int)
    requires FieldsOk(reg) && reg.registerType.Holding? && IsInteger(reg.dataType)
    requires !(RangeMin(reg.dataType) <= raw <= RangeMax(reg.dataType)) && WithinLimits(Num(Physical(reg, raw)), reg)
    ensures Prepare(reg, Physical(reg, raw)) == Err(OutOfRange)
  {
    if reg.scale.Some? {
      ScaleForth(reg.scale.value, raw as real);
      assert Round(raw as real) == raw;
    }
  }

  lemma ScaleForth(s: LinearScale, raw: real)
    requires s.gain != 0.0
    ensures ToRaw(s, ToPhysical(s, raw)) == raw
  {
    assert (s.gain * raw) / s.gain == raw;
  }

  // A limit stays on its own side of any raw value outside the range.
  lemma LimitAgainst(reg: RegisterDef, limit: real, raw: int)
    requires FieldsOk(reg) && IsInteger(reg.dataType) && LimitOk(reg, Some(limit))
    ensures var below := reg.scale.Some? && reg.scale.value.gain < 0.0;
            && (raw > RangeMax(reg.dataType) ==> if below then Num(Physical(reg, raw)) <= limit else limit <= Num(Physical(reg, raw)))
            && (raw < RangeMin(reg.dataType) ==> if below then limit <= Num(Physical(reg, raw)) else Num(Physical(reg, raw)) <= limit)
  {
    if reg.scale.Some? {
      var s := reg.scale.value;
      var x := Num(Physical(reg, raw));
      ScaleForth(s, raw as real);
      if x < limit {
        RawBetween(s, x, x, limit);
      } else {
        RawBetween(s, limit, x, x);
      }
    }
  }

  /**
   For an accepted integer register the limits keep every write in the data
   type's range exactly when both are configured, whatever the gain's sign.
   */
  lemma BothLimitsAreNeeded(reg: RegisterDef)
    requires RegisterOk(reg, true) && reg.registerType.Holding? && IsInteger(reg.dataType)
    ensures RangeIsKept(reg) <==> reg.writeMin.Some? && reg.writeMax.Some?
  {
    if reg.writeMin.Some? && reg.writeMax.Some? {
      forall v | WithinLimits(Num(v), reg) ensures Prepare(reg, v) != Err(OutOfRange) {
        LimitsKeepRange(reg, v);
      }
    } else {
      var above := reg.writeMax.None? == !(reg.scale.Some? && reg.scale.value.gain < 0.0);
      var raw := if above then RangeMax(reg.dataType) + 1 else RangeMin(reg.dataType) - 1;
      OpenSide(reg, raw);
      PhysicalIsRefused(reg, raw);
    }
  }

  // With at most one limit, the raw value past the range on the open side is within it.
  lemma OpenSide(reg: RegisterDef, raw: int)
    requires FieldsOk(reg) && IsInteger(reg.dataType) && LimitOk(reg, reg.writeMin) && LimitOk(reg, reg.writeMax)
    requires reg.writeMin.None? || reg.writeMax.None?
    requires var above := reg.writeMax.None? == !(reg.scale.Some? && reg.scale.value.gain < 0.0);
             if above then raw > RangeMax(reg.dataType) else raw < RangeMin(reg.dataType)
    ensures WithinLimits(Num(Physical(reg, raw)), reg)
  {
    if reg.writeMin.Some? {
      LimitAgainst(reg, reg.writeMin.value, raw);
    }
    if reg.writeMax.Some? {
      LimitAgainst(reg, reg.writeMax.value, raw);
    }
  }

  // ---------------------------------------------------------------- what a write leaves behind

  function Patch<T>(table: seq<T>, at: int, items: seq<T>): (r: seq<T>)
    requires 0 <= at && at + |items| <= |table|
    ensures |r| == |table|
    ensures r[at..at + |items|] == items
    ensures forall k :: 0 <= k < |table| && (k < at || k >= at + |items|) ==> r[k] == table[k]
  {
    table[..at] + items + table[at + |items|..]
  }

  function Store(m: Memory, reg: RegisterDef, wire: Value, f: FloatFormat): (m': Memory)
    requires MemoryOk(m) && RegisterOk(reg, true) && FormatOk(f)
    requires reg.registerType.Holding? || reg.registerType.Coil?
    requires Encodable(wire, reg.dataType)
    ensures MemoryOk(m')
  {
    if reg.registerType.Coil? then m.(coils := Patch(m.coils, reg.address, [Num(wire) != 0.0]))
    else
      var words := EncodeValue(wire, reg.dataType, reg.swaps, f);
      var table := Patch(m.holding, reg.address, words);
      PatchKeepsWords(m.holding, reg.address, words);
      m.(holding := table)
  }

  lemma PatchKeepsWords(table: seq<int>, at: int, words: seq<int>)
    requires 0 <= at && at + |words| <= |table| && Words(table) && Words(words)
    ensures Words(Patch(table, at, words))
  {
    var r := Patch(table, at, words);
    forall k | 0 <= k < |r| ensures 0 <= r[k] < 0x1_0000 {
      if at <= k < at + |words| {
        assert r[at..at + |words|][k - at] == r[k];
      }
    }
  }

  /** The device's tables after a write, or why it was refused. */
  function Written(m: Memory, reg: RegisterDef, request: Request, f: FloatFormat): Result<Memory, WriteError>
    requires MemoryOk(m) && RegisterOk(reg, true) && FormatOk(f)
  {
    var v :- Resolve(reg, request);
    var wire :- Prepare(reg, v);
    PreparedIsEncodable(reg, v);
    Ok(Store(m, reg, wire, f))
  }

  lemma StoredIsRead(m: Memory, reg: RegisterDef, wire: Value, f: FloatFormat)
    requires MemoryOk(m) && RegisterOk(reg, true) && FormatOk(f)
    requires reg.registerType.Holding? && Encodable(wire, reg.dataType)
    ensures ReadRaw(Store(m, reg, wire, f), reg, f)
         == Ok(DecodeRegisters(EncodeValue(wire, reg.dataType, reg.swaps, f), reg.dataType, reg.swaps, f))
  {}

  function Difference(a: real, b: real): real {
    if a < b then b - a else a - b
  }

  function Magnitude(a: real): real {
    Difference(a, 0.0)
  }

  lemma ScaleBack(s: LinearScale, x: real, raw: int)
    requires s.gain != 0.0 && -0.000001 <= ToRaw(s, x) - raw as real <= 0.000001
    ensures Difference(ToPhysical(s, raw as real), x) <= 0.000001 * Magnitude(s.gain)
  {
    var d := ToRaw(s, x) - raw as real;
    assert ToRaw(s, x) * s.gain == x - s.offset;
    assert s.gain * (ToRaw(s, x) - d) == s.gain * ToRaw(s, x) - s.gain * d;
    assert x - ToPhysical(s, raw as real) == s.gain * d;
    ProductBound(s.gain, d, 0.000001);
  }

  lemma ProductBound(g: real, d: real, bound: real)
    requires -bound <= d <= bound
    ensures -(bound * Magnitude(g)) <= g * d <= bound * Magnitude(g)
  {
    var m := Magnitude(g);
    assert m * (bound - d) == bound * m - m * d && m * (bound + d) == bound * m + m * d;
    NonNegative(m, bound - d);
    NonNegative(m, bound + d);
    assert g >= 0.0 ==> g * d == m * d;
    assert g < 0.0 ==> g * d == -(m * d);
  }

  lemma NonNegative(a: real, b: real)
    requires a >= 0.0 && b >= 0.0
    ensures a * b >= 0.0
  {}

  lemma PreparedIsNear(reg: RegisterDef, v: Value)
    requires FieldsOk(reg) && IsInteger(reg.dataType) && reg.scale.Some? && Prepare(reg, v).Ok?
    ensures -0.000001 <= ToRaw(reg.scale.value, Num(v)) - WireInt(Prepare(reg, v).value) as real <= 0.000001
  {}

  /**
   An accepted write to an integer register reads back: the very number
   without a scale, and within a millionth of the gain's size with one.
   */
  lemma WriteReadsBack(m: Memory, reg: RegisterDef, v: Value, f: FloatFormat)
    requires MemoryOk(m) && RegisterOk(reg, true) && FormatOk(f)
    requires reg.registerType.Holding? && IsInteger(reg.dataType)
    requires Written(m, reg, Plain(v), f).Ok?
    ensures var raw := ReadRaw(Written(m, reg, Plain(v), f).value, reg, f);
            && raw.Ok?
            && var back := Num(ApplyScaling(raw.value, reg));
               if reg.scale.None? then back == Num(v)
               else Difference(back, Num(v)) <= 0.000001 * Magnitude(reg.scale.value.gain)
  {
    var wire := Prepare(reg, v).value;
    PreparedIsEncodable(reg, v);
    StoredIsRead(m, reg, wire, f);
    WireRoundTrip(wire, reg.dataType, reg.swaps, f);
    if reg.scale.Some? {
      PreparedIsNear(reg, v);
      ScaleBack(reg.scale.value, Num(v), WireInt(wire));
    }
  }

  /**
   An accepted write to a float register reads back exactly if the format can
   hold its raw value: for either width, every swap and every scale.
   */
  lemma FloatReadsBackIff(m: Memory, reg: RegisterDef, v: Value, f: FloatFormat)
    requires MemoryOk(m) && RegisterOk(reg, true) && FormatOk(f)
    requires reg.registerType.Holding? && (reg.dataType.Float32? || reg.dataType.Float64?)
    requires Written(m, reg, Plain(v), f).Ok?
    ensures var n := if reg.dataType.Float32? then 4 else 8;
            var x := match reg.scale case None => Num(v) case Some(s) => (Num(v) - s.offset) / s.gain;
            var raw := ReadRaw(Written(m, reg, Plain(v), f).value, reg, f);
            && raw.Ok? && raw.value == FloatValue(f.decode(f.encode(n, x)))
            && (Num(ApplyScaling(raw.value, reg)) == Num(v) <==> f.decode(f.encode(n, x)) == x)
  {
    var n := if reg.dataType.Float32? then 4 else 8;
    var wire := Prepare(reg, v).value;
    PreparedIsEncodable(reg, v);
    StoredIsRead(m, reg, wire, f);
    assert |f.encode(n, Num(wire))| == n;
    SendRoundTrip(f.encode(n, Num(wire)), reg.swaps);
    if reg.scale.Some? {
      ScaleInverts(reg.scale.value, Num(v), f.decode(f.encode(n, Num(wire))));
    }
  }

  lemma ScaleInverts(s: LinearScale, x: real, raw: real)
    requires s.gain != 0.0
    ensures ToPhysical(s, raw) == x <==> raw == ToRaw(s, x)
  {
    assert ToRaw(s, x) * s.gain == x - s.offset;
    if ToPhysical(s, raw) == x {
      assert (s.gain * raw) / s.gain == raw;
    }
  }

  /** An accepted write to a coil, or to an unscaled boolean holding register, reads back as written. */
  lemma BitReadsBack(m: Memory, reg: RegisterDef, v: Value, f: FloatFormat)
    requires MemoryOk(m) && RegisterOk(reg, true) && FormatOk(f)
    requires reg.dataType.Bool? && reg.scale.None?
    requires Written(m, reg, Plain(v), f).Ok?
    ensures var raw := ReadRaw(Written(m, reg, Plain(v), f).value, reg, f);
            raw.Ok? && Num(ApplyScaling(raw.value, reg)) == Num(v)
  {
    var wire := Prepare(reg, v).value;
    if reg.registerType.Holding? {
      StoredIsRead(m, reg, wire, f);
    } else {
      var after := Patch(m.coils, reg.address, [Num(wire) != 0.0]);
      assert after[reg.address..reg.address + 1] == [Num(wire) != 0.0];
    }
  }

  /**
   A scale is accepted on a boolean holding register, but scaling then applies
   to reads of a bit that was stored as set or clear: such a write reads back
   as written exactly when the value is what a clear or a set bit scales to.
   */
  lemma ScaledBoolReadsBackIff(m: Memory, reg: RegisterDef, v: Value, f: FloatFormat)
    requires MemoryOk(m) && RegisterOk(reg, true) && FormatOk(f)
    requires reg.registerType.Holding? && reg.dataType.Bool? && reg.scale.Some?
    requires Written(m, reg, Plain(v), f).Ok?
    ensures var s := reg.scale.value;
            var raw := ReadRaw(Written(m, reg, Plain(v), f).value, reg, f);
            && raw.Ok?
            && (Num(ApplyScaling(raw.value, reg)) == Num(v) <==> Num(v) == s.offset || Num(v) == s.offset + s.gain)
  {
    var s := reg.scale.value;
    var x := Num(v);
    var wire := Prepare(reg, v).value;
    StoredIsRead(m, reg, wire, f);
    assert ToRaw(s, x) * s.gain == x - s.offset;
    assert wire == FloatValue(ToRaw(s, x));
  }

  /** For instance, a gain of two turns a written 1 into a 2. */
  lemma ScaledBoolCanDrift(m: Memory, f: FloatFormat)
    requires MemoryOk(m) && FormatOk(f)
    ensures var reg := RegisterDef("b", 0, Holding, Bool, Swaps(false, false, false), Some(LinearScale(2.0, 0.0)),
                                   None, true, None, None, None, None);
            && RegisterOk(reg, true)
            && Written(m, reg, Plain(IntValue(1)), f).Ok?
            && var raw := ReadRaw(Written(m, reg, Plain(IntValue(1)), f).value, reg, f);
               raw.Ok? && ApplyScaling(raw.value, reg) == FloatValue(2.0)
  {
    var reg := RegisterDef("b", 0, Holding, Bool, Swaps(false, false, false), Some(LinearScale(2.0, 0.0)),
                           None, true, None, None, None, None);
    assert RegisterOk(reg, true);
    StoredIsRead(m, reg, Prepare(reg, IntValue(1)).value, f);
  }

  lemma PatchElsewhere<T>(table: seq<T>, at: int, items: seq<T>, start: int, n: nat)
    requires 0 <= at && at + |items| <= |table| && 0 <= start && start + n <= |table|
    requires at + |items| <= start || start + n <= at
    ensures Patch(table, at, items)[start..start + n] == table[start..start + n]
  {}

  lemma StoreHoldingElsewhere(m: Memory, reg: RegisterDef, other: RegisterDef, wire: Value, f: FloatFormat)
    requires MemoryOk(m) && RegisterOk(reg, true) && RegisterOk(other, true) && FormatOk(f)
    requires reg.registerType.Holding? && other.registerType.Holding?
    requires Encodable(wire, reg.dataType) && Disjoint(reg, other)
    ensures ReadRaw(Store(m, reg, wire, f), other, f) == ReadRaw(m, other, f)
  {
    PatchElsewhere(m.holding, reg.address, EncodeValue(wire, reg.dataType, reg.swaps, f),
                   other.address, RegisterCount(other.dataType));
  }

  lemma StoreCoilElsewhere(m: Memory, reg: RegisterDef, other: RegisterDef, wire: Value, f: FloatFormat)
    requires MemoryOk(m) && RegisterOk(reg, true) && RegisterOk(other, true) && FormatOk(f)
    requires reg.registerType.Coil? && other.registerType.Coil? && Disjoint(reg, other)
    requires Encodable(wire, reg.dataType)
    ensures ReadRaw(Store(m, reg, wire, f), other, f) == ReadRaw(m, other, f)
  {
    PatchElsewhere(m.coils, reg.address, [Num(wire) != 0.0], other.address, 1);
  }

  lemma StoreOtherTable(m: Memory, reg: RegisterDef, other: RegisterDef, wire: Value, f: FloatFormat)
    requires MemoryOk(m) && RegisterOk(reg, true) && FormatOk(f)
    requires reg.registerType.Holding? || reg.registerType.Coil?
    requires Encodable(wire, reg.dataType) && reg.registerType != other.registerType
    ensures ReadRaw(Store(m, reg, wire, f), other, f) == ReadRaw(m, other, f)
  {}

  lemma StoreElsewhere(m: Memory, reg: RegisterDef, other: RegisterDef, wire: Value, f: FloatFormat)
    requires MemoryOk(m) && RegisterOk(reg, true) && RegisterOk(other, true) && FormatOk(f)
    requires reg.registerType.Holding? || reg.registerType.Coil?
    requires Encodable(wire, reg.dataType) && Disjoint(reg, other)
    ensures ReadRaw(Store(m, reg, wire, f), other, f) == ReadRaw(m, other, f)
  {
    if other.registerType != reg.registerType {
      StoreOtherTable(m, reg, other, wire, f);
    } else if reg.registerType.Coil? {
      StoreCoilElsewhere(m, reg, other, wire, f);
    } else {
      StoreHoldingElsewhere(m, reg, other, wire, f);
    }
  }

  lemma DistinctAreDisjoint(regs: seq<RegisterDef>, x: RegisterDef, y: RegisterDef)
    requires NoOverlap(regs) && x in regs && y in regs && x != y
    ensures Disjoint(x, y)
  {
    var i :| 0 <= i < |regs| && regs[i] == x;
    var j :| 0 <= j < |regs| && regs[j] == y;
    if i < j {
      assert Disjoint(regs[i], regs[j]);
    } else {
      assert Disjoint(regs[j], regs[i]);
    }
  }

  /** In an accepted configuration a write changes what no other register reads. */
  lemma OthersUnchanged(m: Memory, regs: seq<RegisterDef>, reg: RegisterDef, other: RegisterDef, request: Request, f: FloatFormat)
    requires MemoryOk(m) && Accepted(regs) && FormatOk(f)
    requires reg in regs && other in regs && reg != other
    requires Written(m, reg, request, f).Ok?
    ensures ReadRaw(Written(m, reg, request, f).value, other, f) == ReadRaw(m, other, f)
  {
    DistinctAreDisjoint(regs, reg, other);
    var v := Resolve(reg, request).value;
    PreparedIsEncodable(reg, v);
    StoreElsewhere(m, reg, other, Prepare(reg, v).value, f);
  }

  // ---------------------------------------------------------------- the device

  class ModbusDevice {
    const registers: seq<RegisterDef>
    const format: FloatFormat
    var memory: Memory

    ghost predicate Valid()
      reads this
    {
      Accepted(registers) && FormatOk(format) && MemoryOk(memory)
    }

    constructor (registers: seq<RegisterDef>, format: FloatFormat, memory: Memory)
      requires Accepted(registers) && FormatOk(format) && MemoryOk(memory)
      ensures Valid() && this.registers == registers && this.format == format && this.memory == memory
    {
      this.registers := registers;
      this.format := format;
      this.memory := memory;
    }

    method Lookup(alias: string) returns (r: Option<RegisterDef>)
      requires Valid()
      ensures r.Some? ==> r.value in registers && r.value.name == alias
      ensures r.None? ==> forall reg :: reg in registers ==> reg.name != alias
    {
      var i := 0;
      while i < |registers|
        invariant i <= |registers|
        invariant forall k :: 0 <= k < i ==> registers[k].name != alias
      {
        if registers[i].name == alias {
          return Some(registers[i]);
        }
        i := i + 1;
      }
      r := None;
    }

    /** The channels of one register, or None for a name no register has. */
    method Read(prefix: string, alias: string) returns (r: Option<Result<Channels, ReadError>>)
      requires Valid()
      ensures r.None? <==> forall reg :: reg in registers ==> reg.name != alias
      ensures forall reg :: reg in registers && reg.name == alias ==>
                r == Some(ModbusRead.Read(prefix, memory, reg, format))
    {
      var found := Lookup(alias);
      if found.None? {
        return None;
      }
      var reg := found.value;
      forall other | other in registers && other.name == alias ensures other == reg {
        DifferentNames(registers, other, reg);
      }
      var raw := ReadRaw(memory, reg, format);
      if raw.Err? {
        return Some(Err(raw.error));
      }
      var channels := BuildRegisterChannels(prefix, reg, raw.value, ApplyScaling(raw.value, reg));
      r := Some(Ok(channels));
    }

    /** One transaction for a whole group, or None for a group no register names. */
    method ReadGroup(prefix: string, group: string) returns (r: Option<Result<Channels, ReadError>>)
      requires Valid()
      ensures r.None? <==> group !in Groups(registers)
      ensures r.Some? ==> GroupOf(registers, group) != []
                          && r.value == ModbusRead.ReadGroup(prefix, memory, GroupOf(registers, group), format)
    {
      var index := BuildGroupIndex(registers);
      if group !in index {
        return None;
      }
      GroupNotEmpty(registers, group);
      var channels := ReadGroupOnce(prefix, memory, index[group], format);
      r := Some(channels);
    }

    /** The error, if any; on success the register named `alias` holds the value. */
    method Write(alias: string, request: Request) returns (error: Option<WriteError>)
      requires Valid()
      modifies this
      ensures Valid()
      ensures error == Some(UnknownRegister) <==> forall reg :: reg in registers ==> reg.name != alias
      ensures forall reg :: reg in registers && reg.name == alias ==>
                match Written(old(memory), reg, request, format)
                case Err(e) => error == Some(e) && memory == old(memory)
                case Ok(after) => error == None && memory == after
      ensures error == Some(UnknownRegister) ==> memory == old(memory)
    {
      var found := Lookup(alias);
      if found.None? {
        return Some(UnknownRegister);
      }
      var reg := found.value;
      forall r | r in registers && r.name == alias ensures r == reg {
        DifferentNames(registers, r, reg);
      }
      var value := Resolve(reg, request);
      if value.Err? {
        return Some(value.error);
      }
      var refused := CheckValue(value.value, reg);
      if refused.Some? {
        return refused;
      }
      var raw := Unscaled(value.value, reg);
      var wire := CheckRaw(raw, reg);
      if wire.Err? {
        return Some(wire.error);
      }
      PreparedIsEncodable(reg, value.value);
      memory := Store(memory, reg, wire.value, format);
      error := None;
    }
  }
}
