/**
 Reading registers (instro/modbus/modbus.py): one at a time, or a whole group
 in a single transaction that is then sliced; and who polls what.
 */
module ModbusRead {
  import opened Wrappers
  import B = Bits
  import opened ModbusWire
  import opened ModbusConfig

  // The four tables of the device on the line.
  datatype Memory = Memory(holding: seq<int>, input: seq<int>, coils: seq<bool>, discretes: seq<bool>)

  datatype ReadError = IllegalRequest | ShortSlice

  type Channels = map<string, Value>

  predicate MemoryOk(m: Memory) {
    && |m.holding| == |m.input| == |m.coils| == |m.discretes| == ADDRESS_SPACE
    && Words(m.holding) && Words(m.input)
  }

  // A request the protocol allows: within the per-read limit and the address space.
  predicate Legal(t: RegisterType, start: int, count: int) {
    1 <= count <= ReadLimit(t) && 0 <= start && start + count <= ADDRESS_SPACE
  }

  function WordTable(m: Memory, t: RegisterType): (table: seq<int>)
    requires MemoryOk(m)
    ensures |table| == ADDRESS_SPACE
  {
    if t.Holding? then m.holding else m.input
  }

  function BitTable(m: Memory, t: RegisterType): (table: seq<bool>)
    requires MemoryOk(m)
    ensures |table| == ADDRESS_SPACE
  {
    if t.Coil? then m.coils else m.discretes
  }

  function ReadWords(m: Memory, t: RegisterType, start: int, count: int): Result<seq<int>, ReadError>
    requires MemoryOk(m) && !IsBit(t)
  {
    if !Legal(t, start, count) then Err(IllegalRequest)
    else Ok(WordTable(m, t)[start..start + count])
  }

  function ReadBits(m: Memory, t: RegisterType, start: int, count: int): Result<seq<bool>, ReadError>
    requires MemoryOk(m) && IsBit(t)
  {
    if !Legal(t, start, count) then Err(IllegalRequest)
    else Ok(BitTable(m, t)[start..start + count])
  }

  // ---------------------------------------------------------------- channels

  function ApplyScaling(raw: Value, reg: RegisterDef): Value {
    if reg.scale.Some? then FloatValue(ToPhysical(reg.scale.value, Num(raw))) else raw
  }

  function BitValue(raw: Value, bit: BitDef): Value {
    IntValue(if bit.bitIndex < 0 then 0 else B.And(B.Shr(Trunc(Num(raw)), bit.bitIndex), 1))
  }

  function BitChannels(prefix: string, bitmap: seq<BitDef>, raw: Value): Channels {
    if bitmap == [] then map[]
    else
      var bit := bitmap[|bitmap| - 1];
      BitChannels(prefix, bitmap[..|bitmap| - 1], raw)[prefix + bit.name := BitValue(raw, bit)]
  }

  function RegisterChannels(prefix: string, reg: RegisterDef, raw: Value): Channels {
    map[prefix + reg.name := ApplyScaling(raw, reg)] + BitChannels(prefix, reg.Bits(), raw)
  }

  method BuildRegisterChannels(prefix: string, reg: RegisterDef, raw: Value, scaled: Value)
    returns (channels: Channels)
    requires scaled == ApplyScaling(raw, reg)
    ensures channels == RegisterChannels(prefix, reg, raw)
  {
    channels := map[prefix + reg.name := scaled];
    var i := 0;
    while i < |reg.Bits()|
      invariant i <= |reg.Bits()|
      invariant channels == map[prefix + reg.name := scaled] + BitChannels(prefix, reg.Bits()[..i], raw)
    {
      assert reg.Bits()[..i + 1][..i] == reg.Bits()[..i];
      channels := channels[prefix + reg.Bits()[i].name := BitValue(raw, reg.Bits()[i])];
      i := i + 1;
    }
    assert reg.Bits()[..i] == reg.Bits();
  }

  // ---------------------------------------------------------------- one register

  function ReadRaw(m: Memory, reg: RegisterDef, f: FloatFormat): Result<Value, ReadError>
    requires MemoryOk(m)
  {
    if IsBit(reg.registerType) then
      var bits :- ReadBits(m, reg.registerType, reg.address, 1);
      Ok(BoolValue(bits[0]))
    else
      var words :- ReadWords(m, reg.registerType, reg.address, RegisterCount(reg.dataType));
      Ok(DecodeRegisters(words, reg.dataType, reg.swaps, f))
  }

  function Read(prefix: string, m: Memory, reg: RegisterDef, f: FloatFormat): Result<Channels, ReadError>
    requires MemoryOk(m)
  {
    var raw :- ReadRaw(m, reg, f);
    Ok(RegisterChannels(prefix, reg, raw))
  }

  /** Each register type is read from its own table: one bit, or the words its type takes, decoded. */
  lemma ReadsItsTable(m: Memory, reg: RegisterDef, f: FloatFormat)
    requires MemoryOk(m) && RegisterOk(reg, true)
    ensures match reg.registerType
            case Coil => ReadRaw(m, reg, f) == Ok(BoolValue(m.coils[reg.address]))
            case Discrete => ReadRaw(m, reg, f) == Ok(BoolValue(m.discretes[reg.address]))
            case Holding => ReadRaw(m, reg, f) == Ok(DecodeAt(m.holding, reg, f))
            case Input => ReadRaw(m, reg, f) == Ok(DecodeAt(m.input, reg, f))
  {}

  function DecodeAt(table: seq<int>, reg: RegisterDef, f: FloatFormat): Value
    requires 0 <= reg.address && reg.address + RegisterCount(reg.dataType) <= |table|
  {
    DecodeRegisters(table[reg.address..reg.address + RegisterCount(reg.dataType)], reg.dataType, reg.swaps, f)
  }

  // ---------------------------------------------------------------- a group

  datatype Window = Bits(bits: seq<bool>) | Registers(words: seq<int>)

  function ReadWindow(m: Memory, sorted: seq<RegisterDef>): Result<Window, ReadError>
    requires MemoryOk(m) && sorted != []
  {
    var t := sorted[0].registerType;
    if IsBit(t) then
      var bits :- ReadBits(m, t, sorted[0].address, WindowLength(sorted));
      Ok(Bits(bits))
    else
      var words :- ReadWords(m, t, sorted[0].address, WindowLength(sorted));
      Ok(Registers(words))
  }

  // A register's value cut out of the window; a slice that runs past the end comes out short.
  function Cut(window: Window, start: int, reg: RegisterDef, f: FloatFormat): Result<Value, ReadError> {
    var offset := reg.address - start;
    match window
    case Bits(bits) =>
      if 0 <= offset < |bits| then Ok(BoolValue(bits[offset])) else Err(ShortSlice)
    case Registers(words) =>
      var n := RegisterCount(reg.dataType);
      if 0 <= offset && offset + n <= |words| then
        Ok(DecodeRegisters(words[offset..offset + n], reg.dataType, reg.swaps, f))
      else Err(ShortSlice)
  }

  function GroupChannels(prefix: string, window: Window, start: int, regs: seq<RegisterDef>, f: FloatFormat)
    : Result<Channels, ReadError>
  {
    if regs == [] then Ok(map[])
    else
      var channels :- GroupChannels(prefix, window, start, regs[..|regs| - 1], f);
      var raw :- Cut(window, start, regs[|regs| - 1], f);
      Ok(channels + RegisterChannels(prefix, regs[|regs| - 1], raw))
  }

  function ReadGroup(prefix: string, m: Memory, sorted: seq<RegisterDef>, f: FloatFormat): Result<Channels, ReadError>
    requires MemoryOk(m) && sorted != []
  {
    var window :- ReadWindow(m, sorted);
    GroupChannels(prefix, window, sorted[0].address, sorted, f)
  }

  lemma {:induction false} GroupStops(prefix: string, window: Window, start: int, regs: seq<RegisterDef>, f: FloatFormat, k: nat)
    requires k < |regs| && Cut(window, start, regs[k], f).Err?
    requires GroupChannels(prefix, window, start, regs[..k], f).Ok?
    ensures GroupChannels(prefix, window, start, regs, f) == Err(Cut(window, start, regs[k], f).error)
  {
    if k < |regs| - 1 {
      var front := regs[..|regs| - 1];
      assert front[..k] == regs[..k];
      GroupStops(prefix, window, start, front, f, k);
    }
  }

  method ReadGroupOnce(prefix: string, m: Memory, sorted: seq<RegisterDef>, f: FloatFormat)
    returns (r: Result<Channels, ReadError>)
    requires MemoryOk(m) && sorted != []
    ensures r == ReadGroup(prefix, m, sorted, f)
  {
    var start := sorted[0].address;
    var window := ReadWindow(m, sorted);
    if window.Err? {
      return Err(window.error);
    }
    var channelData: Channels := map[];
    var i := 0;
    while i < |sorted|
      invariant i <= |sorted|
      invariant GroupChannels(prefix, window.value, start, sorted[..i], f) == Ok(channelData)
    {
      assert sorted[..i + 1][..i] == sorted[..i];
      var raw := Cut(window.value, start, sorted[i], f);
      if raw.Err? {
        GroupStops(prefix, window.value, start, sorted, f, i);
        return Err(raw.error);
      }
      var channels := BuildRegisterChannels(prefix, sorted[i], raw.value, ApplyScaling(raw.value, sorted[i]));
      channelData := channelData + channels;
      i := i + 1;
    }
    assert sorted[..i] == sorted;
    r := Ok(channelData);
  }

  // ---------------------------------------------------------------- windows

  lemma SortedMembers(regs: seq<RegisterDef>, group: string)
    requires Accepted(regs) && group in Groups(regs)
    ensures var sorted := GroupOf(regs, group);
            && sorted != [] && Ascending(sorted) && NoOverlap(sorted)
            && forall i :: 0 <= i < |sorted| ==> sorted[i] in regs && RegisterOk(sorted[i], true)
                                                 && sorted[i].registerType == sorted[0].registerType
  {
    var sorted := GroupOf(regs, group);
    GroupNotEmpty(regs, group);
    SortFacts(Members(regs, group));
    MembersNoOverlap(regs, group);
    SortNoOverlap(Members(regs, group));
    InGroup(regs, group, sorted[0]);
    var a :| 0 <= a < |regs| && regs[a] == sorted[0];
    forall i | 0 <= i < |sorted|
      ensures sorted[i] in regs && RegisterOk(sorted[i], true) && sorted[i].registerType == sorted[0].registerType
    {
      InGroup(regs, group, sorted[i]);
      var b :| 0 <= b < |regs| && regs[b] == sorted[i];
      assert regs[a].readGroup == regs[b].readGroup;
    }
  }

  // A register of a sorted run without overlaps ends no later than the last one.
  lemma EndsInWindow(sorted: seq<RegisterDef>, i: nat)
    requires i < |sorted| && Ascending(sorted) && NoOverlap(sorted)
    requires forall k :: 0 <= k < |sorted| ==> sorted[k].registerType == sorted[0].registerType
    requires forall k :: 0 <= k < |sorted| && IsBit(sorted[k].registerType) ==> sorted[k].dataType.Bool?
    ensures sorted[0].address <= sorted[i].address
    ensures sorted[i].address + Extent(sorted[i]) <= sorted[0].address + WindowLength(sorted)
  {
    var last := |sorted| - 1;
    if i < last {
      assert Disjoint(sorted[i], sorted[last]);
      assert sorted[i].address <= sorted[last].address;
    }
    if i > 0 {
      assert sorted[0].address <= sorted[i].address;
    }
  }

  /**
   In an accepted configuration the single request a group makes is legal, and
   every register of the group lies inside the window it asks for.
   */
  lemma GroupWindow(regs: seq<RegisterDef>, group: string, reg: RegisterDef)
    requires Accepted(regs) && group in Groups(regs) && reg in regs && reg.readGroup == Some(group)
    ensures var sorted := GroupOf(regs, group);
            && sorted != []
            && Legal(sorted[0].registerType, sorted[0].address, WindowLength(sorted))
            && reg.registerType == sorted[0].registerType
            && sorted[0].address <= reg.address
            && reg.address + Extent(reg) <= sorted[0].address + WindowLength(sorted)
  {
    var sorted := GroupOf(regs, group);
    SortedMembers(regs, group);
    InGroup(regs, group, reg);
    var i :| 0 <= i < |sorted| && sorted[i] == reg;
    EndsInWindow(sorted, i);
    EndsInWindow(sorted, |sorted| - 1);
  }

  /** The overlap validator is what makes this so: an overlapping pair can leave the window. */
  lemma OverlapLeavesWindow()
    ensures exists a: RegisterDef, b: RegisterDef ::
              && RegisterOk(a, true) && RegisterOk(b, true) && GroupsOk([a, b])
              && SortByAddress([a, b]) == [a, b]
              && WindowLength([a, b]) <= ReadLimit(a.registerType)
              && a.address + Extent(a) > a.address + WindowLength([a, b])
  {
    var swaps := Swaps(false, false, false);
    var a := RegisterDef("a", 0, Holding, UInt64, swaps, None, None, true, None, None, None, Some("g"));
    var b := RegisterDef("b", 2, Holding, UInt16, swaps, None, None, true, None, None, None, Some("g"));
    assert [a, b][1..] == [b] && [b][1..] == [];
    assert SortByAddress([b]) == [b];
    assert SortByAddress([a, b]) == [a, b];
  }

  // ---------------------------------------------------------------- one transaction, the same values

  lemma CutIsRead(regs: seq<RegisterDef>, group: string, reg: RegisterDef, m: Memory, f: FloatFormat)
    requires Accepted(regs) && group in Groups(regs) && MemoryOk(m)
    requires reg in regs && reg.readGroup == Some(group)
    ensures var sorted := GroupOf(regs, group);
            && sorted != []
            && ReadWindow(m, sorted).Ok?
            && ReadRaw(m, reg, f).Ok?
            && Cut(ReadWindow(m, sorted).value, sorted[0].address, reg, f) == ReadRaw(m, reg, f)
  {
    var sorted := GroupOf(regs, group);
    GroupWindow(regs, group, reg);
    CutOfWindow(m, reg, sorted[0].address, WindowLength(sorted), f);
  }

  // The words or bits a legal request answers.
  function Ask(m: Memory, t: RegisterType, start: int, n: int): Window
    requires MemoryOk(m) && Legal(t, start, n)
  {
    if IsBit(t) then Bits(ReadBits(m, t, start, n).value) else Registers(ReadWords(m, t, start, n).value)
  }

  lemma CutOfWindow(m: Memory, reg: RegisterDef, start: int, n: int, f: FloatFormat)
    requires MemoryOk(m) && Legal(reg.registerType, start, n)
    requires start <= reg.address && reg.address + Extent(reg) <= start + n
    ensures ReadRaw(m, reg, f).Ok?
    ensures Cut(Ask(m, reg.registerType, start, n), start, reg, f) == ReadRaw(m, reg, f)
  {
    var offset, count := reg.address - start, Extent(reg);
    if IsBit(reg.registerType) {
      SliceOfSlice(BitTable(m, reg.registerType), start, n, offset, count);
    } else {
      SliceOfSlice(WordTable(m, reg.registerType), start, n, offset, count);
    }
  }

  lemma SliceOfSlice<T>(table: seq<T>, start: nat, n: nat, offset: nat, count: nat)
    requires start + n <= |table| && offset + count <= n
    ensures table[start..start + n][offset..offset + count] == table[start + offset..start + offset + count]
    ensures count > 0 ==> table[start..start + n][offset] == table[start + offset..start + offset + count][0]
  {
    var slice := table[start..start + n];
    assert forall k :: 0 <= k < n ==> slice[k] == table[start + k];
    var part, direct := slice[offset..offset + count], table[start + offset..start + offset + count];
    assert |part| == |direct| == count;
    forall k | 0 <= k < count ensures part[k] == direct[k] {
      assert part[k] == slice[offset + k];
    }
  }

  lemma {:induction false} NamesListed(regs: seq<RegisterDef>, i: nat, name: string)
    requires i < |regs| && name in Names(regs[i])
    ensures name in AllNames(regs)
  {
    if i < |regs| - 1 {
      NamesListed(regs[..|regs| - 1], i, name);
    }
  }

  lemma UniqueParts(a: seq<string>, b: seq<string>, name: string)
    requires Unique(a + b)
    ensures Unique(a)
    ensures name in a ==> name !in b
  {
    var all := a + b;
    forall i, j | 0 <= i < j < |a| ensures a[i] != a[j] {
      assert all[i] != all[j];
    }
    if name in a {
      var i :| 0 <= i < |a| && a[i] == name;
      forall j | 0 <= j < |b| ensures b[j] != name {
        assert all[i] != all[|a| + j];
      }
    }
  }

  // Registers at different positions share no channel name.
  lemma {:induction false} NamesApart(regs: seq<RegisterDef>, i: nat, j: nat, name: string)
    requires Unique(AllNames(regs)) && i < j < |regs| && name in Names(regs[i])
    ensures name !in Names(regs[j])
    decreases |regs|
  {
    var front := regs[..|regs| - 1];
    UniqueParts(AllNames(front), Names(regs[|regs| - 1]), name);
    if j == |regs| - 1 {
      NamesListed(front, i, name);
    } else {
      NamesApart(front, i, j, name);
    }
  }

  lemma NamesOfDifferent(regs: seq<RegisterDef>, x: RegisterDef, y: RegisterDef, name: string)
    requires Unique(AllNames(regs)) && x in regs && y in regs && x != y && name in Names(x)
    ensures name !in Names(y)
  {
    var i :| 0 <= i < |regs| && regs[i] == x;
    var j :| 0 <= j < |regs| && regs[j] == y;
    if name in Names(y) {
      if i < j {
        NamesApart(regs, i, j, name);
      } else {
        NamesApart(regs, j, i, name);
      }
    }
  }

  lemma {:induction false} BitChannelKeys(prefix: string, bitmap: seq<BitDef>, raw: Value, key: string)
    ensures key in BitChannels(prefix, bitmap, raw) <==> exists i :: 0 <= i < |bitmap| && key == prefix + bitmap[i].name
  {
    if bitmap != [] {
      var front := bitmap[..|bitmap| - 1];
      BitChannelKeys(prefix, front, raw, key);
      if exists i :: 0 <= i < |bitmap| && key == prefix + bitmap[i].name {
        var i :| 0 <= i < |bitmap| && key == prefix + bitmap[i].name;
        assert i < |front| ==> key == prefix + front[i].name;
      }
      if key in BitChannels(prefix, front, raw) {
        var i :| 0 <= i < |front| && key == prefix + front[i].name;
        assert key == prefix + bitmap[i].name;
      }
      assert key == prefix + bitmap[|bitmap| - 1].name ==> exists i :: 0 <= i < |bitmap| && key == prefix + bitmap[i].name;
    }
  }

  /** A register publishes exactly one channel for each of its names. */
  lemma ChannelKeys(prefix: string, reg: RegisterDef, raw: Value, key: string)
    ensures key in RegisterChannels(prefix, reg, raw) <==> exists i :: 0 <= i < |Names(reg)| && key == prefix + Names(reg)[i]
  {
    BitChannelKeys(prefix, reg.Bits(), raw, key);
    if key == prefix + reg.name {
      assert key == prefix + Names(reg)[0];
    }
    if i :| 0 <= i < |reg.Bits()| && key == prefix + reg.Bits()[i].name {
      assert Names(reg)[i + 1] == reg.Bits()[i].name;
    }
    if i :| 0 <= i < |Names(reg)| && key == prefix + Names(reg)[i] {
      if i > 0 {
        assert key == prefix + reg.Bits()[i - 1].name;
      }
    }
  }

  lemma PrefixCancels(prefix: string, a: string, b: string)
    ensures prefix + a == prefix + b ==> a == b
  {
    assert (prefix + a)[|prefix|..] == a && (prefix + b)[|prefix|..] == b;
  }

  lemma KeysApart(prefix: string, regs: seq<RegisterDef>, x: RegisterDef, y: RegisterDef, a: Value, b: Value, key: string)
    requires Unique(AllNames(regs)) && x in regs && y in regs && x != y
    requires key in RegisterChannels(prefix, x, a)
    ensures key !in RegisterChannels(prefix, y, b)
  {
    ChannelKeys(prefix, x, a, key);
    ChannelKeys(prefix, y, b, key);
    var i :| 0 <= i < |Names(x)| && key == prefix + Names(x)[i];
    NamesOfDifferent(regs, x, y, Names(x)[i]);
    forall j | 0 <= j < |Names(y)| ensures key != prefix + Names(y)[j] {
      PrefixCancels(prefix, Names(x)[i], Names(y)[j]);
    }
  }

  lemma BitOf(v: int, k: nat)
    ensures B.And(B.Shr(v, k), 1) == if B.Bit(v, k) then 1 else 0
  {
    B.ShrBit(v, k, 0);
    B.LowBits(B.Shr(v, k), 1);
  }

  lemma {:induction false} BitChannelAt(prefix: string, bitmap: seq<BitDef>, raw: Value, i: nat)
    requires i < |bitmap| && forall a, b :: 0 <= a < b < |bitmap| ==> bitmap[a].name != bitmap[b].name
    ensures prefix + bitmap[i].name in BitChannels(prefix, bitmap, raw)
    ensures BitChannels(prefix, bitmap, raw)[prefix + bitmap[i].name] == BitValue(raw, bitmap[i])
  {
    var last := |bitmap| - 1;
    if i < last {
      BitChannelAt(prefix, bitmap[..last], raw, i);
      PrefixCancels(prefix, bitmap[i].name, bitmap[last].name);
    }
  }

  // What the channels of a register hold: its own value and, bit by bit, its raw value.
  ghost predicate Holds(channels: Channels, key: string, v: Value) {
    key in channels && channels[key] == v
  }

  // The name of a register is none of its bits' names, and these differ.
  lemma BitNamesDiffer(reg: RegisterDef)
    requires Unique(Names(reg))
    ensures forall b :: b in reg.Bits() ==> b.name != reg.name
    ensures forall a, b :: 0 <= a < b < |reg.Bits()| ==> reg.Bits()[a].name != reg.Bits()[b].name
  {
    var names, bits := Names(reg), reg.Bits();
    forall a | 0 <= a < |bits| ensures bits[a].name == names[a + 1] {}
    forall a, b | 0 <= a < b < |bits| ensures bits[a].name != bits[b].name {
      assert names[a + 1] != names[b + 1];
    }
    forall b | b in bits ensures b.name != reg.name {
      var a :| 0 <= a < |bits| && bits[a] == b;
      assert names[0] != names[a + 1];
    }
  }

  lemma OwnChannel(prefix: string, reg: RegisterDef, raw: Value)
    requires forall b :: b in reg.Bits() ==> b.name != reg.name
    ensures Holds(RegisterChannels(prefix, reg, raw), prefix + reg.name, ApplyScaling(raw, reg))
  {
    var bits, key := reg.Bits(), prefix + reg.name;
    if key in BitChannels(prefix, bits, raw) {
      BitChannelKeys(prefix, bits, raw, key);
      var a :| 0 <= a < |bits| && key == prefix + bits[a].name;
      assert bits[a] in bits;
      PrefixCancels(prefix, bits[a].name, reg.name);
    }
  }

  /**
   What a register of an accepted configuration publishes: its scaled value
   under its own name, and under each bit's name that very bit of the raw value.
   */
  lemma ChannelContents(prefix: string, regs: seq<RegisterDef>, reg: RegisterDef, raw: Value)
    requires Accepted(regs) && reg in regs
    ensures Holds(RegisterChannels(prefix, reg, raw), prefix + reg.name,
                  match reg.scale
                  case Some(s) => FloatValue(s.offset + s.gain * Num(raw))
                  case None => raw)
    ensures forall bit :: bit in reg.Bits() && raw.IntValue? ==>
              ShowsBit(RegisterChannels(prefix, reg, raw), prefix + bit.name, raw.i, bit)
  {
    OwnNamesDiffer(regs, reg);
    BitNamesDiffer(reg);
    OwnChannel(prefix, reg, raw);
    assert RegisterOk(reg, true);
    forall bit | bit in reg.Bits() && raw.IntValue?
      ensures ShowsBit(RegisterChannels(prefix, reg, raw), prefix + bit.name, raw.i, bit)
    {
      BitShown(prefix, reg, raw.i, bit);
    }
  }

  ghost predicate ShowsBit(channels: Channels, key: string, raw: int, bit: BitDef) {
    bit.bitIndex >= 0 && Holds(channels, key, IntValue(if B.Bit(raw, bit.bitIndex) then 1 else 0))
  }

  lemma BitShown(prefix: string, reg: RegisterDef, raw: int, bit: BitDef)
    requires bit in reg.Bits() && bit.bitIndex >= 0
    requires forall a, b :: 0 <= a < b < |reg.Bits()| ==> reg.Bits()[a].name != reg.Bits()[b].name
    ensures ShowsBit(RegisterChannels(prefix, reg, IntValue(raw)), prefix + bit.name, raw, bit)
  {
    var i :| 0 <= i < |reg.Bits()| && reg.Bits()[i] == bit;
    BitChannelAt(prefix, reg.Bits(), IntValue(raw), i);
    BitOf(raw, bit.bitIndex);
  }

  lemma {:induction false} OwnNamesDiffer(regs: seq<RegisterDef>, reg: RegisterDef)
    requires Unique(AllNames(regs)) && reg in regs
    ensures Unique(Names(reg))
  {
    var front, last := regs[..|regs| - 1], regs[|regs| - 1];
    UniqueParts(AllNames(front), Names(last), "");
    if reg == last {
      var all := AllNames(regs);
      forall i, j | 0 <= i < j < |Names(last)| ensures Names(last)[i] != Names(last)[j] {
        assert all[|AllNames(front)| + i] != all[|AllNames(front)| + j];
      }
    } else {
      OwnNamesDiffer(front, reg);
    }
  }

  // The channels of one register, as an individual read gives them.
  ghost predicate Publishes(channels: Channels, prefix: string, m: Memory, reg: RegisterDef, f: FloatFormat)
    requires MemoryOk(m)
  {
    var own := Read(prefix, m, reg, f);
    own.Ok? && forall key :: key in own.value ==> key in channels && channels[key] == own.value[key]
  }

  // Whose channels a key can be among.
  ghost predicate Owns(prefix: string, m: Memory, reg: RegisterDef, f: FloatFormat, key: string)
    requires MemoryOk(m)
  {
    Read(prefix, m, reg, f).Ok? && key in Read(prefix, m, reg, f).value
  }

  // What `channels` must hold after the registers of `sorted`.
  ghost predicate PublishesAll(channels: Channels, prefix: string, m: Memory, sorted: seq<RegisterDef>, f: FloatFormat)
    requires MemoryOk(m)
  {
    && (forall i :: 0 <= i < |sorted| ==> Publishes(channels, prefix, m, sorted[i], f))
    && (forall key :: key in channels ==> exists i :: 0 <= i < |sorted| && Owns(prefix, m, sorted[i], f, key))
  }

  lemma {:induction false} GroupPublishes(prefix: string, m: Memory, regs: seq<RegisterDef>, sorted: seq<RegisterDef>,
                                          window: Window, start: int, f: FloatFormat)
    requires MemoryOk(m) && Unique(AllNames(regs)) && NoOverlap(sorted)
    requires forall i :: 0 <= i < |sorted| ==>
               sorted[i] in regs && ReadRaw(m, sorted[i], f).Ok? && Cut(window, start, sorted[i], f) == ReadRaw(m, sorted[i], f)
    ensures var all := GroupChannels(prefix, window, start, sorted, f);
            all.Ok? && PublishesAll(all.value, prefix, m, sorted, f)
  {
    if sorted != [] {
      var front, last := sorted[..|sorted| - 1], sorted[|sorted| - 1];
      GroupPublishes(prefix, m, regs, front, window, start, f);
      PublishesOneMore(prefix, m, regs, sorted, GroupChannels(prefix, window, start, front, f).value, f);
    }
  }

  lemma PublishesOneMore(prefix: string, m: Memory, regs: seq<RegisterDef>, sorted: seq<RegisterDef>,
                         before: Channels, f: FloatFormat)
    requires MemoryOk(m) && Unique(AllNames(regs)) && NoOverlap(sorted) && sorted != []
    requires forall i :: 0 <= i < |sorted| ==> sorted[i] in regs && ReadRaw(m, sorted[i], f).Ok?
    requires PublishesAll(before, prefix, m, sorted[..|sorted| - 1], f)
    ensures PublishesAll(before + Read(prefix, m, sorted[|sorted| - 1], f).value, prefix, m, sorted, f)
  {
    var front, last := sorted[..|sorted| - 1], sorted[|sorted| - 1];
    var own := Read(prefix, m, last, f).value;
    forall i | 0 <= i < |sorted| ensures Publishes(before + own, prefix, m, sorted[i], f) {
      if i < |front| {
        StillPublishes(prefix, m, regs, sorted, i, before, f);
      } else {
        NowPublishes(prefix, m, last, before, f);
      }
    }
    forall key | key in before + own ensures exists i :: 0 <= i < |sorted| && Owns(prefix, m, sorted[i], f, key) {
      OwnerOf(prefix, m, sorted, front, before, f, key);
    }
  }

  lemma NowPublishes(prefix: string, m: Memory, reg: RegisterDef, before: Channels, f: FloatFormat)
    requires MemoryOk(m) && ReadRaw(m, reg, f).Ok?
    ensures Publishes(before + Read(prefix, m, reg, f).value, prefix, m, reg, f)
  {}

  lemma StillPublishes(prefix: string, m: Memory, regs: seq<RegisterDef>, sorted: seq<RegisterDef>, i: nat,
                       before: Channels, f: FloatFormat)
    requires MemoryOk(m) && Unique(AllNames(regs)) && NoOverlap(sorted) && i < |sorted| - 1
    requires sorted[i] in regs && sorted[|sorted| - 1] in regs && ReadRaw(m, sorted[|sorted| - 1], f).Ok?
    requires PublishesAll(before, prefix, m, sorted[..|sorted| - 1], f)
    ensures Publishes(before + Read(prefix, m, sorted[|sorted| - 1], f).value, prefix, m, sorted[i], f)
  {
    var front := sorted[..|sorted| - 1];
    assert Publishes(before, prefix, m, front[i], f);
    KeepsPublishing(prefix, m, regs, sorted, i, before, Read(prefix, m, sorted[|sorted| - 1], f).value, f);
  }

  lemma OwnerOf(prefix: string, m: Memory, sorted: seq<RegisterDef>, front: seq<RegisterDef>,
                before: Channels, f: FloatFormat, key: string)
    requires MemoryOk(m) && sorted != [] && front == sorted[..|sorted| - 1]
    requires Read(prefix, m, sorted[|sorted| - 1], f).Ok?
    requires key in before ==> exists i :: 0 <= i < |front| && Owns(prefix, m, front[i], f, key)
    requires key in before || key in Read(prefix, m, sorted[|sorted| - 1], f).value
    ensures exists i :: 0 <= i < |sorted| && Owns(prefix, m, sorted[i], f, key)
  {
    if key in before {
      var i :| 0 <= i < |front| && Owns(prefix, m, front[i], f, key);
      assert Owns(prefix, m, sorted[i], f, key);
    } else {
      assert Owns(prefix, m, sorted[|sorted| - 1], f, key);
    }
  }

  // Adding the last register's channels hides none of an earlier one's.
  lemma KeepsPublishing(prefix: string, m: Memory, regs: seq<RegisterDef>, sorted: seq<RegisterDef>, i: nat,
                        before: Channels, own: Channels, f: FloatFormat)
    requires MemoryOk(m) && Unique(AllNames(regs)) && NoOverlap(sorted) && i < |sorted| - 1
    requires sorted[i] in regs && sorted[|sorted| - 1] in regs
    requires Publishes(before, prefix, m, sorted[i], f)
    requires ReadRaw(m, sorted[|sorted| - 1], f).Ok?
    requires own == RegisterChannels(prefix, sorted[|sorted| - 1], ReadRaw(m, sorted[|sorted| - 1], f).value)
    ensures Publishes(before + own, prefix, m, sorted[i], f)
  {
    var last := |sorted| - 1;
    assert Disjoint(sorted[i], sorted[last]);
    assert sorted[i] != sorted[last];
    var mine := Read(prefix, m, sorted[i], f).value;
    forall key | key in mine ensures key in before + own && (before + own)[key] == mine[key] {
      KeysApart(prefix, regs, sorted[i], sorted[last], ReadRaw(m, sorted[i], f).value,
                ReadRaw(m, sorted[last], f).value, key);
    }
  }

  /**
   For every accepted configuration and any memory: a group read succeeds, and
   gives exactly the channels of the individual reads of its registers.
   */
  lemma GroupReadAgrees(prefix: string, m: Memory, regs: seq<RegisterDef>, group: string, f: FloatFormat)
    requires Accepted(regs) && group in Groups(regs) && MemoryOk(m)
    ensures var sorted := GroupOf(regs, group);
            && sorted != []
            && var all := ReadGroup(prefix, m, sorted, f);
               && all.Ok?
               && (forall reg :: reg in regs && reg.readGroup == Some(group) ==> Publishes(all.value, prefix, m, reg, f))
               && (forall key :: key in all.value ==>
                     exists reg :: reg in regs && reg.readGroup == Some(group) && Owns(prefix, m, reg, f, key))
  {
    var sorted := GroupOf(regs, group);
    SortedMembers(regs, group);
    forall i | 0 <= i < |sorted|
      ensures sorted[i].readGroup == Some(group) && ReadWindow(m, sorted).Ok? && ReadRaw(m, sorted[i], f).Ok?
      ensures Cut(ReadWindow(m, sorted).value, sorted[0].address, sorted[i], f) == ReadRaw(m, sorted[i], f)
    {
      InGroup(regs, group, sorted[i]);
      CutIsRead(regs, group, sorted[i], m, f);
    }
    assert ReadRaw(m, sorted[0], f).Ok?;
    GroupPublishes(prefix, m, regs, sorted, ReadWindow(m, sorted).value, sorted[0].address, f);
    var all := ReadGroup(prefix, m, sorted, f).value;
    forall reg | reg in regs && reg.readGroup == Some(group) ensures Publishes(all, prefix, m, reg, f) {
      InGroup(regs, group, reg);
      var i :| 0 <= i < |sorted| && sorted[i] == reg;
    }
    forall key | key in all
      ensures exists reg :: reg in regs && reg.readGroup == Some(group) && Owns(prefix, m, reg, f, key)
    {
      var i :| 0 <= i < |sorted| && Owns(prefix, m, sorted[i], f, key);
      assert sorted[i] in regs;
    }
  }

  // ---------------------------------------------------------------- background polling

  datatype Job = GroupJob(group: string) | RegisterJob(name: string)

  predicate Polls(job: Job, reg: RegisterDef) {
    match job
    case GroupJob(g) => reg.readGroup == Some(g)
    case RegisterJob(n) => reg.name == n
  }

  // How many of the jobs read `reg`.
  function PollCount(jobs: seq<Job>, reg: RegisterDef): nat {
    if jobs == [] then 0
    else PollCount(jobs[..|jobs| - 1], reg) + if Polls(jobs[|jobs| - 1], reg) then 1 else 0
  }

  lemma PollSnoc(jobs: seq<Job>, job: Job, reg: RegisterDef)
    ensures PollCount(jobs + [job], reg) == PollCount(jobs, reg) + if Polls(job, reg) then 1 else 0
  {
    assert (jobs + [job])[..|jobs|] == jobs;
  }

  lemma OwnName(reg: RegisterDef)
    ensures reg.name in Names(reg)
  {
    assert Names(reg)[0] == reg.name;
  }

  lemma DifferentNames(regs: seq<RegisterDef>, x: RegisterDef, y: RegisterDef)
    requires Unique(AllNames(regs)) && x in regs && y in regs
    ensures x.name == y.name ==> x == y
  {
    OwnName(x);
    OwnName(y);
    if x != y {
      NamesOfDifferent(regs, x, y, x.name);
    }
  }

  // A group's names are those of its own registers and of no other.
  lemma GroupedNames(regs: seq<RegisterDef>, group: string, reg: RegisterDef)
    requires Unique(AllNames(regs)) && reg in regs
    ensures (exists r :: r in GroupOf(regs, group) && r.name == reg.name) <==> reg.readGroup == Some(group)
  {
    InGroup(regs, group, reg);
    if r :| r in GroupOf(regs, group) && r.name == reg.name {
      InGroup(regs, group, r);
      DifferentNames(regs, r, reg);
    }
  }

  /** Each cycle reads every polled register exactly once, and no other register. */
  method DefineBackgroundDaemon(regs: seq<RegisterDef>) returns (jobs: seq<Job>)
    requires Accepted(regs)
    ensures forall reg :: reg in regs ==> PollCount(jobs, reg) == if reg.poll then 1 else 0
  {
    var index := BuildGroupIndex(regs);
    jobs := [];
    var groupedRegisters: set<string> := {};
    var todo := index.Keys;
    while todo != {}
      invariant todo <= index.Keys == Groups(regs)
      invariant forall reg :: reg in regs ==> Grouped(regs, todo, jobs, groupedRegisters, reg)
      decreases todo
    {
      var g :| g in todo;
      ghost var jobs0, names0, todo0 := jobs, groupedRegisters, todo;
      jobs := jobs + [GroupJob(g)];
      groupedRegisters := groupedRegisters + set r | r in index[g] :: r.name;
      todo := todo - {g};
      forall reg | reg in regs ensures Grouped(regs, todo, jobs, groupedRegisters, reg) {
        assert Grouped(regs, todo0, jobs0, names0, reg);
        PollSnoc(jobs0, GroupJob(g), reg);
        GroupedNames(regs, g, reg);
      }
    }
    var k := 0;
    while k < |regs|
      invariant k <= |regs|
      invariant forall reg :: reg in regs ==> (reg.name in groupedRegisters <==> reg.readGroup.Some?)
      invariant forall reg :: reg in regs ==>
                  PollCount(jobs, reg) == if reg.readGroup.Some? || (reg in regs[..k] && reg.poll) then 1 else 0
    {
      var current := regs[k];
      ghost var jobs0 := jobs;
      if current.poll && current.name !in groupedRegisters {
        jobs := jobs + [RegisterJob(current.name)];
      }
      forall reg | reg in regs
        ensures PollCount(jobs, reg) == if reg.readGroup.Some? || (reg in regs[..k + 1] && reg.poll) then 1 else 0
      {
        PollSnoc(jobs0, RegisterJob(current.name), reg);
        DifferentNames(regs, reg, current);
        NotSeenBefore(regs, k);
        assert reg in regs[..k + 1] <==> reg in regs[..k] || reg == current;
      }
      k := k + 1;
    }
    assert regs[..k] == regs;
  }

  // Where the first loop of the daemon's definition stands for one register.
  ghost predicate Grouped(regs: seq<RegisterDef>, todo: set<string>, jobs: seq<Job>, names: set<string>, reg: RegisterDef) {
    var done := reg.readGroup.Some? && reg.readGroup.value !in todo;
    PollCount(jobs, reg) == (if done then 1 else 0) && (reg.name in names <==> done)
  }

  lemma NotSeenBefore(regs: seq<RegisterDef>, k: nat)
    requires Unique(AllNames(regs)) && k < |regs|
    ensures regs[k] !in regs[..k]
  {
    OwnName(regs[k]);
    forall i | 0 <= i < k ensures regs[i] != regs[k] {
      OwnName(regs[i]);
      NamesApart(regs, i, k, regs[i].name);
    }
  }
}
