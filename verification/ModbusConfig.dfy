/**
 Modbus register configuration (instro/modbus/types.py): what is accepted, and
 the validators that decide it.
 */
module ModbusConfig {
  import opened Wrappers
  import opened ModbusWire

  datatype RegisterType = Holding | Input | Coil | Discrete

  datatype LinearScale = LinearScale(gain: real, offset: real)

  function ToPhysical(s: LinearScale, raw: real): real {
    s.offset + s.gain * raw
  }

  function ToRaw(s: LinearScale, physical: real): real
    requires s.gain != 0.0
  {
    (physical - s.offset) / s.gain
  }

  datatype BitDef = BitDef(name: string, bitIndex: int)

  datatype Entry = Entry(key: string, value: Value)

  datatype RegisterDef = RegisterDef(
    name: string,
    address: int,
    registerType: RegisterType,
    dataType: DataType,
    swaps: Swaps,
    scale: Option<LinearScale>,
    bitmap: Option<seq<BitDef>>,
    poll: bool,
    writeMin: Option<real>,
    writeMax: Option<real>,
    valueMap: Option<seq<Entry>>,
    readGroup: Option<string>)
  {
    function Bits(): seq<BitDef> {
      if bitmap.Some? then bitmap.value else []
    }
  }

  const MAX_REGISTERS_PER_READ := 125
  const MAX_COILS_PER_READ := 2000
  const ADDRESS_SPACE := 65536

  predicate IsBit(t: RegisterType) {
    t.Coil? || t.Discrete?
  }

  // Addresses a register occupies in its own table.
  function Extent(reg: RegisterDef): (n: nat)
    ensures 1 <= n <= 4
  {
    if IsBit(reg.registerType) then 1 else RegisterCount(reg.dataType)
  }

  // ---------------------------------------------------------------- one register

  predicate InRange(x: real, t: DataType) {
    RangeMin(t) as real <= x <= RangeMax(t) as real
  }

  predicate FieldsOk(reg: RegisterDef) {
    && 0 <= reg.address <= 65535
    && (forall b :: b in reg.Bits() ==> 0 <= b.bitIndex <= 15)
    && (reg.scale.Some? ==> reg.scale.value.gain != 0.0)
  }

  predicate LimitOk(reg: RegisterDef, limit: Option<real>)
    requires FieldsOk(reg)
  {
    limit.Some? && IsInteger(reg.dataType) ==>
      InRange(if reg.scale.Some? then ToRaw(reg.scale.value, limit.value) else limit.value, reg.dataType)
  }

  predicate WithinLimits(x: real, reg: RegisterDef) {
    && (reg.writeMin.Some? ==> x >= reg.writeMin.value)
    && (reg.writeMax.Some? ==> x <= reg.writeMax.value)
  }

  // The checks on one write_value_map value, uniqueness aside. Booleans have
  // been coerced to integers by the time they run.
  predicate EntryOk(reg: RegisterDef, v: Value)
    requires FieldsOk(reg)
  {
    && (if reg.dataType.Bool? || reg.registerType.Coil? then
          v.BoolValue? || (v.IntValue? && (v.i == 0 || v.i == 1))
        else if IsInteger(reg.dataType) then
          if reg.scale.Some? then
            var raw := ToRaw(reg.scale.value, Num(v));
            && -0.000001 <= raw - Round(raw) as real <= 0.000001
            && RangeMin(reg.dataType) <= Round(raw) <= RangeMax(reg.dataType)
          else
            && (v.FloatValue? ==> v.r == Trunc(v.r) as real)
            && RangeMin(reg.dataType) <= Round(Num(v)) <= RangeMax(reg.dataType)
        else true)
    && WithinLimits(Num(v), reg)
  }

  predicate DistinctValues(entries: seq<Entry>) {
    forall i, j :: 0 <= i < j < |entries| ==> Num(entries[i].value) != Num(entries[j].value)
  }

  predicate DistinctBits(bitmap: seq<BitDef>) {
    forall i, j :: 0 <= i < j < |bitmap| ==> bitmap[i].bitIndex != bitmap[j].bitIndex
  }

  // The cross-field rules of a register, whose data type may have been left out.
  predicate RegisterOk(reg: RegisterDef, typeGiven: bool) {
    && FieldsOk(reg)
    && !(IsBit(reg.registerType) && reg.scale.Some?)
    && !(reg.swaps.wordSwap && (reg.dataType.UInt16? || reg.dataType.Int16? || reg.dataType.Bool?))
    && !(reg.swaps.longSwap && RegisterCount(reg.dataType) != 4)
    && reg.address + RegisterCount(reg.dataType) - 1 <= 65535
    && ((reg.writeMin.Some? || reg.writeMax.Some? || reg.valueMap.Some?) ==> reg.registerType.Holding?)
    && (reg.writeMin.Some? && reg.writeMax.Some? ==> reg.writeMin.value <= reg.writeMax.value)
    && LimitOk(reg, reg.writeMin)
    && LimitOk(reg, reg.writeMax)
    && (reg.valueMap.Some? ==> && DistinctValues(reg.valueMap.value)
                               && forall e :: e in reg.valueMap.value ==> EntryOk(reg, e.value))
    && (reg.bitmap.Some? ==> && reg.dataType.UInt16?
                             && (reg.registerType.Holding? || reg.registerType.Input?)
                             && DistinctBits(reg.Bits()))
    && (IsBit(reg.registerType) && typeGiven ==> reg.dataType.Bool?)
  }

  // What the configuration keeps: coils and discrete inputs are of type bool.
  function Coerced(reg: RegisterDef): RegisterDef {
    if IsBit(reg.registerType) then reg.(dataType := Bool) else reg
  }

  method ValidateRegister(reg: RegisterDef, typeGiven: bool) returns (r: Option<RegisterDef>)
    ensures r == if RegisterOk(reg, typeGiven) then Some(Coerced(reg)) else None
  {
    r := None;
    if !FieldsOk(reg) || (IsBit(reg.registerType) && reg.scale.Some?) {
      return;
    }
    if reg.swaps.wordSwap && (reg.dataType.UInt16? || reg.dataType.Int16? || reg.dataType.Bool?) {
      return;
    }
    if reg.swaps.longSwap && RegisterCount(reg.dataType) != 4 {
      return;
    }
    if reg.address + RegisterCount(reg.dataType) - 1 > 65535 {
      return;
    }
    if (reg.writeMin.Some? || reg.writeMax.Some? || reg.valueMap.Some?) && !reg.registerType.Holding? {
      return;
    }
    if reg.writeMin.Some? && reg.writeMax.Some? && reg.writeMin.value > reg.writeMax.value {
      return;
    }
    if !LimitOk(reg, reg.writeMin) || !LimitOk(reg, reg.writeMax) {
      return;
    }
    if reg.valueMap.Some? {
      var ok := ValidateValueMap(reg, reg.valueMap.value);
      if !ok {
        return;
      }
    }
    if reg.bitmap.Some? {
      if !reg.dataType.UInt16? || IsBit(reg.registerType) {
        return;
      }
      var ok := ValidateBits(reg.bitmap.value);
      if !ok {
        return;
      }
    }
    if IsBit(reg.registerType) && !reg.dataType.Bool? && typeGiven {
      return;
    }
    r := Some(Coerced(reg));
  }

  method ValidateValueMap(reg: RegisterDef, entries: seq<Entry>) returns (ok: bool)
    requires FieldsOk(reg)
    ensures ok <==> DistinctValues(entries) && forall e :: e in entries ==> EntryOk(reg, e.value)
  {
    var seen: set<real> := {};
    var i := 0;
    while i < |entries|
      invariant i <= |entries|
      invariant forall k :: 0 <= k < i ==> Num(entries[k].value) in seen && EntryOk(reg, entries[k].value)
      invariant forall x :: x in seen ==> exists k :: 0 <= k < i && Num(entries[k].value) == x
      invariant DistinctValues(entries[..i])
    {
      var raw := entries[i].value;
      assert entries[i] in entries;
      if Num(raw) in seen || !EntryOk(reg, raw) {
        return false;
      }
      seen := seen + {Num(raw)};
      assert entries[..i + 1] == entries[..i] + [entries[i]];
      i := i + 1;
    }
    assert entries[..i] == entries;
    ok := true;
  }

  method ValidateBits(bitmap: seq<BitDef>) returns (ok: bool)
    ensures ok <==> DistinctBits(bitmap)
  {
    var seen: set<int> := {};
    var i := 0;
    while i < |bitmap|
      invariant i <= |bitmap|
      invariant forall k :: 0 <= k < i ==> bitmap[k].bitIndex in seen
      invariant forall x :: x in seen ==> exists k :: 0 <= k < i && bitmap[k].bitIndex == x
      invariant DistinctBits(bitmap[..i])
    {
      if bitmap[i].bitIndex in seen {
        return false;
      }
      seen := seen + {bitmap[i].bitIndex};
      assert bitmap[..i + 1] == bitmap[..i] + [bitmap[i]];
      i := i + 1;
    }
    assert bitmap[..i] == bitmap;
    ok := true;
  }

  // ---------------------------------------------------------------- all registers together

  predicate Disjoint(a: RegisterDef, b: RegisterDef) {
    a.registerType == b.registerType ==> a.address + Extent(a) <= b.address || b.address + Extent(b) <= a.address
  }

  ghost predicate NoOverlap(regs: seq<RegisterDef>) {
    forall i, j :: 0 <= i < j < |regs| ==> Disjoint(regs[i], regs[j])
  }

  // The names of a register's channels: its own and its bits'.
  function Names(reg: RegisterDef): seq<string> {
    [reg.name] + seq(|reg.Bits()|, i requires 0 <= i < |reg.Bits()| => reg.Bits()[i].name)
  }

  function AllNames(regs: seq<RegisterDef>): seq<string> {
    if regs == [] then [] else AllNames(regs[..|regs| - 1]) + Names(regs[|regs| - 1])
  }

  predicate Unique<T(==)>(s: seq<T>) {
    forall i, j :: 0 <= i < j < |s| ==> s[i] != s[j]
  }

  function Members(regs: seq<RegisterDef>, group: string): seq<RegisterDef> {
    if regs == [] then []
    else Members(regs[..|regs| - 1], group)
         + if regs[|regs| - 1].readGroup == Some(group) then [regs[|regs| - 1]] else []
  }

  function Groups(regs: seq<RegisterDef>): set<string> {
    set i | 0 <= i < |regs| && regs[i].readGroup.Some? :: regs[i].readGroup.value
  }

  // list.sort(key=starting_address): stable insertion.
  function Insert(reg: RegisterDef, sorted: seq<RegisterDef>): (r: seq<RegisterDef>)
    ensures |r| == |sorted| + 1
  {
    if sorted == [] || reg.address <= sorted[0].address then [reg] + sorted
    else [sorted[0]] + Insert(reg, sorted[1..])
  }

  function SortByAddress(regs: seq<RegisterDef>): (r: seq<RegisterDef>)
    ensures |r| == |regs|
  {
    if regs == [] then [] else Insert(regs[0], SortByAddress(regs[1..]))
  }

  function GroupOf(regs: seq<RegisterDef>, group: string): seq<RegisterDef> {
    SortByAddress(Members(regs, group))
  }

  // Addresses from the first register of a group through its last.
  function WindowLength(sorted: seq<RegisterDef>): int
    requires sorted != []
  {
    var last := sorted[|sorted| - 1];
    last.address + (if IsBit(sorted[0].registerType) then 1 else RegisterCount(last.dataType)) - sorted[0].address
  }

  function ReadLimit(t: RegisterType): nat {
    if IsBit(t) then MAX_COILS_PER_READ else MAX_REGISTERS_PER_READ
  }

  ghost predicate GroupsOk(regs: seq<RegisterDef>) {
    && (forall i :: 0 <= i < |regs| && regs[i].readGroup.Some? ==> regs[i].poll)
    && (forall i, j :: 0 <= i < j < |regs| && regs[i].readGroup.Some? && regs[i].readGroup == regs[j].readGroup
          ==> regs[i].registerType == regs[j].registerType)
  }

  predicate SpanOk(sorted: seq<RegisterDef>) {
    sorted != [] && WindowLength(sorted) <= ReadLimit(sorted[0].registerType)
  }

  ghost predicate SpansOk(regs: seq<RegisterDef>) {
    forall g :: g in Groups(regs) ==> SpanOk(GroupOf(regs, g))
  }

  // A configuration every validator has accepted.
  ghost predicate Accepted(regs: seq<RegisterDef>) {
    && (forall i :: 0 <= i < |regs| ==> RegisterOk(regs[i], true))
    && Unique(AllNames(regs))
    && NoOverlap(regs)
    && GroupsOk(regs)
    && SpansOk(regs)
  }

  // ---------------------------------------------------------------- facts about sorting and grouping

  predicate Ascending(regs: seq<RegisterDef>) {
    forall i, j :: 0 <= i < j < |regs| ==> regs[i].address <= regs[j].address
  }

  ghost predicate SameMembers(a: seq<RegisterDef>, b: seq<RegisterDef>) {
    forall r :: r in a <==> r in b
  }

  lemma {:induction false} InsertFacts(reg: RegisterDef, sorted: seq<RegisterDef>)
    requires Ascending(sorted)
    ensures Ascending(Insert(reg, sorted))
    ensures SameMembers(Insert(reg, sorted), [reg] + sorted)
  {
    if sorted != [] && reg.address > sorted[0].address {
      var tail := sorted[1..];
      InsertFacts(reg, tail);
      var rest := Insert(reg, tail);
      assert sorted == [sorted[0]] + tail;
      forall i | 0 <= i < |rest| ensures sorted[0].address <= rest[i].address {
        assert rest[i] in [reg] + tail;
      }
    }
  }

  lemma {:induction false} SortFacts(regs: seq<RegisterDef>)
    ensures Ascending(SortByAddress(regs))
    ensures SameMembers(SortByAddress(regs), regs)
  {
    if regs != [] {
      SortFacts(regs[1..]);
      InsertFacts(regs[0], SortByAddress(regs[1..]));
      assert regs == [regs[0]] + regs[1..];
    }
  }

  ghost predicate Clear(reg: RegisterDef, regs: seq<RegisterDef>) {
    forall r :: r in regs ==> Disjoint(reg, r)
  }

  lemma ConsNoOverlap(reg: RegisterDef, regs: seq<RegisterDef>)
    ensures NoOverlap([reg] + regs) <==> NoOverlap(regs) && Clear(reg, regs)
  {
    var all := [reg] + regs;
    if NoOverlap(all) {
      forall i, j | 0 <= i < j < |regs| ensures Disjoint(regs[i], regs[j]) {
        assert Disjoint(all[i + 1], all[j + 1]);
      }
      forall r | r in regs ensures Disjoint(reg, r) {
        var i :| 0 <= i < |regs| && regs[i] == r;
        assert Disjoint(all[0], all[i + 1]);
      }
    }
  }

  lemma ClearCons(probe: RegisterDef, first: RegisterDef, rest: seq<RegisterDef>)
    ensures Clear(probe, [first] + rest) <==> Disjoint(probe, first) && Clear(probe, rest)
  {
    assert forall r :: r in [first] + rest <==> r == first || r in rest;
  }

  lemma ClearSame(probe: RegisterDef, a: seq<RegisterDef>, b: seq<RegisterDef>)
    requires SameMembers(a, b)
    ensures Clear(probe, a) <==> Clear(probe, b)
  {}

  lemma {:induction false} InsertNoOverlap(reg: RegisterDef, sorted: seq<RegisterDef>)
    requires Ascending(sorted)
    ensures NoOverlap(Insert(reg, sorted)) <==> NoOverlap(sorted) && Clear(reg, sorted)
  {
    ConsNoOverlap(reg, sorted);
    if sorted != [] && reg.address > sorted[0].address {
      var head, tail := sorted[0], sorted[1..];
      assert sorted == [head] + tail;
      InsertNoOverlap(reg, tail);
      ConsNoOverlap(head, tail);
      ConsNoOverlap(head, Insert(reg, tail));
      InsertFacts(reg, tail);
      ClearSame(head, Insert(reg, tail), [reg] + tail);
      ClearCons(head, reg, tail);
      ClearCons(reg, head, tail);
    }
  }

  lemma {:induction false} SortNoOverlap(regs: seq<RegisterDef>)
    ensures NoOverlap(SortByAddress(regs)) <==> NoOverlap(regs)
  {
    if regs != [] {
      var sorted := SortByAddress(regs[1..]);
      SortNoOverlap(regs[1..]);
      SortFacts(regs[1..]);
      InsertNoOverlap(regs[0], sorted);
      ConsNoOverlap(regs[0], regs[1..]);
      ClearSame(regs[0], sorted, regs[1..]);
      assert regs == [regs[0]] + regs[1..];
    }
  }

  lemma {:induction false} MemberOf(regs: seq<RegisterDef>, group: string, reg: RegisterDef)
    ensures reg in Members(regs, group) <==> reg in regs && reg.readGroup == Some(group)
  {
    if regs != [] {
      MemberOf(regs[..|regs| - 1], group, reg);
      assert regs == regs[..|regs| - 1] + [regs[|regs| - 1]];
    }
  }

  lemma InGroup(regs: seq<RegisterDef>, group: string, reg: RegisterDef)
    ensures reg in GroupOf(regs, group) <==> reg in regs && reg.readGroup == Some(group)
  {
    MemberOf(regs, group, reg);
    SortFacts(Members(regs, group));
  }

  lemma {:induction false} MembersNoOverlap(regs: seq<RegisterDef>, group: string)
    requires NoOverlap(regs)
    ensures NoOverlap(Members(regs, group))
  {
    if regs != [] {
      var front, last := regs[..|regs| - 1], regs[|regs| - 1];
      MembersNoOverlap(front, group);
      var members := Members(front, group);
      forall i | 0 <= i < |members| ensures Disjoint(members[i], last) {
        MemberOf(front, group, members[i]);
        var k :| 0 <= k < |front| && front[k] == members[i];
        assert Disjoint(regs[k], regs[|regs| - 1]);
      }
    }
  }

  // ---------------------------------------------------------------- validators

  /** Coercion keeps an accepted register accepted, now with its type spelled out and all else as it was. */
  lemma CoercedIsOk(reg: RegisterDef, typeGiven: bool)
    requires RegisterOk(reg, typeGiven) && (!typeGiven ==> reg.dataType.UInt16?)
    ensures RegisterOk(Coerced(reg), true)
    ensures reg.registerType.Coil? || reg.registerType.Discrete? ==> Coerced(reg).dataType.Bool?
    ensures reg.registerType.Holding? || reg.registerType.Input? ==> Coerced(reg) == reg
    ensures Coerced(reg).(dataType := reg.dataType) == reg
  {}

  // A register with nothing but an address, a scale and one bit.
  function Plain(address: int, gain: real, bitIndex: int): RegisterDef {
    RegisterDef("r", address, Holding, UInt16, UNSWAPPED, Some(LinearScale(gain, 0.0)), Some([BitDef("b", bitIndex)]),
                true, None, None, None, None)
  }

  /** The bounds of addresses and bits, and the one gain that is refused. */
  lemma PlainBounds(address: int, gain: real, bitIndex: int)
    ensures RegisterOk(Plain(address, gain, bitIndex), true)
       <==> 0 <= address <= 65535 && 0 <= bitIndex <= 15 && gain != 0.0
  {
    var reg := Plain(address, gain, bitIndex);
    assert reg.Bits() == [BitDef("b", bitIndex)];
    assert BitDef("b", bitIndex) in reg.Bits();
  }

  // `x` is one of the addresses read for the register: one bit, or 16-bit words as its type needs.
  predicate Occupies(reg: RegisterDef, x: int) {
    reg.address <= x < reg.address + (if reg.registerType.Coil? || reg.registerType.Discrete? then 1
                                      else match reg.dataType
                                           case UInt16 | Int16 | Bool => 1
                                           case UInt32 | Int32 | Float32 => 2
                                           case UInt64 | Int64 | Float64 => 4)
  }

  /** Two registers overlap exactly if they are of one type and some address belongs to both. */
  lemma OverlapIsShared(a: RegisterDef, b: RegisterDef)
    ensures Disjoint(a, b) <==> (a.registerType == b.registerType ==> forall x :: !(Occupies(a, x) && Occupies(b, x)))
  {
    if a.registerType == b.registerType && !Disjoint(a, b) {
      var x := if a.address >= b.address then a.address else b.address;
      assert Occupies(a, x) && Occupies(b, x);
    }
  }

  /** A group fits if from its first address to its last there are no more than 125 registers, or 2000 bits. */
  lemma SpanLimits(sorted: seq<RegisterDef>, end: int)
    requires sorted != [] && sorted[|sorted| - 1].registerType == sorted[0].registerType
    requires Occupies(sorted[|sorted| - 1], end - 1) && !Occupies(sorted[|sorted| - 1], end)
    ensures SpanOk(sorted) <==> end - sorted[0].address <= if sorted[0].registerType.Coil? || sorted[0].registerType.Discrete?
                                                           then 2000 else 125
  {
    var last := sorted[|sorted| - 1];
    assert end == last.address + Extent(last);
  }

  lemma NamesUpTo(regs: seq<RegisterDef>, i: nat)
    requires i < |regs|
    ensures AllNames(regs[..i + 1]) == AllNames(regs[..i]) + Names(regs[i])
  {
    assert regs[..i + 1][..i] == regs[..i];
  }

  method ValidateUniqueNames(regs: seq<RegisterDef>) returns (ok: bool)
    ensures ok <==> Unique(AllNames(regs))
  {
    var allNames: seq<string> := [];
    var i := 0;
    while i < |regs|
      invariant i <= |regs| && allNames == AllNames(regs[..i])
    {
      NamesUpTo(regs, i);
      allNames := allNames + Names(regs[i]);
      i := i + 1;
    }
    assert regs[..i] == regs;
    var duplicates := FindDuplicates(allNames);
    ok := duplicates == {};
  }

  ghost predicate Repeats(names: seq<string>, name: string) {
    exists i, j :: 0 <= i < j < |names| && names[i] == names[j] == name
  }

  method FindDuplicates(names: seq<string>) returns (duplicates: set<string>)
    ensures forall n :: n in duplicates <==> Repeats(names, n)
    ensures duplicates == {} <==> Unique(names)
  {
    var seen: set<string> := {};
    duplicates := {};
    var i := 0;
    while i < |names|
      invariant i <= |names|
      invariant forall n :: n in seen <==> n in names[..i]
      invariant forall n :: n in duplicates <==> Repeats(names[..i], n)
    {
      var name := names[i];
      RepeatsSnoc(names[..i], name);
      assert names[..i + 1] == names[..i] + [name];
      if name in seen {
        duplicates := duplicates + {name};
      }
      seen := seen + {name};
      i := i + 1;
    }
    assert names[..i] == names;
    NothingRepeats(names);
  }

  lemma RepeatsSnoc(names: seq<string>, name: string)
    ensures forall n :: Repeats(names + [name], n) <==> Repeats(names, n) || (n == name && name in names)
  {
    var longer := names + [name];
    forall n ensures Repeats(longer, n) <==> Repeats(names, n) || (n == name && name in names) {
      if Repeats(longer, n) {
        var i, j :| 0 <= i < j < |longer| && longer[i] == longer[j] == n;
        assert j < |names| ==> names[i] == names[j] == n;
        assert j == |names| ==> names[i] == n;
      }
      if Repeats(names, n) {
        var i, j :| 0 <= i < j < |names| && names[i] == names[j] == n;
        assert longer[i] == longer[j] == n;
      }
      if name in names {
        var i :| 0 <= i < |names| && names[i] == name;
        assert longer[i] == longer[|names|] == name;
      }
    }
  }

  lemma NothingRepeats(names: seq<string>)
    ensures Unique(names) <==> forall n :: !Repeats(names, n)
  {
    if !Unique(names) {
      var i, j :| 0 <= i < j < |names| && names[i] == names[j];
      assert Repeats(names, names[i]);
    }
  }

  function OfType(regs: seq<RegisterDef>, t: RegisterType): seq<RegisterDef> {
    if regs == [] then []
    else OfType(regs[..|regs| - 1], t)
         + if regs[|regs| - 1].registerType == t then [regs[|regs| - 1]] else []
  }

  lemma {:induction false} OfTypeMember(regs: seq<RegisterDef>, t: RegisterType, r: RegisterDef)
    ensures r in OfType(regs, t) <==> r in regs && r.registerType == t
  {
    if regs != [] {
      OfTypeMember(regs[..|regs| - 1], t, r);
      assert regs == regs[..|regs| - 1] + [regs[|regs| - 1]];
    }
  }

  lemma SnocNoOverlap(regs: seq<RegisterDef>, reg: RegisterDef)
    ensures NoOverlap(regs + [reg]) <==> NoOverlap(regs) && Clear(reg, regs)
  {
    var all := regs + [reg];
    if NoOverlap(all) {
      forall i, j | 0 <= i < j < |regs| ensures Disjoint(regs[i], regs[j]) {
        assert Disjoint(all[i], all[j]);
      }
      forall r | r in regs ensures Disjoint(reg, r) {
        var i :| 0 <= i < |regs| && regs[i] == r;
        assert Disjoint(all[i], all[|regs|]);
      }
    }
    if NoOverlap(regs) && Clear(reg, regs) {
      forall i, j | 0 <= i < j < |all| ensures Disjoint(all[i], all[j]) {
        if j == |regs| {
          assert regs[i] in regs;
        } else {
          assert Disjoint(regs[i], regs[j]);
        }
      }
    }
  }

  lemma ClearOfOwnType(regs: seq<RegisterDef>, reg: RegisterDef)
    ensures Clear(reg, OfType(regs, reg.registerType)) <==> Clear(reg, regs)
  {
    forall r ensures r in OfType(regs, reg.registerType) <==> r in regs && r.registerType == reg.registerType {
      OfTypeMember(regs, reg.registerType, r);
    }
  }

  lemma SnocOfType(regs: seq<RegisterDef>, reg: RegisterDef, t: RegisterType)
    ensures NoOverlap(OfType(regs + [reg], t))
       <==> NoOverlap(OfType(regs, t)) && (reg.registerType == t ==> Clear(reg, regs))
  {
    AppendOfType(regs, reg, t);
    SnocNoOverlap(OfType(regs, t), reg);
    ClearOfOwnType(regs, reg);
  }

  ghost predicate NoOverlapWithin(regs: seq<RegisterDef>, t: RegisterType) {
    NoOverlap(OfType(regs, t))
  }

  lemma {:induction false} NoOverlapByType(regs: seq<RegisterDef>)
    ensures NoOverlap(regs) <==> forall t :: NoOverlapWithin(regs, t)
  {
    if regs == [] {
      assert forall t :: OfType(regs, t) == [];
    } else {
      var front, last := regs[..|regs| - 1], regs[|regs| - 1];
      NoOverlapByType(front);
      assert regs == front + [last];
      SnocNoOverlap(front, last);
      forall t
        ensures NoOverlapWithin(regs, t)
           <==> NoOverlapWithin(front, t) && (last.registerType == t ==> Clear(last, front))
      {
        SnocOfType(front, last, t);
      }
      var own := last.registerType;
      assert NoOverlapWithin(regs, own) <==> NoOverlapWithin(front, own) && Clear(last, front);
    }
  }

  function Lookup<K>(m: map<K, seq<RegisterDef>>, k: K): seq<RegisterDef> {
    if k in m then m[k] else []
  }

  lemma LookupUpdate(m: map<string, seq<RegisterDef>>, k: string, v: seq<RegisterDef>)
    ensures forall h :: Lookup(m[k := v], h) == if h == k then v else Lookup(m, h)
  {
    forall h ensures Lookup(m[k := v], h) == if h == k then v else Lookup(m, h) {
      assert h in m[k := v] <==> h == k || h in m;
    }
  }

  method GroupByType(regs: seq<RegisterDef>) returns (byType: map<RegisterType, seq<RegisterDef>>)
    ensures forall t :: Lookup(byType, t) == OfType(regs, t)
  {
    byType := map[];
    var i := 0;
    while i < |regs|
      invariant i <= |regs|
      invariant forall t :: Lookup(byType, t) == OfType(regs[..i], t)
    {
      var t := regs[i].registerType;
      var longer := Lookup(byType, t) + [regs[i]];
      ghost var before := byType;
      byType := byType[t := longer];
      forall u ensures Lookup(byType, u) == OfType(regs[..i + 1], u) {
        ByTypeSnoc(regs, i, before, byType, u);
      }
      i := i + 1;
    }
    assert regs[..i] == regs;
  }

  lemma ByTypeSnoc(regs: seq<RegisterDef>, i: nat, before: map<RegisterType, seq<RegisterDef>>,
                   after: map<RegisterType, seq<RegisterDef>>, t: RegisterType)
    requires i < |regs| && Lookup(before, t) == OfType(regs[..i], t)
    requires var u := regs[i].registerType; after == before[u := Lookup(before, u) + [regs[i]]]
    ensures Lookup(after, t) == OfType(regs[..i + 1], t)
  {
    var front := regs[..i];
    assert regs[..i + 1] == front + [regs[i]];
    AppendOfType(front, regs[i], t);
  }

  lemma AppendOfType(regs: seq<RegisterDef>, reg: RegisterDef, t: RegisterType)
    ensures OfType(regs + [reg], t) == if reg.registerType == t then OfType(regs, t) + [reg] else OfType(regs, t)
  {
    assert (regs + [reg])[..|regs|] == regs;
    assert OfType(regs, t) + [] == OfType(regs, t);
  }

  method ValidateNoOverlap(regs: seq<RegisterDef>) returns (ok: bool)
    ensures ok <==> NoOverlap(regs)
  {
    var byType := GroupByType(regs);
    NoOverlapByType(regs);
    var types := byType.Keys;
    forall t | t !in types ensures NoOverlapWithin(regs, t) {
      assert Lookup(byType, t) == [];
    }
    while types != {}
      invariant types <= byType.Keys
      invariant forall t :: t !in types ==> NoOverlapWithin(regs, t)
      decreases types
    {
      var t :| t in types;
      assert Lookup(byType, t) == byType[t];
      SortNoOverlap(byType[t]);
      ok := CheckSorted(SortByAddress(byType[t]));
      if !ok {
        assert !NoOverlapWithin(regs, t);
        return;
      }
      types := types - {t};
    }
    ok := true;
  }

  method CheckSorted(regs: seq<RegisterDef>) returns (ok: bool)
    ensures ok <==> NoOverlap(regs)
  {
    var i := 0;
    while i < |regs|
      invariant i <= |regs|
      invariant forall a, b :: 0 <= a < i && a < b < |regs| ==> Disjoint(regs[a], regs[b])
    {
      var start1 := regs[i].address;
      var end1 := start1 + Extent(regs[i]) - 1;
      var j := i + 1;
      while j < |regs|
        invariant i < j <= |regs|
        invariant forall b :: i < b < j ==> Disjoint(regs[i], regs[b])
      {
        var start2 := regs[j].address;
        var end2 := start2 + Extent(regs[j]) - 1;
        if regs[i].registerType == regs[j].registerType && start1 <= end2 && start2 <= end1 {
          assert !Disjoint(regs[i], regs[j]);
          return false;
        }
        j := j + 1;
      }
      i := i + 1;
    }
    ok := true;
  }

  method ValidateGroupTypes(regs: seq<RegisterDef>) returns (ok: bool)
    ensures ok <==> GroupsOk(regs)
  {
    var groups: map<string, RegisterType> := map[];
    var i := 0;
    while i < |regs|
      invariant i <= |regs|
      invariant forall k :: 0 <= k < i && regs[k].readGroup.Some? ==>
                  && regs[k].poll
                  && regs[k].readGroup.value in groups
                  && groups[regs[k].readGroup.value] == regs[k].registerType
      invariant forall g :: g in groups ==> exists k :: 0 <= k < i && regs[k].readGroup == Some(g)
    {
      var reg := regs[i];
      if reg.readGroup.Some? {
        var g := reg.readGroup.value;
        if !reg.poll {
          return false;
        }
        if g in groups {
          if groups[g] != reg.registerType {
            var k :| 0 <= k < i && regs[k].readGroup == Some(g);
            assert regs[k].registerType != regs[i].registerType;
            return false;
          }
        } else {
          groups := groups[g := reg.registerType];
        }
      }
      i := i + 1;
    }
    ok := true;
  }

  method CollectGroups(regs: seq<RegisterDef>) returns (groups: map<string, seq<RegisterDef>>)
    ensures groups.Keys == Groups(regs)
    ensures forall g :: Lookup(groups, g) == Members(regs, g)
  {
    groups := map[];
    var i := 0;
    while i < |regs|
      invariant i <= |regs|
      invariant groups.Keys == Groups(regs[..i])
      invariant forall g :: Lookup(groups, g) == Members(regs[..i], g)
    {
      var reg := regs[i];
      GroupsSnoc(regs, i);
      MembersSnoc(regs, i);
      if reg.readGroup.Some? {
        var g := reg.readGroup.value;
        var longer := Lookup(groups, g) + [reg];
        LookupUpdate(groups, g, longer);
        groups := groups[g := longer];
      }
      i := i + 1;
    }
    assert regs[..i] == regs;
  }

  lemma MembersSnoc(regs: seq<RegisterDef>, i: nat)
    requires i < |regs|
    ensures forall g :: Members(regs[..i + 1], g) == if regs[i].readGroup == Some(g) then Members(regs[..i], g) + [regs[i]]
                                                     else Members(regs[..i], g)
  {
    assert regs[..i + 1][..i] == regs[..i];
    assert forall s: seq<RegisterDef> :: s + [] == s;
  }

  method BuildGroupIndex(regs: seq<RegisterDef>) returns (groups: map<string, seq<RegisterDef>>)
    ensures groups.Keys == Groups(regs)
    ensures forall g :: g in groups ==> groups[g] == GroupOf(regs, g)
  {
    var collected := CollectGroups(regs);
    groups := collected;
    var todo := groups.Keys;
    while todo != {}
      invariant todo <= groups.Keys == collected.Keys
      invariant forall g :: g in groups ==> groups[g] == if g in todo then collected[g] else SortByAddress(collected[g])
      decreases todo
    {
      var g :| g in todo;
      groups := groups[g := SortByAddress(groups[g])];
      todo := todo - {g};
    }
    forall g | g in groups ensures groups[g] == GroupOf(regs, g) {
      assert Lookup(collected, g) == collected[g];
    }
  }

  lemma GroupsSnoc(regs: seq<RegisterDef>, i: nat)
    requires i < |regs|
    ensures Groups(regs[..i + 1])
         == Groups(regs[..i]) + if regs[i].readGroup.Some? then {regs[i].readGroup.value} else {}
  {
    var longer, shorter := regs[..i + 1], regs[..i];
    forall k | 0 <= k < |shorter| ensures longer[k] == shorter[k] {}
    assert longer[i] == regs[i];
    forall g | g in Groups(longer)
      ensures g in Groups(shorter) + if regs[i].readGroup.Some? then {regs[i].readGroup.value} else {}
    {
      var k :| 0 <= k < |longer| && longer[k].readGroup == Some(g);
      assert k < i ==> shorter[k].readGroup == Some(g);
    }
    forall g | g in Groups(shorter) ensures g in Groups(longer) {
      var k :| 0 <= k < |shorter| && shorter[k].readGroup == Some(g);
      assert longer[k].readGroup == Some(g);
    }
  }

  lemma GroupNotEmpty(regs: seq<RegisterDef>, g: string)
    requires g in Groups(regs)
    ensures GroupOf(regs, g) != []
  {
    var k :| 0 <= k < |regs| && regs[k].readGroup == Some(g);
    InGroup(regs, g, regs[k]);
  }

  method ValidateGroupSpan(regs: seq<RegisterDef>) returns (ok: bool)
    ensures ok <==> SpansOk(regs)
  {
    var index := BuildGroupIndex(regs);
    var todo := index.Keys;
    while todo != {}
      invariant todo <= index.Keys
      invariant forall g :: g in index && g !in todo ==> SpanOk(index[g])
      decreases todo
    {
      var g :| g in todo;
      GroupNotEmpty(regs, g);
      var members := index[g];
      if !SpanOk(members) {
        return false;
      }
      todo := todo - {g};
    }
    ok := true;
  }

  /** All validators in the order the configuration runs them. */
  method ValidateConfig(protocol: string, regs: seq<RegisterDef>) returns (ok: bool)
    requires forall i :: 0 <= i < |regs| ==> RegisterOk(regs[i], true)
    ensures ok <==> protocol == "modbus" && Accepted(regs)
  {
    ok := protocol == "modbus";
    if ok {
      ok := ValidateUniqueNames(regs);
    }
    if ok {
      ok := ValidateNoOverlap(regs);
    }
    if ok {
      ok := ValidateGroupTypes(regs);
    }
    if ok {
      ok := ValidateGroupSpan(regs);
    }
  }
}
