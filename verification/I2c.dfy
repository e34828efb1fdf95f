/**
 Bit fields of I2C registers: the data codec of instro/i2c/types.py and the
 field read-modify-write of instro/i2c/i2c.py.
 */
module I2c {
  import opened Wrappers
  import opened Bits

  datatype I2cError = OutOfRange | NegativeShift | BadTransferBits | BadAddressWidth | Overflow

  // ---------------------------------------------------------------- masks

  function Mask(lsb: nat, width: nat): int {
    Shl(Ones(width), lsb)
  }

  lemma MaskBit(lsb: nat, width: nat, k: nat)
    ensures Bit(Mask(lsb, width), k) == (lsb <= k < lsb + width)
  {
    ShlBit(Ones(width), lsb, k);
    if k >= lsb {
      OnesBit(width, k - lsb);
    }
  }

  // The field's bits, shifted down.
  function Slice(raw: int, lsb: nat, width: nat): int {
    Shr(And(raw, Mask(lsb, width)), lsb)
  }

  lemma SliceBit(raw: int, lsb: nat, width: nat, k: nat)
    ensures Bit(Slice(raw, lsb, width), k) == (k < width && Bit(raw, k + lsb))
  {
    ShrBit(And(raw, Mask(lsb, width)), lsb, k);
    BitwiseBit(AndOp, raw, Mask(lsb, width), k + lsb);
    MaskBit(lsb, width, k + lsb);
  }

  lemma SliceFits(raw: int, lsb: nat, width: nat)
    ensures 0 <= Slice(raw, lsb, width) < Shl(1, width)
  {
    forall k: nat | k >= width ensures !Bit(Slice(raw, lsb, width), k) {
      SliceBit(raw, lsb, width, k);
    }
    FitsIff(Slice(raw, lsb, width), width);
  }

  lemma LowBit(x: int, n: nat, k: nat)
    ensures Bit(And(x, Ones(n)), k) == (k < n && Bit(x, k))
  {
    BitwiseBit(AndOp, x, Ones(n), k);
    OnesBit(n, k);
  }

  // ---------------------------------------------------------------- data codec

  datatype LinearScaling = LinearScaling(gain: real, offset: real)

  // A width of zero stands for the whole transfer.
  datatype DataFormat = DataFormat(
    transferBits: nat,
    dataWidthBits: nat,
    dataLsb: nat,
    signed: bool,
    scaling: Option<LinearScaling>)

  function LogicalWidth(fmt: DataFormat): nat {
    if fmt.dataWidthBits != 0 then fmt.dataWidthBits else fmt.transferBits
  }

  function SignExtend(value: int, width: nat): int {
    if width == 0 then 0
    else
      var signBit := Shl(1, width - 1);
      Xor(And(value, Ones(width)), signBit) - signBit
  }

  function ExtractData(fmt: DataFormat, raw: int): int {
    var width := LogicalWidth(fmt);
    var field := Slice(raw, fmt.dataLsb, width);
    if fmt.signed then SignExtend(field, width) else field
  }

  function PackData(fmt: DataFormat, data: int): Result<int, I2cError> {
    var width := LogicalWidth(fmt);
    if fmt.signed && width == 0 then Err(NegativeShift)
    else if data < (if fmt.signed then -Shl(1, width - 1) else 0)
         || data > (if fmt.signed then Shl(1, width - 1) else Shl(1, width)) - 1 then Err(OutOfRange)
    else Ok(And(Shl(And(data, Ones(width)), fmt.dataLsb), Ones(fmt.transferBits)))
  }

  function ToPhysical(fmt: DataFormat, data: int): real {
    if fmt.scaling.Some? then fmt.scaling.value.offset + fmt.scaling.value.gain * data as real else data as real
  }

  function FloatFromRaw(fmt: DataFormat, raw: int): real {
    ToPhysical(fmt, ExtractData(fmt, raw))
  }

  // What two's complement says `width` bits mean.
  function TwosComplement(u: int, width: nat): int
    requires width > 0
  {
    if u >= Shl(1, width - 1) then u - Shl(1, width) else u
  }

  lemma {:induction false} FlipSign(u: int, width: nat)
    requires width > 0 && 0 <= u < Shl(1, width)
    ensures Xor(u, Shl(1, width - 1))
         == if u >= Shl(1, width - 1) then u - Shl(1, width - 1) else u + Shl(1, width - 1)
    decreases width
  {
    var sign := Shl(1, width - 1);
    if width == 1 {
      assert u == 0 || u == 1;
      assert sign == 1;
      assert Xor(0, 0) == 0;
    } else {
      PowerPositive(width - 2);
      assert sign == 2 * Shl(1, width - 2) && sign / 2 == Shl(1, width - 2) && sign % 2 == 0;
      FlipSign(u / 2, width - 1);
      assert Xor(u, sign) == 2 * Xor(u / 2, sign / 2) + u % 2;
    }
  }

  /** The xor-and-subtract form is two's complement, whatever lies above the field. */
  lemma SignExtendIsTwosComplement(value: int, width: nat)
    requires width > 0
    ensures Shl(1, width) > 0
    ensures SignExtend(value, width) == TwosComplement(value % Shl(1, width), width)
  {
    LowBits(value, width);
    FlipSign(value % Shl(1, width), width);
  }

  lemma InModulus(u: int, p: int)
    requires 0 <= u < p
    ensures u % p == u
  {}

  lemma ModOfNegative(d: int, p: int)
    requires -p <= d < 0
    ensures d % p == d + p
  {}

  // The field of a container that was packed from `data`.
  lemma SliceOfContainer(fmt: DataFormat, data: int)
    requires fmt.dataLsb + LogicalWidth(fmt) <= fmt.transferBits
    ensures var width := LogicalWidth(fmt);
            Slice(And(Shl(And(data, Ones(width)), fmt.dataLsb), Ones(fmt.transferBits)), fmt.dataLsb, width)
            == And(data, Ones(width))
  {
    var width, lsb := LogicalWidth(fmt), fmt.dataLsb;
    var low := And(data, Ones(width));
    var container := And(Shl(low, lsb), Ones(fmt.transferBits));
    forall k: nat ensures Bit(Slice(container, lsb, width), k) == Bit(low, k) {
      SliceBit(container, lsb, width, k);
      LowBit(Shl(low, lsb), fmt.transferBits, k + lsb);
      ShlBit(low, lsb, k + lsb);
      LowBit(data, width, k);
    }
    SameBits(Slice(container, lsb, width), low);
  }

  // Reading the low bits back as signed or unsigned gives the value they were taken from.
  lemma LowBitsMean(data: int, width: nat, signed: bool)
    requires width > 0
    requires if signed then -Shl(1, width - 1) <= data < Shl(1, width - 1) else 0 <= data < Shl(1, width)
    ensures var low := And(data, Ones(width));
            (if signed then SignExtend(low, width) else low) == data
  {
    LowBits(data, width);
    var low := And(data, Ones(width));
    if data >= 0 {
      InModulus(data, Shl(1, width));
    } else {
      ModOfNegative(data, Shl(1, width));
    }
    SignExtendIsTwosComplement(low, width);
    InModulus(low, Shl(1, width));
  }

  /** Packing accepts exactly the range of the field, and extracting undoes it. */
  lemma PackThenExtract(fmt: DataFormat, data: int)
    requires LogicalWidth(fmt) > 0 && fmt.dataLsb + LogicalWidth(fmt) <= fmt.transferBits
    ensures var width := LogicalWidth(fmt);
            PackData(fmt, data).Ok? <==>
              if fmt.signed then -Shl(1, width - 1) <= data < Shl(1, width - 1) else 0 <= data < Shl(1, width)
    ensures PackData(fmt, data).Ok? ==> ExtractData(fmt, PackData(fmt, data).value) == data
  {
    if PackData(fmt, data).Ok? {
      SliceOfContainer(fmt, data);
      LowBitsMean(data, LogicalWidth(fmt), fmt.signed);
    }
  }

  /** A format without any bits packs nothing but an unsigned zero. */
  lemma PackWithoutWidth(fmt: DataFormat, data: int)
    requires fmt.dataWidthBits == 0 && fmt.transferBits == 0
    ensures PackData(fmt, data) == if fmt.signed then Err(NegativeShift) else if data == 0 then Ok(0) else Err(OutOfRange)
  {
    if data == 0 {
      LowBits(0, 0);
      LowBits(Shl(0, fmt.dataLsb), 0);
    }
  }

  /** For which formats packing loses nothing: exactly those whose field lies inside the transfer. */
  lemma PackIsLosslessIff(fmt: DataFormat)
    requires LogicalWidth(fmt) > 0
    ensures (forall data :: PackData(fmt, data).Ok? ==> ExtractData(fmt, PackData(fmt, data).value) == data)
       <==> fmt.dataLsb + LogicalWidth(fmt) <= fmt.transferBits
  {
    var width := LogicalWidth(fmt);
    if fmt.dataLsb + width <= fmt.transferBits {
      forall data ensures PackData(fmt, data).Ok? ==> ExtractData(fmt, PackData(fmt, data).value) == data {
        PackThenExtract(fmt, data);
      }
    } else {
      TopBitIsLost(fmt);
    }
  }

  // The value whose field is all ones.
  function AllOnes(fmt: DataFormat): int {
    if fmt.signed then -1 else Ones(LogicalWidth(fmt))
  }

  lemma TopBitIsLost(fmt: DataFormat)
    requires LogicalWidth(fmt) > 0 && fmt.dataLsb + LogicalWidth(fmt) > fmt.transferBits
    ensures PackData(fmt, AllOnes(fmt)).Ok?
    ensures ExtractData(fmt, PackData(fmt, AllOnes(fmt)).value) != AllOnes(fmt)
  {
    var width, lsb := LogicalWidth(fmt), fmt.dataLsb;
    var data := AllOnes(fmt);
    PowerPositive(width);
    PowerPositive(width - 1);
    var packed := PackData(fmt, data).value;
    var field := Slice(packed, lsb, width);
    var top := width - 1;
    SliceBit(packed, lsb, width, top);
    LowBit(Shl(And(data, Ones(width)), lsb), fmt.transferBits, top + lsb);
    assert !Bit(field, top);
    if fmt.signed {
      SliceFits(packed, lsb, width);
      SignExtendIsTwosComplement(field, width);
      InModulus(field, Shl(1, width));
      AllOnesTop(field, width);
    } else {
      OnesBit(width, top);
    }
  }

  lemma AllOnesTop(field: int, width: nat)
    requires width > 0 && 0 <= field < Shl(1, width) && !Bit(field, width - 1)
    ensures TwosComplement(field, width) != -1
  {
    if field == Ones(width) {
      OnesBit(width, width - 1);
    }
  }

  /** Extracting and packing again keeps the field and clears everything else. */
  lemma ExtractThenPack(fmt: DataFormat, raw: int)
    requires LogicalWidth(fmt) > 0 && fmt.dataLsb + LogicalWidth(fmt) <= fmt.transferBits
    ensures PackData(fmt, ExtractData(fmt, raw)) == Ok(And(raw, Mask(fmt.dataLsb, LogicalWidth(fmt))))
  {
    var width, lsb := LogicalWidth(fmt), fmt.dataLsb;
    var field := Slice(raw, lsb, width);
    var data := ExtractData(fmt, raw);
    SliceFits(raw, lsb, width);
    SignExtendIsTwosComplement(field, width);
    InModulus(field, Shl(1, width));
    LowBits(data, width);
    if data < 0 {
      ModOfNegative(data, Shl(1, width));
    } else {
      InModulus(data, Shl(1, width));
    }
    assert And(data, Ones(width)) == field;
    var packed := And(Shl(field, lsb), Ones(fmt.transferBits));
    forall k: nat ensures Bit(packed, k) == Bit(And(raw, Mask(lsb, width)), k) {
      LowBit(Shl(field, lsb), fmt.transferBits, k);
      ShlBit(field, lsb, k);
      if k >= lsb {
        SliceBit(raw, lsb, width, k - lsb);
      }
      BitwiseBit(AndOp, raw, Mask(lsb, width), k);
      MaskBit(lsb, width, k);
    }
    SameBits(packed, And(raw, Mask(lsb, width)));
  }

  // ---------------------------------------------------------------- register fields

  datatype FieldDef = FieldDef(lsb: nat, width: nat)

  function ReadField(response: int, field: FieldDef): int {
    Slice(response, field.lsb, field.width)
  }

  // The register with the field replaced by `value`.
  function Merge(current: int, value: int, field: FieldDef): int {
    var mask := Mask(field.lsb, field.width);
    Or(And(current, Not(mask)), And(Shl(value, field.lsb), mask))
  }

  lemma MergeBit(current: int, value: int, field: FieldDef, k: nat)
    ensures Bit(Merge(current, value, field), k)
         == if field.lsb <= k < field.lsb + field.width then Bit(value, k - field.lsb) else Bit(current, k)
  {
    var mask := Mask(field.lsb, field.width);
    BitwiseBit(OrOp, And(current, Not(mask)), And(Shl(value, field.lsb), mask), k);
    BitwiseBit(AndOp, current, Not(mask), k);
    BitwiseBit(AndOp, Shl(value, field.lsb), mask, k);
    NotBit(mask, k);
    MaskBit(field.lsb, field.width, k);
    ShlBit(value, field.lsb, k);
  }

  predicate Apart(f: FieldDef, g: FieldDef) {
    f.lsb + f.width <= g.lsb || g.lsb + g.width <= f.lsb
  }

  /** A merged field reads as the value modulo two to its width; every field apart from it as before. */
  lemma MergeThenRead(current: int, value: int, field: FieldDef, other: FieldDef)
    ensures Shl(1, field.width) > 0
    ensures ReadField(Merge(current, value, field), field) == value % Shl(1, field.width)
    ensures Apart(field, other) ==> ReadField(Merge(current, value, field), other) == ReadField(current, other)
  {
    var merged := Merge(current, value, field);
    var low := And(value, Ones(field.width));
    forall k: nat ensures Bit(ReadField(merged, field), k) == Bit(low, k) {
      SliceBit(merged, field.lsb, field.width, k);
      MergeBit(current, value, field, k + field.lsb);
      LowBit(value, field.width, k);
    }
    SameBits(ReadField(merged, field), low);
    LowBits(value, field.width);
    if Apart(field, other) {
      forall k: nat ensures Bit(ReadField(merged, other), k) == Bit(ReadField(current, other), k) {
        SliceBit(merged, other.lsb, other.width, k);
        SliceBit(current, other.lsb, other.width, k);
        MergeBit(current, value, field, k + other.lsb);
      }
      SameBits(ReadField(merged, other), ReadField(current, other));
    }
  }

  /** Whatever the value, a merge fits the register exactly when the field lies inside it. */
  lemma MergeFitsIff(current: int, field: FieldDef, bits: nat)
    requires 0 <= current < Shl(1, bits) && field.width > 0
    ensures (forall value: int :: 0 <= Merge(current, value, field) < Shl(1, bits))
       <==> field.lsb + field.width <= bits
  {
    FitsIff(current, bits);
    if field.lsb + field.width <= bits {
      forall value: int ensures 0 <= Merge(current, value, field) < Shl(1, bits) {
        MergeFits(current, value, field, bits);
      }
    } else {
      var top := field.lsb + field.width - 1;
      MergeBit(current, -1, field, top);
      SignBits(-1, field.width - 1);
      FitsIff(Merge(current, -1, field), bits);
      assert !ZerosFrom(Merge(current, -1, field), bits);
    }
  }

  lemma MergeFits(current: int, value: int, field: FieldDef, bits: nat)
    requires 0 <= current < Shl(1, bits) && field.lsb + field.width <= bits
    ensures 0 <= Merge(current, value, field) < Shl(1, bits)
  {
    FitsIff(current, bits);
    forall k: nat | k >= bits ensures !Bit(Merge(current, value, field), k) {
      MergeBit(current, value, field, k);
    }
    FitsIff(Merge(current, value, field), bits);
  }

  // ---------------------------------------------------------------- bytes

  datatype Endianness = Little | Big

  function FromLittle(b: seq<int>): int {
    if b == [] then 0 else b[0] + 256 * FromLittle(b[1..])
  }

  function ToLittle(v: int, n: nat): (b: seq<int>)
    ensures |b| == n
    decreases n
  {
    if n == 0 then [] else [v % 256] + ToLittle(v / 256, n - 1)
  }

  function Reverse(b: seq<int>): (r: seq<int>)
    ensures |r| == |b|
    ensures forall k :: 0 <= k < |b| ==> r[k] == b[|b| - 1 - k]
  {
    if b == [] then [] else Reverse(b[1..]) + [b[0]]
  }

  lemma ReverseTwice(b: seq<int>)
    ensures Reverse(Reverse(b)) == b
  {}

  function FromBytes(b: seq<int>, e: Endianness): int {
    FromLittle(if e.Big? then Reverse(b) else b)
  }

  // int.to_bytes raises for a value the bytes cannot hold.
  function ToBytes(v: int, n: nat, e: Endianness): Result<seq<int>, I2cError> {
    if 0 <= v < Shl(1, 8 * n) then Ok(if e.Big? then Reverse(ToLittle(v, n)) else ToLittle(v, n))
    else Err(Overflow)
  }

  /** Which end comes first. */
  lemma ByteOrder(a: int, b: int)
    ensures FromBytes([a, b], Little) == a + 256 * b
    ensures FromBytes([a, b], Big) == 256 * a + b
  {
    assert Reverse([a, b]) == [b, a];
    LittleTwo(a, b);
    LittleTwo(b, a);
  }

  lemma LittleTwo(x: int, y: int)
    ensures FromLittle([x, y]) == x + 256 * y
  {
    var rest := [x, y][1..];
    assert rest == [y] && rest[1..] == [];
    assert FromLittle(rest[1..]) == 0;
    assert FromLittle(rest) == y;
  }

  lemma ByteStep(n: nat)
    requires n > 0
    ensures Shl(1, 8 * n) == 256 * Shl(1, 8 * (n - 1))
  {
    EightSteps(8 * (n - 1), 8 * n);
  }

  lemma EightSteps(m: nat, k: nat)
    requires k == m + 8
    ensures Shl(1, k) == 256 * Shl(1, m)
  {
    FourSteps(m);
    FourSteps(m + 4);
  }

  lemma FourSteps(m: nat)
    ensures Shl(1, m + 4) == 16 * Shl(1, m)
  {
    assert Shl(1, m + 2) == 2 * Shl(1, m + 1);
    assert Shl(1, m + 3) == 2 * Shl(1, m + 2);
  }

  lemma {:induction false} LittleRoundTrip(v: int, n: nat)
    requires 0 <= v < Shl(1, 8 * n)
    ensures FromLittle(ToLittle(v, n)) == v
    decreases n
  {
    if n > 0 {
      ByteStep(n);
      LittleRoundTrip(v / 256, n - 1);
      assert ToLittle(v, n)[1..] == ToLittle(v / 256, n - 1);
    }
  }

  /** In either byte order, what fits is read back. */
  lemma BytesRoundTrip(v: int, n: nat, e: Endianness)
    requires ToBytes(v, n, e).Ok?
    ensures |ToBytes(v, n, e).value| == n && FromBytes(ToBytes(v, n, e).value, e) == v
  {
    ReverseTwice(ToLittle(v, n));
    LittleRoundTrip(v, n);
  }

  lemma {:induction false} LittleFits(b: seq<int>)
    requires forall k :: 0 <= k < |b| ==> 0 <= b[k] < 256
    ensures 0 <= FromLittle(b) < Shl(1, 8 * |b|)
  {
    if b != [] {
      ByteStep(|b|);
      LittleFits(b[1..]);
    }
  }

  // ---------------------------------------------------------------- the bus

  datatype RegisterDef = RegisterDef(register: int, format: DataFormat, endianness: Endianness)

  datatype RegisterDevice = RegisterDevice(address: int, addrWidthBytes: int)

  // What each device holds, by device address and register address bytes.
  type Location = (int, seq<int>)
  type Bus = map<Location, seq<int>>

  predicate BusOk(bus: Bus) {
    forall at :: at in bus ==> forall k :: 0 <= k < |bus[at]| ==> 0 <= bus[at][k] < 256
  }

  function AddrPrefix(addrWidthBytes: int, register: int): Result<seq<int>, I2cError> {
    if addrWidthBytes == 1 then Ok([And(register, 0xFF)])
    else if addrWidthBytes == 2 then ToBytes(register, 2, Big)
    else Err(BadAddressWidth)
  }

  function DataWidthBytes(reg: RegisterDef): Result<nat, I2cError> {
    if reg.format.transferBits % 8 != 0 then Err(BadTransferBits) else Ok(reg.format.transferBits / 8)
  }

  // What a device answers to a read of n bytes; registers power up as zeros.
  function Answer(bus: Bus, at: Location, n: nat): (b: seq<int>)
    ensures |b| == n
    ensures BusOk(bus) ==> forall k :: 0 <= k < n ==> 0 <= b[k] < 256
  {
    if at in bus && |bus[at]| == n then bus[at] else seq(n, _ => 0)
  }

  function ReadRegister(bus: Bus, dev: RegisterDevice, reg: RegisterDef): Result<int, I2cError> {
    var prefix :- AddrPrefix(dev.addrWidthBytes, reg.register);
    var n :- DataWidthBytes(reg);
    Ok(FromBytes(Answer(bus, (dev.address, prefix), n), reg.endianness))
  }

  // The value a read publishes: a field as it is, a whole register in physical units.
  function ReadValue(bus: Bus, dev: RegisterDevice, reg: RegisterDef, field: Option<FieldDef>): Result<real, I2cError> {
    var response :- ReadRegister(bus, dev, reg);
    Ok(match field
       case Some(f) => ReadField(response, f) as real
       case None => FloatFromRaw(reg.format, response))
  }

  /** The bus after writing a register, or one field of it. */
  function Written(bus: Bus, dev: RegisterDevice, reg: RegisterDef, value: int, field: Option<FieldDef>)
    : Result<Bus, I2cError>
  {
    var prefix :- AddrPrefix(dev.addrWidthBytes, reg.register);
    var n :- DataWidthBytes(reg);
    var data := match field
                case None => value
                case Some(f) => Merge(FromBytes(Answer(bus, (dev.address, prefix), n), reg.endianness), value, f);
    var payload :- ToBytes(data, n, reg.endianness);
    Ok(bus[(dev.address, prefix) := payload])
  }

  class I2cInterface {
    var bus: Bus

    constructor (bus: Bus)
      ensures this.bus == bus
    {
      this.bus := bus;
    }

    method WriteReadRaw(address: int, payload: seq<int>, length: nat, e: Endianness) returns (v: int)
      ensures v == FromBytes(Answer(bus, (address, payload), length), e)
    {
      var data := Answer(bus, (address, payload), length);
      v := FromBytes(data, e);
    }

    /** A field is masked out and shifted down; a whole register goes through its format. */
    method Read(dev: RegisterDevice, reg: RegisterDef, field: Option<FieldDef>) returns (r: Result<real, I2cError>)
      ensures r == ReadValue(bus, dev, reg, field)
    {
      var prefix := AddrPrefix(dev.addrWidthBytes, reg.register);
      if prefix.Err? {
        return Err(prefix.error);
      }
      var n := DataWidthBytes(reg);
      if n.Err? {
        return Err(n.error);
      }
      var response := WriteReadRaw(dev.address, prefix.value, n.value, reg.endianness);
      if field.Some? {
        var data := Shr(And(response, Mask(field.value.lsb, field.value.width)), field.value.lsb);
        r := Ok(data as real);
      } else {
        r := Ok(FloatFromRaw(reg.format, response));
      }
    }

    /** A field is replaced by reading the register, merging, and writing it back. */
    method Write(dev: RegisterDevice, reg: RegisterDef, value: int, field: Option<FieldDef>)
      returns (error: Option<I2cError>)
      modifies this
      ensures match Written(old(bus), dev, reg, value, field)
              case Err(e) => error == Some(e) && bus == old(bus)
              case Ok(after) => error == None && bus == after
    {
      var prefix := AddrPrefix(dev.addrWidthBytes, reg.register);
      if prefix.Err? {
        return Some(prefix.error);
      }
      var n := DataWidthBytes(reg);
      if n.Err? {
        return Some(n.error);
      }
      var data := value;
      if field.Some? {
        var mask := Mask(field.value.lsb, field.value.width);
        var current := WriteReadRaw(dev.address, prefix.value, n.value, reg.endianness);
        data := And(current, Not(mask));
        data := Or(data, And(Shl(value, field.value.lsb), mask));
      }
      var payload := ToBytes(data, n.value, reg.endianness);
      if payload.Err? {
        return Some(payload.error);
      }
      bus := bus[(dev.address, prefix.value) := payload.value];
      error := None;
    }
  }

  lemma AnswerFits(bus: Bus, at: Location, n: nat, e: Endianness)
    requires BusOk(bus)
    ensures 0 <= FromBytes(Answer(bus, at, n), e) < Shl(1, 8 * n)
  {
    var b := Answer(bus, at, n);
    LittleFits(if e.Big? then Reverse(b) else b);
  }

  /**
   Writing a field that lies inside its register never fails on the data; the
   field then reads as the value modulo two to its width, every field apart
   from it reads as before, and no other location changes.
   */
  lemma FieldWriteReadsBack(bus: Bus, dev: RegisterDevice, reg: RegisterDef, value: int, field: FieldDef, other: FieldDef)
    requires BusOk(bus) && ReadRegister(bus, dev, reg).Ok?
    requires field.lsb + field.width <= reg.format.transferBits
    ensures Shl(1, field.width) > 0
    ensures var after := Written(bus, dev, reg, value, Some(field));
            && after.Ok?
            && ReadRegister(after.value, dev, reg).Ok?
            && (var now, was := ReadRegister(after.value, dev, reg).value, ReadRegister(bus, dev, reg).value;
                && ReadField(now, field) == value % Shl(1, field.width)
                && (Apart(field, other) ==> ReadField(now, other) == ReadField(was, other))
                && 0 <= now < Shl(1, reg.format.transferBits))
            && forall at :: at != (dev.address, AddrPrefix(dev.addrWidthBytes, reg.register).value) ==>
                 (at in after.value <==> at in bus) && (at in bus ==> after.value[at] == bus[at])
  {
    var prefix := AddrPrefix(dev.addrWidthBytes, reg.register).value;
    var n := DataWidthBytes(reg).value;
    var at := (dev.address, prefix);
    var was := FromBytes(Answer(bus, at, n), reg.endianness);
    assert 8 * n == reg.format.transferBits;
    AnswerFits(bus, at, n, reg.endianness);
    MergeFits(was, value, field, 8 * n);
    var merged := Merge(was, value, field);
    BytesRoundTrip(merged, n, reg.endianness);
    MergeThenRead(was, value, field, other);
  }

  lemma SliceDivides(raw: int, lsb: nat, width: nat)
    ensures Shl(1, lsb) > 0 && Shl(1, width) > 0
    ensures Slice(raw, lsb, width) == raw / Shl(1, lsb) % Shl(1, width)
  {
    ShrDivides(raw, lsb);
    LowBits(Shr(raw, lsb), width);
    var low := And(Shr(raw, lsb), Ones(width));
    forall k: nat ensures Bit(Slice(raw, lsb, width), k) == Bit(low, k) {
      SliceBit(raw, lsb, width, k);
      LowBit(Shr(raw, lsb), width, k);
      ShrBit(raw, lsb, k);
    }
    SameBits(Slice(raw, lsb, width), low);
  }

  // The number in the format's field of a response: its low bits, in two's complement if signed.
  ghost function FieldNumber(fmt: DataFormat, response: int): int {
    var width := if fmt.dataWidthBits != 0 then fmt.dataWidthBits else fmt.transferBits;
    PowerPositive(fmt.dataLsb);
    PowerPositive(width);
    var u := response / Shl(1, fmt.dataLsb) % Shl(1, width);
    if fmt.signed && width > 0 && u >= Shl(1, width - 1) then u - Shl(1, width) else u
  }

  // The data itself, or the offset plus the gain times the data.
  ghost predicate IsScaled(x: real, data: int, scaling: Option<LinearScaling>) {
    match scaling
    case Some(s) => x == s.offset + s.gain * data as real
    case None => x == data as real
  }

  lemma ScaledIs(fmt: DataFormat, data: int)
    ensures IsScaled(ToPhysical(fmt, data), data, fmt.scaling)
  {}

  /**
   What a read publishes for any response: of a whole register, the number in
   the format's field, scaled; of a field, its bits as a number.
   */
  lemma ReadMeans(bus: Bus, dev: RegisterDevice, reg: RegisterDef, field: FieldDef)
    requires ReadRegister(bus, dev, reg).Ok?
    ensures var whole := ReadValue(bus, dev, reg, None);
            whole.Ok? && IsScaled(whole.value, FieldNumber(reg.format, ReadRegister(bus, dev, reg).value), reg.format.scaling)
    ensures Shl(1, field.lsb) > 0 && Shl(1, field.width) > 0
    ensures ReadValue(bus, dev, reg, Some(field))
         == Ok((ReadRegister(bus, dev, reg).value / Shl(1, field.lsb) % Shl(1, field.width)) as real)
  {
    var response := ReadRegister(bus, dev, reg).value;
    SliceDivides(response, field.lsb, field.width);
    ExtractMeans(reg.format, response);
    ScaledIs(reg.format, ExtractData(reg.format, response));
  }

  lemma ExtractMeans(fmt: DataFormat, response: int)
    ensures ExtractData(fmt, response) == FieldNumber(fmt, response)
  {
    var width := LogicalWidth(fmt);
    var field := Slice(response, fmt.dataLsb, width);
    SliceDivides(response, fmt.dataLsb, width);
    SliceFits(response, fmt.dataLsb, width);
    if width > 0 {
      SignExtendIsTwosComplement(field, width);
      InModulus(field, Shl(1, width));
    }
  }

  /** Packed data written to a whole register reads back as that data, scaled. */
  lemma WholeWriteReadsBack(bus: Bus, dev: RegisterDevice, reg: RegisterDef, data: int)
    requires ReadRegister(bus, dev, reg).Ok? && PackData(reg.format, data).Ok?
    requires LogicalWidth(reg.format) > 0 && reg.format.dataLsb + LogicalWidth(reg.format) <= reg.format.transferBits
    ensures var after := Written(bus, dev, reg, PackData(reg.format, data).value, None);
            && after.Ok?
            && ReadValue(after.value, dev, reg, None).Ok?
            && IsScaled(ReadValue(after.value, dev, reg, None).value, data, reg.format.scaling)
  {
    PackedReadsBack(bus, dev, reg, data);
    ScaledIs(reg.format, data);
  }

  lemma PackedReadsBack(bus: Bus, dev: RegisterDevice, reg: RegisterDef, data: int)
    requires ReadRegister(bus, dev, reg).Ok? && PackData(reg.format, data).Ok?
    requires LogicalWidth(reg.format) > 0 && reg.format.dataLsb + LogicalWidth(reg.format) <= reg.format.transferBits
    ensures var after := Written(bus, dev, reg, PackData(reg.format, data).value, None);
            after.Ok? && ReadValue(after.value, dev, reg, None) == Ok(ToPhysical(reg.format, data))
  {
    var fmt := reg.format;
    var n := DataWidthBytes(reg).value;
    var packed := PackData(fmt, data).value;
    assert 8 * n == fmt.transferBits;
    LowBits(Shl(And(data, Ones(LogicalWidth(fmt))), fmt.dataLsb), fmt.transferBits);
    BytesRoundTrip(packed, n, reg.endianness);
    PackThenExtract(fmt, data);
  }

  lemma MergesCommute(current: int, v: int, f: FieldDef, w: int, g: FieldDef)
    requires Apart(f, g)
    ensures Merge(Merge(current, v, f), w, g) == Merge(Merge(current, w, g), v, f)
  {
    var x, y := Merge(Merge(current, v, f), w, g), Merge(Merge(current, w, g), v, f);
    forall k: nat ensures Bit(x, k) == Bit(y, k) {
      MergeBit(Merge(current, v, f), w, g, k);
      MergeBit(current, v, f, k);
      MergeBit(Merge(current, w, g), v, f, k);
      MergeBit(current, w, g, k);
    }
    SameBits(x, y);
  }

  // A field write leaves the merged value to be read, and the location rewritten.
  lemma FieldWritten(bus: Bus, dev: RegisterDevice, reg: RegisterDef, value: int, field: FieldDef)
    requires ReadRegister(bus, dev, reg).Ok? && field.lsb + field.width <= reg.format.transferBits
    requires 0 <= ReadRegister(bus, dev, reg).value < Shl(1, reg.format.transferBits)
    ensures var at := (dev.address, AddrPrefix(dev.addrWidthBytes, reg.register).value);
            var merged := Merge(ReadRegister(bus, dev, reg).value, value, field);
            var after := Written(bus, dev, reg, value, Some(field));
            && 0 <= merged < Shl(1, reg.format.transferBits)
            && ToBytes(merged, DataWidthBytes(reg).value, reg.endianness).Ok?
            && after == Ok(bus[at := ToBytes(merged, DataWidthBytes(reg).value, reg.endianness).value])
            && ReadRegister(after.value, dev, reg) == Ok(merged)
  {
    var was, n := ReadRegister(bus, dev, reg).value, DataWidthBytes(reg).value;
    assert 8 * n == reg.format.transferBits;
    MergeFits(was, value, field, 8 * n);
    BytesRoundTrip(Merge(was, value, field), n, reg.endianness);
  }

  /**
   Because each field write holds the lock from read to write-back, whole
   writes of two fields apart from each other leave the bus the same in either
   order: neither loses the other's update.
   */
  lemma FieldWritesCommute(bus: Bus, dev: RegisterDevice, reg: RegisterDef, v: int, f: FieldDef, w: int, g: FieldDef)
    requires BusOk(bus) && ReadRegister(bus, dev, reg).Ok? && Apart(f, g)
    requires f.lsb + f.width <= reg.format.transferBits && g.lsb + g.width <= reg.format.transferBits
    ensures var first := Written(bus, dev, reg, v, Some(f));
            var second := Written(bus, dev, reg, w, Some(g));
            && first.Ok? && second.Ok?
            && Written(first.value, dev, reg, w, Some(g)).Ok?
            && Written(first.value, dev, reg, w, Some(g)) == Written(second.value, dev, reg, v, Some(f))
  {
    var at := (dev.address, AddrPrefix(dev.addrWidthBytes, reg.register).value);
    AnswerFits(bus, at, DataWidthBytes(reg).value, reg.endianness);
    assert 8 * DataWidthBytes(reg).value == reg.format.transferBits;
    FieldWritten(bus, dev, reg, v, f);
    FieldWritten(bus, dev, reg, w, g);
    var first, second := Written(bus, dev, reg, v, Some(f)).value, Written(bus, dev, reg, w, Some(g)).value;
    FieldWritten(first, dev, reg, w, g);
    FieldWritten(second, dev, reg, v, f);
    MergesCommute(ReadRegister(bus, dev, reg).value, v, f, w, g);
    assert Written(first, dev, reg, w, Some(g)).value == Written(second, dev, reg, v, Some(f)).value;
  }

  /** The address bytes on the wire: one, the low byte; or two, high byte first, if the address fits. */
  lemma PrefixIs(register: int)
    ensures AddrPrefix(1, register) == Ok([register % 256])
    ensures AddrPrefix(2, register) == if 0 <= register < 0x1_0000 then Ok([register / 256, register % 256]) else Err(Overflow)
    ensures forall width :: width != 1 && width != 2 ==> AddrPrefix(width, register) == Err(BadAddressWidth)
  {
    EightBits();
    LowBits(register, 8);
    assert ToLittle(register, 2) == [register % 256] + ToLittle(register / 256, 1);
    assert ToLittle(register / 256, 1) == [register / 256 % 256] + ToLittle(register / 256 / 256, 0);
    assert Reverse(ToLittle(register, 2)) == [register / 256 % 256, register % 256];
  }

  lemma EightBits()
    ensures Ones(8) == 0xFF && Shl(1, 8) == 0x100 && Shl(1, 16) == 0x1_0000
  {
    ByteStep(1);
    ByteStep(2);
  }

  /** Which reads fail, and how: on the address width first, then the address, then the transfer. */
  lemma WhenReadable(bus: Bus, dev: RegisterDevice, reg: RegisterDef)
    ensures var wide := dev.addrWidthBytes == 2;
            var r := ReadRegister(bus, dev, reg);
            if !wide && dev.addrWidthBytes != 1 then r == Err(BadAddressWidth)
            else if wide && !(0 <= reg.register < 0x1_0000) then r == Err(Overflow)
            else if reg.format.transferBits % 8 != 0 then r == Err(BadTransferBits)
            else r.Ok?
  {
    PrefixIs(reg.register);
  }

  /** Where a read of a 16-bit register looks, and how it takes the two bytes found there. */
  lemma ReadsLocation(bus: Bus, dev: RegisterDevice, reg: RegisterDef, at: Location, a: int, b: int)
    requires reg.format.transferBits == 16 && at in bus && bus[at] == [a, b] && at.0 == dev.address
    requires || (dev.addrWidthBytes == 1 && at.1 == [reg.register % 256])
             || (dev.addrWidthBytes == 2 && 0 <= reg.register < 0x1_0000 && at.1 == [reg.register / 256, reg.register % 256])
    ensures ReadRegister(bus, dev, reg) == Ok(if reg.endianness.Big? then 256 * a + b else a + 256 * b)
  {
    PrefixIs(reg.register);
    ByteOrder(a, b);
  }

  /**
   Which registers share an address prefix: with one address byte those equal
   modulo 256, with two none.
   */
  lemma PrefixSharedIff(a: int, b: int, width: int)
    requires AddrPrefix(width, a).Ok? && AddrPrefix(width, b).Ok?
    ensures AddrPrefix(width, a) == AddrPrefix(width, b) <==> if width == 1 then a % 256 == b % 256 else a == b
  {
    PrefixIs(a);
    PrefixIs(b);
  }
}
