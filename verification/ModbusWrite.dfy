/**
 Writing values: generateActionBytes of pkg/protocol/modbus/modbusbroker.go, against the device's memory.
 */
module ModbusWrite {
  import opened Bits
  import opened ByteLayout
  import opened ModbusSlave
  import opened ModbusFrame
  import opened ModbusRead

  /** The value is of the variable's type; any other value is refused before this point. */
  predicate IsOfType(dataType: DataType, x: Value) {
    match dataType
    case BOOL => x.Bool?
    case INT16 => x.Int16? && -0x8000 <= x.i < 0x8000
    case UINT16 => x.Uint16? && 0 <= x.i < 0x1_0000
    case INT32 => x.Int32? && -0x8000_0000 <= x.i < 0x8000_0000
    case INT64 => x.Int64? && -TWO63 <= x.i < TWO63
    case FLOAT32 => x.Float32? && x.bits < 0x1_0000_0000
    case FLOAT64 => x.Float64? && x.bits < TWO64
    case _ => x.NoValue?
  }

  /** The unsigned pattern of a number. */
  function Pattern(x: Value): nat {
    match x
    case Int16(i) => i % 0x1_0000
    case Uint16(i) => i % 0x1_0000
    case Int32(i) => i % 0x1_0000_0000
    case Int64(i) => i % TWO64
    case Float32(bits) => bits
    case Float64(bits) => bits
    case _ => 0
  }

  /** `value > 0`; a float pattern above that of infinity is a NaN or negative. */
  function IsPositive(x: Value): bool {
    match x
    case Bool(b) => b
    case Int16(i) => i > 0
    case Uint16(i) => i > 0
    case Int32(i) => i > 0
    case Int64(i) => i > 0
    case Float32(bits) => 0 < bits <= 0x7F80_0000
    case Float64(bits) => 0 < bits <= 0x7FF0_0000_0000_0000
    case NoValue => false
  }

  const WRITE_SINGLE_COIL: Byte := 5
  const WRITE_SINGLE_REGISTER: Byte := 6
  const WRITE_MULTIPLE_REGISTER: Byte := 16

  datatype Action = Action(variable: Variable, value: Value)

  /** The request for one value. A bool in a register and the types without a width keep function code 0. */
  function ActionPdu(layout: MemoryLayout, unscale: Scale, a: Action): (pdu: seq<Byte>)
    ensures |pdu| >= 3 && pdu[0] < 0x80
  {
    var v := a.variable;
    var address := ToBigEndian(v.address % 0x1_0000, 2);
    if v.functionCode.IsBits() then
      if v.dataType in {NUMBER, STRING} then [0] + address
      else [WRITE_SINGLE_COIL] + address + Uint16ToBytesBigEndian(if IsPositive(a.value) then COIL_ON else 0)
    else if !IsNumber(v.dataType) then [0] + address
    else
      var x := Pattern(Scaled(unscale, v.rate, a.value));
      var n := Words(v.dataType);
      if n == 1 then [WRITE_SINGLE_REGISTER] + address + EncodeWords(layout, n, x)
      else [WRITE_MULTIPLE_REGISTER] + address + Uint16ToBytesBigEndian(n) + [2 * n] + EncodeWords(layout, n, x)
  }

  method GenerateActionBytes(layout: MemoryLayout, unscale: Scale, actions: seq<Action>)
    returns (dataBytes: seq<seq<Byte>>)
    requires forall a | a in actions :: IsOfType(a.variable.dataType, a.value)
    ensures |dataBytes| == |actions|
    ensures forall i | 0 <= i < |actions| :: dataBytes[i] == ActionPdu(layout, unscale, actions[i])
  {
    hide ActionPdu;
    dataBytes := [];
    for i := 0 to |actions|
      invariant |dataBytes| == i
      invariant forall j | 0 <= j < i :: dataBytes[j] == ActionPdu(layout, unscale, actions[j])
    {
      var pdu := ActionBytes(layout, unscale, actions[i]);
      dataBytes := dataBytes + [pdu];
    }
  }

  /** The body of generateActionBytes' loop: a request put together from its parts. */
  method ActionBytes(layout: MemoryLayout, unscale: Scale, a: Action) returns (pduByte: seq<Byte>)
    ensures pduByte == ActionPdu(layout, unscale, a)
  {
    hide EncodeWords, Scaled, Pattern, Uint16ToBytesBigEndian;
    var v := a.variable;
    pduByte := [0, 0, 0];
    var fc: Byte := 0;
    var dataByte: seq<Byte> := [];
    if v.functionCode.IsBits() {
      if v.dataType !in {NUMBER, STRING} {
        fc := WRITE_SINGLE_COIL;
        dataByte := dataByte + Uint16ToBytesBigEndian(if IsPositive(a.value) then 65280 else 0);
      }
    } else if IsNumber(v.dataType) {
      var value := Scaled(unscale, v.rate, a.value);
      var registerAmount := Words(v.dataType);
      if registerAmount == 1 {
        fc := WRITE_SINGLE_REGISTER;
      } else {
        fc := WRITE_MULTIPLE_REGISTER;
        dataByte := dataByte + Uint16ToBytesBigEndian(registerAmount);
        dataByte := dataByte + [2 * registerAmount];
      }
      dataByte := dataByte + EncodeWords(layout, registerAmount, Pattern(value));
    }
    TwoBytes(v.address % 0x1_0000);
    pduByte := pduByte[0 := fc];
    pduByte := WriteUint16BigEndian(pduByte, 1, v.address % 0x1_0000);
    assert pduByte == [fc] + ToBigEndian(v.address % 0x1_0000, 2);
    pduByte := pduByte + dataByte;
  }

  /** The device's memory after a list of requests. */
  function Applied(mem: Memory, pdus: seq<seq<Byte>>): Memory
    requires forall p | p in pdus :: |p| >= 1 && p[0] < 0x80
  {
    if pdus == [] then mem else WritePdu(Applied(mem, pdus[..|pdus| - 1]), pdus[|pdus| - 1]).0
  }

  // ---------------------------------------------------------------- one write

  /** What one write does to the memory: a coil, or the words of a register variable; nothing for the other types. */
  lemma WriteEffect(mem: Memory, layout: MemoryLayout, unscale: Scale, a: Action)
    requires a.variable.End() <= ADDRESSES
    ensures var v := a.variable;
            var mem' := WritePdu(mem, ActionPdu(layout, unscale, a)).0;
            if v.functionCode.IsBits() && v.dataType !in {NUMBER, STRING} then
              mem' == SetCoil(mem, v.address, IsPositive(a.value))
            else if !v.functionCode.IsBits() && IsNumber(v.dataType) then
              mem' == SetRegisters(mem, v.address,
                                   BytesToWords(EncodeWords(layout, Words(v.dataType),
                                                            Pattern(Scaled(unscale, v.rate, a.value)))))
            else mem' == mem
  {
    hide EncodeWords, Scaled, Pattern, SetRegisters, SetCoil, WritePdu, IsPositive, ToBigEndian, BytesToWords,
         Uint16ToBytesBigEndian;
    var v := a.variable;
    assert v.address % 0x1_0000 == v.address;
    if v.functionCode.IsBits() && v.dataType !in {NUMBER, STRING} {
      CoilWritten(mem, v.address, IsPositive(a.value));
    } else if !v.functionCode.IsBits() && IsNumber(v.dataType) {
      var x := Pattern(Scaled(unscale, v.rate, a.value));
      var b := EncodeWords(layout, Words(v.dataType), x);
      assert |b| / 2 == Words(v.dataType);
      RegistersWritten(mem, v.address, b);
    } else {
      NothingWritten(mem, ActionPdu(layout, unscale, a));
    }
  }

  lemma CoilWritten(mem: Memory, address: nat, on: bool)
    requires address < ADDRESSES
    ensures var pdu := [WRITE_SINGLE_COIL] + ToBigEndian(address, 2)
            + Uint16ToBytesBigEndian(if on then COIL_ON else 0);
            WritePdu(mem, pdu).0 == SetCoil(mem, address, on)
  {
    hide SetCoil, ToBigEndian;
    AddressBytes(address);
    assert Uint16ToBytesBigEndian(if on then COIL_ON else 0) == [if on then 0xFF else 0, 0];
    var pdu := [WRITE_SINGLE_COIL] + ToBigEndian(address, 2) + [if on then 0xFF else 0, 0];
    assert Bytes2(pdu[1], pdu[2]) == address && Bytes2(pdu[3], pdu[4]) == if on then COIL_ON else 0;
  }

  lemma RegistersWritten(mem: Memory, address: nat, b: seq<Byte>)
    requires |b| in {2, 4, 8} && address + |b| / 2 <= ADDRESSES
    ensures var n := |b| / 2;
            var pdu := if n == 1 then [WRITE_SINGLE_REGISTER] + ToBigEndian(address, 2) + b
                       else [WRITE_MULTIPLE_REGISTER] + ToBigEndian(address, 2) + Uint16ToBytesBigEndian(n) +
                            [2 * n] + b;
            WritePdu(mem, pdu).0 == SetRegisters(mem, address, BytesToWords(b))
  {
    if |b| == 2 {
      OneRegister(mem, address, b);
    } else {
      ManyRegisters(mem, address, b);
    }
  }

  lemma OneRegister(mem: Memory, address: nat, b: seq<Byte>)
    requires |b| == 2 && address < ADDRESSES
    ensures WritePdu(mem, [WRITE_SINGLE_REGISTER] + ToBigEndian(address, 2) + b).0
            == SetRegisters(mem, address, BytesToWords(b))
  {
    assert |b| == 2 ==> (BytesToWords(b) == [Bytes2(b[0], b[1])]);
    hide SetRegisters, BytesToWords, ToBigEndian, Bytes2;
    AddressBytes(address);
  }

  lemma ManyRegisters(mem: Memory, address: nat, b: seq<Byte>)
    requires |b| in {4, 8} && address + |b| / 2 <= ADDRESSES
    ensures var n := |b| / 2;
            WritePdu(mem, [WRITE_MULTIPLE_REGISTER] + ToBigEndian(address, 2) + Uint16ToBytesBigEndian(n) + [2 * n]
                     + b).0
            == SetRegisters(mem, address, BytesToWords(b))
  {
    hide SetRegisters, BytesToWords, ToBigEndian;
    AddressBytes(address);
    var n := |b| / 2;
    var pdu := [WRITE_MULTIPLE_REGISTER] + ToBigEndian(address, 2) + Uint16ToBytesBigEndian(n) + [2 * n] + b;
    assert pdu[6..] == b && pdu[5] == 2 * n && Bytes2(pdu[1], pdu[2]) == address && Bytes2(pdu[3], pdu[4]) == n;
  }

  lemma AddressBytes(address: nat)
    requires address < ADDRESSES
    ensures var b := ToBigEndian(address, 2); |b| == 2 && Bytes2(b[0], b[1]) == address
  {
    TwoBytes(address);
  }

  lemma NothingWritten(mem: Memory, pdu: seq<Byte>)
    requires |pdu| >= 1 && pdu[0] == 0
    ensures WritePdu(mem, pdu).0 == mem
  {
  }

  lemma WordsOfBytes(b: seq<Byte>)
    requires |b| % 2 == 0
    ensures WordBytes(BytesToWords(b)) == b
  {
    hide WordBytes;
    var ws := BytesToWords(b);
    forall i | 0 <= i < |b|
      ensures WordBytes(ws)[i] == b[i]
    {
      WordBytesAt(ws, i / 2);
    }
  }

  /** The number that is written: without a rate the value itself. */
  function Sent(unscale: Scale, a: Action): Value {
    if a.variable.rate == 0.0 || a.variable.rate == 1.0 then a.value else unscale(a.value, a.variable.rate)
  }

  /**
   A number written to a holding register is read back, in every layout; with a rate the register holds the unscaled
   number, and reading scales it again.
   */
  lemma WriteThenRead(mem: Memory, layout: MemoryLayout, scale: Scale, unscale: Scale, a: Action)
    requires IsOfType(a.variable.dataType, Sent(unscale, a)) && a.variable.End() <= ADDRESSES
    requires a.variable.functionCode.ReadHoldRegister? && IsNumber(a.variable.dataType)
    ensures Direct(WritePdu(mem, ActionPdu(layout, unscale, a)).0, layout, scale, a.variable)
            == if PlainRate(a.variable) then a.value else scale(unscale(a.value, a.variable.rate), a.variable.rate)
  {
    hide WritePdu, ActionPdu, EncodeWords, ParseWords, WordsValue, BytesToWords, WordBytes;
    var v := a.variable;
    var n, x := Words(v.dataType), Pattern(Sent(unscale, a));
    var b := EncodeWords(layout, n, x);
    var ws := BytesToWords(b);
    WriteEffect(mem, layout, unscale, a);
    WordsOfBytes(b);
    assert b[..2 * n] == b;
    ParseIsWordsValue(layout, ws, b);
    WordsRoundTrip(layout, n, x);
    assert WordsAt(SetRegisters(mem, v.address, ws), v.functionCode, v.address, n) == ws;
    TypedPattern(v.dataType, Sent(unscale, a));
  }

  lemma TypedPattern(dataType: DataType, x: Value)
    requires IsOfType(dataType, x) && IsNumber(dataType)
    ensures Typed(dataType, Pattern(x)) == x && Pattern(x) < TWO64
    ensures (Words(dataType) == 1 ==> Pattern(x) < 0x1_0000) && (Words(dataType) == 2 ==> Pattern(x) < 0x1_0000_0000)
  {
    Pow2Values();
    Pow2Half();
  }

  lemma Pow2Half()
    ensures Pow2(15) == 0x8000 && Pow2(31) == 0x8000_0000
  {
    Pow2Values();
  }

  /**
   What a write to a coil, or to the number of a discrete input, does: the coil of that number is on if a bool is true,
   an integer is above 0, or a float is (a pattern above that of infinity is a NaN or negative); nothing else changes.
   */
  lemma CoilSwitched(mem: Memory, layout: MemoryLayout, unscale: Scale, a: Action)
    requires a.variable.End() <= ADDRESSES && a.variable.functionCode in {ReadCoilStatus, ReadInputStatus}
    requires IsOfType(a.variable.dataType, a.value) && a.variable.dataType !in {NUMBER, STRING}
    ensures var mem' := WritePdu(mem, ActionPdu(layout, unscale, a)).0;
            var on := mem'.coils(a.variable.address);
            && (a.value.Bool? ==> on == a.value.b)
            && (a.value.Int16? || a.value.Uint16? || a.value.Int32? || a.value.Int64? ==> on == (a.value.i > 0))
            && (a.value.Float32? ==> on == (0 < a.value.bits <= 0x7F80_0000))
            && (a.value.Float64? ==> on == (0 < a.value.bits <= 0x7FF0_0000_0000_0000))
            && (forall k: nat | k != a.variable.address :: mem'.coils(k) == mem.coils(k))
            && mem' == mem.(coils := mem'.coils)
  {
    hide WritePdu, ActionPdu;
    WriteEffect(mem, layout, unscale, a);
  }

  /** A coil that is written is read back as on or off; a bool as written. */
  lemma WriteThenReadCoil(mem: Memory, layout: MemoryLayout, scale: Scale, unscale: Scale, a: Action)
    requires a.variable.End() <= ADDRESSES && a.variable.functionCode.ReadCoilStatus?
             && a.variable.dataType !in {NUMBER, STRING}
    ensures var read := Direct(WritePdu(mem, ActionPdu(layout, unscale, a)).0, layout, scale, a.variable);
            && read == CoilValue(a.variable.dataType, IsPositive(a.value))
            && (a.variable.dataType == BOOL && a.value.Bool? ==> read == a.value)
  {
    hide WritePdu, ActionPdu;
    WriteEffect(mem, layout, unscale, a);
  }

  /** Two variables that a write to one cannot confuse: another table, or another range of addresses. */
  predicate Apart(v: Variable, w: Variable) {
    v.functionCode.IsBits() != w.functionCode.IsBits() || v.End() <= w.address || w.End() <= v.address
  }

  /** A write leaves every variable apart from it, and every read-only input, as it was. */
  lemma WriteKeeps(mem: Memory, layout: MemoryLayout, scale: Scale, unscale: Scale, a: Action, w: Variable)
    requires a.variable.End() <= ADDRESSES
    requires Apart(a.variable, w) || w.functionCode.ReadInputStatus? || w.functionCode.ReadInputRegister?
    ensures Direct(WritePdu(mem, ActionPdu(layout, unscale, a)).0, layout, scale, w) == Direct(mem, layout, scale, w)
  {
    hide WritePdu, ActionPdu, EncodeWords, WordsValue, CoilValue, WordsAsValue, Scaled, Pattern;
    WriteEffect(mem, layout, unscale, a);
    var mem' := WritePdu(mem, ActionPdu(layout, unscale, a)).0;
    if !w.functionCode.IsBits() {
      assert WordsAt(mem', w.functionCode, w.address, Words(w.dataType))
             == WordsAt(mem, w.functionCode, w.address, Words(w.dataType));
    }
  }

  // ---------------------------------------------------------------- a list of writes

  function Pdus(layout: MemoryLayout, unscale: Scale, actions: seq<Action>): (r: seq<seq<Byte>>)
    ensures |r| == |actions| && forall p | p in r :: |p| >= 3 && p[0] < 0x80
  {
    seq(|actions|, i requires 0 <= i < |actions| => ActionPdu(layout, unscale, actions[i]))
  }

  /** A value the gateway can write and read back: a number in a holding register. */
  predicate Writable(unscale: Scale, a: Action) {
    && IsOfType(a.variable.dataType, Sent(unscale, a)) && a.variable.End() <= ADDRESSES
    && a.variable.functionCode.ReadHoldRegister? && IsNumber(a.variable.dataType)
  }

  /** After a list of writes to variables apart from each other, each of them reads back as written. */
  lemma {:induction false} WriteAllThenRead(mem: Memory, layout: MemoryLayout, scale: Scale, unscale: Scale,
                                            actions: seq<Action>, i: nat)
    requires i < |actions| && forall a | a in actions :: Writable(unscale, a)
    requires forall j, k | 0 <= j < k < |actions| :: Apart(actions[j].variable, actions[k].variable)
    ensures Direct(Applied(mem, Pdus(layout, unscale, actions)), layout, scale, actions[i].variable)
            == if PlainRate(actions[i].variable) then actions[i].value
               else scale(unscale(actions[i].value, actions[i].variable.rate), actions[i].variable.rate)
    decreases |actions|
  {
    hide Direct, ActionPdu, WritePdu, Apart, Writable;
    var n := |actions| - 1;
    var pdus := Pdus(layout, unscale, actions);
    assert pdus[..n] == Pdus(layout, unscale, actions[..n]);
    var mem' := Applied(mem, pdus[..n]);
    assert Writable(unscale, actions[n]);
    WritableMeans(unscale, actions[n]);
    if i == n {
      WriteThenRead(mem', layout, scale, unscale, actions[n]);
    } else {
      WriteAllThenRead(mem, layout, scale, unscale, actions[..n], i);
      assert Apart(actions[i].variable, actions[n].variable);
      ApartSymmetric(actions[i].variable, actions[n].variable);
      WriteKeeps(mem', layout, scale, unscale, actions[n], actions[i].variable);
    }
  }

  lemma WritableMeans(unscale: Scale, a: Action)
    requires Writable(unscale, a)
    ensures IsOfType(a.variable.dataType, Sent(unscale, a)) && a.variable.End() <= ADDRESSES
    ensures a.variable.functionCode.ReadHoldRegister? && IsNumber(a.variable.dataType)
  {
  }

  lemma ApartSymmetric(v: Variable, w: Variable)
    ensures Apart(v, w) == Apart(w, v)
  {
  }
}
