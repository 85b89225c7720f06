/**
 A device that answers as the MODBUS Application Protocol Specification V1.1b3 says (sections 6.1 to 6.6
 and 6.12), over TCP or over a serial line. It is the reference the gateway is proved against.
 */
module ModbusSlave {
  import opened Bits
  import opened ByteLayout
  import Crc16

  /** The four tables of section 4.3, each with 65536 addresses. */
  datatype Memory = Memory(coils: nat -> bool, inputs: nat -> bool, holding: nat -> Word, inputRegisters: nat -> Word)

  /** How a request is framed: modbusTcp, or modbusRtu and modbusRtuOverTcp. */
  datatype Framing = Tcp | Rtu

  /** What carries it: a TCP connection (modbusTcp and modbusRtuOverTcp) or a serial port (modbusRtu). */
  datatype Client = TcpClient | SerialClient

  datatype ReadCode = ReadCoilStatus | ReadInputStatus | ReadHoldRegister | ReadInputRegister {
    function Code(): Byte {
      match this
      case ReadCoilStatus => 1
      case ReadInputStatus => 2
      case ReadHoldRegister => 3
      case ReadInputRegister => 4
    }

    predicate IsBits() {
      ReadCoilStatus? || ReadInputStatus?
    }
  }

  const ADDRESSES: nat := 0x1_0000
  const MAX_READ_BITS: nat := 2000
  const MAX_READ_REGISTERS: nat := 125
  const ILLEGAL_FUNCTION: Byte := 1
  const ILLEGAL_ADDRESS: Byte := 2
  const ILLEGAL_VALUE: Byte := 3

  // ---------------------------------------------------------------- reading

  function BitAt(mem: Memory, code: ReadCode, address: nat): bool {
    if code.ReadCoilStatus? then mem.coils(address) else mem.inputs(address)
  }

  function WordAt(mem: Memory, code: ReadCode, address: nat): Word {
    if code.ReadHoldRegister? then mem.holding(address) else mem.inputRegisters(address)
  }

  function BitsAt(mem: Memory, code: ReadCode, start: nat, n: nat): (r: seq<bool>)
    ensures |r| == n
    ensures forall i | 0 <= i < n :: r[i] == BitAt(mem, code, start + i)
  {
    seq(n, i requires 0 <= i < n => BitAt(mem, code, start + i))
  }

  function WordsAt(mem: Memory, code: ReadCode, start: nat, n: nat): (r: seq<Word>)
    ensures |r| == n
    ensures forall i | 0 <= i < n :: r[i] == WordAt(mem, code, start + i)
  {
    seq<Word>(n, i requires 0 <= i < n => WordAt(mem, code, start + i))
  }

  /** Section 6.1: the first of eight coils is the lowest bit of its byte. */
  function PackByte(bits: seq<bool>): (x: Byte)
    requires |bits| <= 8
    ensures x < Pow2(|bits|)
  {
    if bits == [] then 0 else
      Pow2Values();
      Pow2Monotonic(|bits|, 8);
      var rest := PackByte(bits[1..]);
      (if bits[0] then 1 else 0) + 2 * rest
  }

  /** The last byte is padded with zeros. */
  function PackBits(bits: seq<bool>): (s: seq<Byte>)
    ensures |s| == (|bits| + 7) / 8
  {
    if bits == [] then []
    else if |bits| <= 8 then [PackByte(bits)]
    else [PackByte(bits[..8])] + PackBits(bits[8..])
  }

  function Exception(code: Byte, reason: Byte): seq<Byte>
    requires code < 0x80
  {
    [code + 0x80, reason]
  }

  /** The answer to a read request: the data, or an exception for an illegal quantity or address. */
  function ReadAnswer(mem: Memory, code: ReadCode, start: nat, quantity: nat): seq<Byte> {
    if quantity < 1 || quantity > (if code.IsBits() then MAX_READ_BITS else MAX_READ_REGISTERS) then
      Exception(code.Code(), ILLEGAL_VALUE)
    else if start + quantity > ADDRESSES then
      Exception(code.Code(), ILLEGAL_ADDRESS)
    else
      var data := ReadData(mem, code, start, quantity);
      [code.Code(), |data|] + data
  }

  function ReadData(mem: Memory, code: ReadCode, start: nat, quantity: nat): (data: seq<Byte>)
    ensures |data| == if code.IsBits() then (quantity + 7) / 8 else 2 * quantity
  {
    if code.IsBits() then PackBits(BitsAt(mem, code, start, quantity))
    else WordBytes(WordsAt(mem, code, start, quantity))
  }

  function CodeFrom(b: Byte): ReadCode
    requires 1 <= b <= 4
  {
    match b
    case 1 => ReadCoilStatus
    case 2 => ReadInputStatus
    case 3 => ReadHoldRegister
    case 4 => ReadInputRegister
  }

  function ReadPdu(mem: Memory, pdu: seq<Byte>): seq<Byte>
    requires |pdu| >= 1 && pdu[0] < 0x80
  {
    if pdu[0] < 1 || pdu[0] > 4 then Exception(pdu[0], ILLEGAL_FUNCTION)
    else if |pdu| != 5 then Exception(pdu[0], ILLEGAL_VALUE)
    else ReadAnswer(mem, CodeFrom(pdu[0]), BigEndian(pdu[1..3]), BigEndian(pdu[3..5]))
  }

  // ---------------------------------------------------------------- writing

  const COIL_ON: nat := 0xFF00
  const MAX_WRITE_REGISTERS: nat := 123

  function SetCoil(mem: Memory, address: nat, on: bool): Memory {
    mem.(coils := (a: nat) => if a == address then on else mem.coils(a))
  }

  function Overwritten(registers: nat -> Word, start: nat, ws: seq<Word>, a: nat): Word {
    if start <= a < start + |ws| then ws[a - start] else registers(a)
  }

  function SetRegisters(mem: Memory, start: nat, ws: seq<Word>): Memory {
    mem.(holding := (a: nat) => Overwritten(mem.holding, start, ws, a))
  }

  /** The words sent as a list of bytes, high byte first. */
  function BytesToWords(b: seq<Byte>): (ws: seq<Word>)
    ensures |ws| == |b| / 2
  {
    seq<Word>(|b| / 2, i requires 0 <= i < |b| / 2 => Bytes2(b[2 * i], b[2 * i + 1]))
  }

  /** Sections 6.5, 6.6 and 6.12: the memory after a write request, and the answer. */
  function WritePdu(mem: Memory, pdu: seq<Byte>): (Memory, seq<Byte>)
    requires |pdu| >= 1 && pdu[0] < 0x80
  {
    var code := pdu[0];
    if code == 5 || code == 6 then
      if |pdu| != 5 then (mem, Exception(code, ILLEGAL_VALUE))
      else
        var address, x := Bytes2(pdu[1], pdu[2]), Bytes2(pdu[3], pdu[4]);
        if code == 6 then (SetRegisters(mem, address, [x]), pdu)
        else if x == COIL_ON || x == 0 then (SetCoil(mem, address, x == COIL_ON), pdu)
        else (mem, Exception(code, ILLEGAL_VALUE))
    else if code == 16 then
      if |pdu| < 6 then (mem, Exception(code, ILLEGAL_VALUE))
      else
        var start, n := Bytes2(pdu[1], pdu[2]), Bytes2(pdu[3], pdu[4]);
        if n < 1 || n > MAX_WRITE_REGISTERS || pdu[5] != 2 * n || |pdu| != 6 + 2 * n then
          (mem, Exception(code, ILLEGAL_VALUE))
        else if start + n > ADDRESSES then (mem, Exception(code, ILLEGAL_ADDRESS))
        else (SetRegisters(mem, start, BytesToWords(pdu[6..])), pdu[..5])
    else (mem, Exception(code, ILLEGAL_FUNCTION))
  }

  // ---------------------------------------------------------------- framing

  function ToBv8(x: Byte): bv8 {
    x as bv8
  }

  function FromBv8(y: bv8): Byte {
    y as Byte
  }

  lemma Bv8RoundTrip(x: Byte, y: bv8)
    ensures FromBv8(ToBv8(x)) == x
    ensures ToBv8(FromBv8(y)) == y
  {
    Bv8FromInt(x);
  }

  lemma Bv8FromInt(x: Byte)
    ensures FromBv8(ToBv8(x)) == x
  {
    var y := Bv8Of(x);
  }

  /** Every number below 256 is some byte. */
  lemma Bv8Of(x: Byte) returns (y: bv8)
    ensures FromBv8(y) == x
  {
    y := 0;
    for i := 0 to x
      invariant FromBv8(y) == i
    {
      y := y + 1;
    }
  }

  function AsBv8(b: seq<Byte>): seq<bv8> {
    seq(|b|, i requires 0 <= i < |b| => ToBv8(b[i]))
  }

  /** The CRC of a serial frame, as its two bytes are sent. */
  function CrcOf(b: seq<Byte>): (c: seq<Byte>)
    ensures |c| == 2
  {
    var c := Crc16.CrcBytes(AsBv8(b));
    [FromBv8(c[0]), FromBv8(c[1])]
  }

  /** A TCP frame has a header with a transaction identifier and a length, a serial frame a CRC. */
  function Adu(framing: Framing, tid: nat, unit: Byte, pdu: seq<Byte>): (adu: seq<Byte>)
    ensures |adu| == |pdu| + if framing.Tcp? then 7 else 3
  {
    var body := [unit] + pdu;
    match framing
    case Tcp => ToBigEndian(tid, 2) + [0, 0] + ToBigEndian(|body|, 2) + body
    case Rtu => body + CrcOf(body)
  }

  /** The device's answer to a frame; empty if it does not answer. */
  function Serve(framing: Framing, mem: Memory, unit: Byte, adu: seq<Byte>): seq<Byte> {
    match framing
    case Tcp =>
      if || |adu| < 8 || adu[2..4] != [0, 0] || BigEndian(adu[4..6]) != |adu| - 6
         || adu[6] != unit || adu[7] >= 0x80 then []
      else Adu(Tcp, BigEndian(adu[..2]), unit, ReadPdu(mem, adu[7..]))
    case Rtu =>
      var n := |adu| - 2;
      if n < 2 || adu[n..] != CrcOf(adu[..n]) || adu[0] != unit || adu[1] >= 0x80 then []
      else Adu(Rtu, 0, unit, ReadPdu(mem, adu[1..n]))
  }

  /** A frame built for the device is understood by it. */
  lemma ServeAdu(framing: Framing, mem: Memory, unit: Byte, tid: nat, pdu: seq<Byte>)
    requires 1 <= |pdu| <= 253 && pdu[0] < 0x80 && tid < 0x1_0000
    ensures Serve(framing, mem, unit, Adu(framing, tid, unit, pdu)) == Adu(framing, tid, unit, ReadPdu(mem, pdu))
  {
    hide CrcOf, ReadPdu;
    var body := [unit] + pdu;
    var adu := Adu(framing, tid, unit, pdu);
    Pow2Values();
    if framing.Tcp? {
      BigEndianRoundTrip(tid, 2);
      BigEndianRoundTrip(|body|, 2);
      assert adu[..2] == ToBigEndian(tid, 2) && adu[2..4] == [0, 0] && adu[4..6] == ToBigEndian(|body|, 2);
      assert adu[7..] == pdu;
    } else {
      var n := |adu| - 2;
      assert adu[..n] == body && adu[n..] == CrcOf(body) && adu[1..n] == pdu;
    }
  }

  // ---------------------------------------------------------------- unpacking

  lemma {:induction false} PackByteAt(bits: seq<bool>, j: nat)
    requires |bits| <= 8
    ensures Shr(PackByte(bits), j) % 2 == (if j < |bits| && bits[j] then 1 else 0)
  {
    if bits == [] {
      ShlZero(j);
    } else if j > 0 {
      PackByteAt(bits[1..], j - 1);
      assert PackByte(bits) / 2 == PackByte(bits[1..]);
    }
  }

  lemma {:induction false} PackBitsAt(bits: seq<bool>, i: nat)
    requires i < |PackBits(bits)| * 8
    ensures Shr(PackBits(bits)[i / 8], i % 8) % 2 == (if i < |bits| && bits[i] then 1 else 0)
  {
    if |bits| <= 8 {
      PackByteAt(bits, i % 8);
    } else if i < 8 {
      PackByteAt(bits[..8], i);
    } else {
      PackBitsAt(bits[8..], i - 8);
      assert PackBits(bits)[i / 8] == PackBits(bits[8..])[(i - 8) / 8];
    }
  }
}
