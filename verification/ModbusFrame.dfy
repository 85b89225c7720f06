/**
 Variables, data frames and the packing of variables into frames:
 pkg/protocol/modbus/runtime/type.go, the GenerateReadMessage of pkg/protocol/modbus/model
 and the first half of NewBroker in pkg/protocol/modbus/modbusbroker.go.
 */
module ModbusFrame {
  import opened Bits
  import opened ByteLayout
  import opened ModbusSlave

  datatype DataType = BOOL | INT16 | FLOAT32 | FLOAT64 | INT32 | INT64 | UINT16 | NUMBER | STRING

  /** constant.DataTypeWord */
  function Words(dataType: DataType): (n: nat)
    ensures 1 <= n <= 4
  {
    match dataType
    case FLOAT32 => 2
    case INT32 => 2
    case FLOAT64 => 4
    case INT64 => 4
    case _ => 1
  }

  /** A value as read from a device; floats are bit patterns. */
  datatype Value =
    | NoValue
    | Bool(b: bool)
    | Int16(i: int)
    | Uint16(i: int)
    | Int32(i: int)
    | Int64(i: int)
    | Float32(bits: nat)
    | Float64(bits: nat)

  class Variable {
    const name: string
    const dataType: DataType
    const address: nat
    const bits: Byte
    const functionCode: ReadCode
    const rate: real
    var value: Value

    constructor (name: string, dataType: DataType, address: nat, bits: Byte, functionCode: ReadCode, rate: real)
      ensures this.name == name && this.dataType == dataType && this.address == address && this.bits == bits
      ensures this.functionCode == functionCode && this.rate == rate && value == NoValue
    {
      this.name, this.dataType, this.address, this.bits := name, dataType, address, bits;
      this.functionCode, this.rate, this.value := functionCode, rate, NoValue;
    }

    /** The first coil or register after the variable. */
    function End(): nat {
      address + if functionCode.IsBits() then 1 else Words(dataType)
    }
  }

  /** A variable and where its value starts in the data of a response. */
  datatype VariableParse = VariableParse(variable: Variable, start: nat)

  const MAX_COIL: nat := 1983
  const MAX_REGISTER: nat := 123

  /** How far beyond its start address a frame may reach. */
  function WindowSize(code: ReadCode): nat {
    if code.IsBits() then 1984 else 123
  }

  class ModBusDataFrame {
    const slave: nat
    const memoryLayout: MemoryLayout
    const startAddress: nat
    const functionCode: ReadCode
    const maxDataSize: nat
    const variables: seq<VariableParse>
    var transactionId: nat
    var dataFrame: seq<Byte>
    var responseDataFrame: seq<Byte>

    constructor (slave: nat, memoryLayout: MemoryLayout, startAddress: nat, functionCode: ReadCode, maxDataSize: nat,
                 variables: seq<VariableParse>, dataFrame: seq<Byte>, bytesLength: nat)
      ensures this.slave == slave && this.memoryLayout == memoryLayout && this.startAddress == startAddress
      ensures this.functionCode == functionCode && this.maxDataSize == maxDataSize && this.variables == variables
      ensures transactionId == 0 && this.dataFrame == dataFrame && |responseDataFrame| == bytesLength
    {
      this.slave, this.memoryLayout, this.startAddress := slave, memoryLayout, startAddress;
      this.functionCode, this.maxDataSize, this.variables := functionCode, maxDataSize, variables;
      this.transactionId, this.dataFrame, this.responseDataFrame := 0, dataFrame, seq(bytesLength, _ => 0);
    }

    /** The request the frame currently holds. */
    ghost predicate Holds(framing: Framing)
      reads this
    {
      && transactionId < 0x1_0000
      && dataFrame == RequestAdu(framing, transactionId, slave, functionCode, startAddress, maxDataSize)
      && |responseDataFrame| == ResponseLength(framing, functionCode, maxDataSize)
    }

    method WriteTransactionId()
      requires Holds(Tcp)
      modifies this`transactionId, this`dataFrame
      ensures Holds(Tcp) && transactionId == (old(transactionId) + 1) % 0x1_0000
    {
      transactionId := (transactionId + 1) % 0x1_0000;
      dataFrame := ToBigEndian(transactionId, 2) + dataFrame[2..];
    }
  }

  // ---------------------------------------------------------------- requests

  function RequestPdu(code: ReadCode, start: nat, quantity: nat): seq<Byte> {
    [code.Code()] + ToBigEndian(start, 2) + ToBigEndian(quantity, 2)
  }

  function RequestAdu(framing: Framing, tid: nat, slave: nat, code: ReadCode, start: nat, quantity: nat): seq<Byte> {
    Adu(framing, tid, slave % 0x100, RequestPdu(code, start, quantity))
  }

  /** The length of the answer a request asks for. */
  function ResponseLength(framing: Framing, code: ReadCode, quantity: nat): nat {
    (if code.IsBits() then (quantity + 7) / 8 else 2 * quantity) + if framing.Tcp? then 9 else 5
  }

  /** GenerateReadMessage: a message filled in byte by byte, and the buffer for its answer. */
  method GenerateReadMessage(framing: Framing, slave: nat, functionCode: ReadCode, startAddress: nat, maxDataSize: nat,
                             variables: seq<VariableParse>, memoryLayout: MemoryLayout)
    returns (df: ModBusDataFrame)
    ensures fresh(df) && df.Holds(framing) && df.slave == slave && df.memoryLayout == memoryLayout
    ensures df.startAddress == startAddress && df.functionCode == functionCode && df.maxDataSize == maxDataSize
    ensures df.variables == variables
  {
    TwoBytes(startAddress);
    TwoBytes(maxDataSize);
    TwoBytes(6);
    TwoBytes(0);
    var message: seq<Byte>;
    var nonDataLength;
    match framing {
      case Tcp =>
        message := seq(12, _ => 0);
        message := WriteUint16BigEndian(message, 2, 0);
        message := WriteUint16BigEndian(message, 4, 6);
        message := message[6 := slave % 0x100][7 := functionCode.Code()];
        message := WriteUint16BigEndian(message, 8, startAddress);
        message := WriteUint16BigEndian(message, 10, maxDataSize);
        assert message == RequestAdu(framing, 0, slave, functionCode, startAddress, maxDataSize);
        nonDataLength := 9;
      case Rtu =>
        message := seq(6, _ => 0);
        message := message[0 := slave % 0x100][1 := functionCode.Code()];
        message := WriteUint16BigEndian(message, 2, startAddress);
        message := WriteUint16BigEndian(message, 4, maxDataSize);
        assert message == [slave % 0x100] + RequestPdu(functionCode, startAddress, maxDataSize);
        message := message + CrcOf(message);
        nonDataLength := 5;
    }
    var bytesLength := 0;
    if functionCode.IsBits() {
      if maxDataSize % 8 == 0 {
        bytesLength := maxDataSize / 8 + nonDataLength;
      } else {
        bytesLength := maxDataSize / 8 + 1 + nonDataLength;
      }
    } else {
      bytesLength := maxDataSize * 2 + nonDataLength;
    }
    df := new ModBusDataFrame(slave, memoryLayout, startAddress, functionCode, maxDataSize, variables, message,
                              bytesLength);
  }

  lemma TwoBytes(x: nat)
    ensures ToBigEndian(x, 2) == [x / 0x100 % 0x100, x % 0x100]
  {
    assert ToBigEndian(x / 0x100, 1) == [x / 0x100 % 0x100];
  }

  function WriteUint16BigEndian(buf: seq<Byte>, at: nat, x: nat): (r: seq<Byte>)
    requires at + 2 <= |buf|
    ensures |r| == |buf|
  {
    buf[at := x / 0x100 % 0x100][at + 1 := x % 0x100]
  }
}
