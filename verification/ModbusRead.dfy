/**
 Reading one data frame: ValidateAndExtractMessage, the retry loop and the body of message in
 pkg/protocol/modbus/modbusbroker.go, and ParseVariableValue of pkg/protocol/modbus/runtime/type.go.
 */
module ModbusRead {
  import opened Bits
  import opened ByteLayout
  import opened ModbusSlave
  import opened ModbusFrame
  import Crc16

  datatype ModbusError =
    | NoError
    | BadConn
    | ServerBadResp
    | Transaction
    | Slave
    | FunctionCodeError
    | DataLengthNotEnough
    | CRC16Error
    | ManyRetry
    | Overrun  // not an error of the source: the serial client writes past its buffer, which is a panic

  // ---------------------------------------------------------------- response

  /** binutil.ExpandBool: one byte per bit, for at most count bytes. */
  function ExpandedBits(buf: seq<Byte>, count: nat): (b: seq<Byte>)
    ensures |b| == 8 * (if count > |buf| then |buf| else count)
  {
    var n := if count > |buf| then |buf| else count;
    seq<Byte>(8 * n, i requires 0 <= i < 8 * n => if TestBit(buf[i / 8], i % 8) then 1 else 0)
  }

  method ExpandBool(buf: seq<Byte>, count: nat) returns (b: seq<Byte>)
    ensures b == ExpandedBits(buf, count)
  {
    var n := if count > |buf| then |buf| else count;
    b := [];
    for i := 0 to 8 * n
      invariant b == ExpandedBits(buf, count)[..i]
    {
      b := b + [if TestBit(buf[i / 8], i % 8) then 1 else 0];
    }
  }

  datatype Extracted = Data(bytes: seq<Byte>) | Refused(error: ModbusError)

  /** What a response buffer must hold to be accepted, and the data taken from it. */
  function Extract(framing: Framing, tid: nat, slave: nat, resp: seq<Byte>): Extracted
    requires |resp| >= (if framing.Tcp? then 9 else 5)
  {
    var buf := if framing.Tcp? then resp[6..] else resp;
    var n: nat := buf[2];
    if framing.Tcp? && BigEndian(resp[..2]) != tid then Refused(Transaction)
    else if buf[0] != slave then Refused(Slave)
    else if buf[1] >= 0x80 then Refused(FunctionCodeError)
    else if n + (if framing.Tcp? then 3 else 5) != |buf| then Refused(DataLengthNotEnough)
    else if framing.Rtu? && buf[n + 3..] != CrcOf(buf[..n + 3]) then Refused(CRC16Error)
    else if buf[1] in {1, 2} then Data(ExpandedBits(buf[3..], n))
    else if buf[1] in {3, 4} then Data(buf[3..])
    else Data([])
  }

  /** Where the part of a response starts that both framings have: slave, function code, length and data. */
  function BodyAt(framing: Framing): nat {
    match framing case Tcp => 6 case Rtu => 0
  }

  /** The first of these conditions that fails is the reason for a refusal. */
  ghost predicate Passes(framing: Framing, tid: nat, slave: nat, resp: seq<Byte>, e: ModbusError)
    requires |resp| >= (if framing.Tcp? then 9 else 5)
  {
    var at := BodyAt(framing);
    var high: nat, low: nat := resp[0], resp[1];
    match e
    case Transaction => framing.Tcp? ==> 0x100 * high + low == tid
    case Slave => resp[at] == slave
    case FunctionCodeError => resp[at + 1] < 0x80
    case DataLengthNotEnough => |resp| == at + 3 + resp[at + 2] + if framing.Rtu? then 2 else 0
    case CRC16Error => framing.Rtu? ==> resp[|resp| - 2..] == CrcOf(resp[..|resp| - 2])
    case _ => true
  }

  const CHECKS: seq<ModbusError> := [Transaction, Slave, FunctionCodeError, DataLengthNotEnough, CRC16Error]

  /** A response is accepted if and only if it passes every check, and is refused for the first one that it fails. */
  lemma ExtractAccepts(framing: Framing, tid: nat, slave: nat, resp: seq<Byte>)
    requires |resp| >= (if framing.Tcp? then 9 else 5)
    ensures Extract(framing, tid, slave, resp).Data?
            <==> forall k | 0 <= k < |CHECKS| :: Passes(framing, tid, slave, resp, CHECKS[k])
    ensures forall k | 0 <= k < |CHECKS| ::
              Extract(framing, tid, slave, resp) == Refused(CHECKS[k])
              <==> !Passes(framing, tid, slave, resp, CHECKS[k])
                   && forall j | 0 <= j < k :: Passes(framing, tid, slave, resp, CHECKS[j])
  {
    hide CrcOf, ExpandedBits;
    TwoByteNumber(resp);
    assert framing.Tcp? ==> resp[6..][0] == resp[6] && resp[6..][1] == resp[7] && resp[6..][2] == resp[8];
    assert CHECKS[0] == Transaction && CHECKS[1] == Slave && CHECKS[2] == FunctionCodeError;
    assert CHECKS[3] == DataLengthNotEnough && CHECKS[4] == CRC16Error;
  }

  /** What is taken from an accepted response: one byte per bit, or the registers and with serial framing the CRC. */
  lemma ExtractTakes(framing: Framing, tid: nat, slave: nat, resp: seq<Byte>)
    requires |resp| >= (if framing.Tcp? then 9 else 5) && Extract(framing, tid, slave, resp).Data?
    ensures var at, bytes := BodyAt(framing), Extract(framing, tid, slave, resp).bytes;
            var n: nat := resp[at + 2];
            && |resp| >= at + 3 + n
            && (resp[at + 1] in {1, 2} ==>
                  && |bytes| == 8 * n
                  && forall i | 0 <= i < |bytes| ::
                       bytes[i] == if Shr(resp[at + 3 + i / 8], i % 8) % 2 == 1 then 1 else 0)
            && (resp[at + 1] in {3, 4} ==> bytes == resp[at + 3..])
            && (resp[at + 1] !in {1, 2, 3, 4} ==> bytes == [])
  {
    hide CrcOf;
    var at := BodyAt(framing);
    assert resp[at..][3..] == resp[at + 3..];
    assert resp[0..] == resp;
    assert forall k | 0 <= k < |resp| - at :: resp[at..][k] == resp[at + k];
  }

  method ValidateAndExtractMessage(df: ModBusDataFrame, framing: Framing) returns (bb: seq<Byte>, err: ModbusError)
    requires |df.responseDataFrame| >= (if framing.Tcp? then 9 else 5)
    ensures match Extract(framing, df.transactionId, df.slave, df.responseDataFrame)
            case Data(bytes) => err == NoError && bb == bytes
            case Refused(e) => err == e && e != NoError
  {
    hide CrcOf, ExpandedBits;
    var buf := df.responseDataFrame;
    if framing.Tcp? {
      var transactionId := ParseUint16BigEndian(buf);
      TwoByteNumber(buf);
      if transactionId != df.transactionId {
        return [], Transaction;
      }
      buf := buf[6..];
    }
    if buf[0] != df.slave {
      return [], Slave;
    }
    var functionCode := buf[1];
    if functionCode >= 0x80 {
      return [], FunctionCodeError;
    }
    var byteDataLength: nat := buf[2];
    if framing.Rtu? {
      if byteDataLength + 5 != |buf| {
        return [], DataLengthNotEnough;
      }
      var ok := CheckCrc(buf, byteDataLength + 3);
      if !ok {
        return [], CRC16Error;
      }
    } else {
      if byteDataLength + 3 != |buf| {
        return [], DataLengthNotEnough;
      }
    }
    if buf[1] == 1 || buf[1] == 2 {
      bb := ExpandBool(buf[3..], byteDataLength);
    } else if buf[1] == 3 || buf[1] == 4 {
      bb := buf[3..];
    } else {
      bb := [];
    }
    err := NoError;
  }

  /** The comparison of a frame's trailer with the sum over the n bytes before it. */
  method CheckCrc(buf: seq<Byte>, n: nat) returns (ok: bool)
    requires |buf| == n + 2
    ensures ok <==> buf[n..] == CrcOf(buf[..n])
  {
    hide CrcOf, ToBv8, AsBv8, Crc16.Join, Crc16.Crc, Crc16.LowByte, Crc16.HighByte;
    var sum := Crc16.CheckCrc16sum(AsBv8(buf[..n]));
    var crc := Crc16.Join(ToBv8(buf[n]), ToBv8(buf[n + 1]));
    SumMatches(buf[..n], buf[n], buf[n + 1]);
    assert buf[n..] == [buf[n], buf[n + 1]];
    ok := sum == crc;
  }

  lemma TwoByteNumber(b: seq<Byte>)
    requires |b| >= 2
    ensures BigEndian(b[..2]) == ParseUint16BigEndian(b)
  {
    assert b[..2][..1] == [b[0]] && [b[0]][..0] == [];
    assert BigEndian([b[0]]) == b[0];
  }

  /** The sum of the tables is the trailer's two bytes exactly when they are the standard's CRC. */
  lemma SumMatches(b: seq<Byte>, x: Byte, y: Byte)
    ensures var c := Crc16.CrcBytes(AsBv8(b));
            Crc16.Join(ToBv8(x), ToBv8(y)) == Crc16.Join(c[0], c[1]) <==> [x, y] == CrcOf(b)
  {
    hide ToBv8, FromBv8, AsBv8, Crc16.Join, Crc16.Crc, Crc16.LowByte, Crc16.HighByte;
    var c := Crc16.CrcBytes(AsBv8(b));
    Crc16.JoinBytes(ToBv8(x), ToBv8(y));
    Crc16.JoinBytes(c[0], c[1]);
    Bv8RoundTrip(x, c[0]);
    Bv8RoundTrip(y, c[1]);
  }

  // ---------------------------------------------------------------- values

  function Signed(x: nat, n: nat): int
    requires n > 0
  {
    if x < Pow2(n - 1) then x else x - Pow2(n)
  }

  /** A word-sized or larger value of a numeric type. */
  function Typed(dataType: DataType, x: nat): Value {
    match dataType
    case INT16 => Int16(Signed(x, 16))
    case UINT16 => Uint16(x)
    case INT32 => Int32(Signed(x, 32))
    case INT64 => Int64(Signed(x, 64))
    case FLOAT32 => Float32(x)
    case FLOAT64 => Float64(x)
    case _ => NoValue
  }

  /** A coil read into a variable of any type: 0 or 1, or the float patterns of 0 and 1. */
  function CoilValue(dataType: DataType, on: bool): Value {
    match dataType
    case BOOL => Bool(on)
    case INT16 => Int16(if on then 1 else 0)
    case UINT16 => Uint16(if on then 1 else 0)
    case INT32 => Int32(if on then 1 else 0)
    case INT64 => Int64(if on then 1 else 0)
    case FLOAT32 => Float32(if on then 0x3F80_0000 else 0)
    case FLOAT64 => Float64(if on then 0x3FF0_0000_0000_0000 else 0)
    case _ => NoValue
  }

  /** `1<<(Bits-1) & v != 0` on an int16, Bits being a uint8. */
  function WordBit(x: nat, bits: Byte): bool {
    1 <= bits <= 16 && TestBit(x, bits - 1)
  }

  predicate IsNumber(dataType: DataType) {
    dataType !in {BOOL, NUMBER, STRING}
  }

  predicate PlainRate(v: Variable) {
    v.rate == 0.0 || v.rate == 1.0
  }

  /** Scaling by a rate other than 0 and 1 is float arithmetic, left to a parameter. */
  type Scale = (Value, real) -> Value

  function Scaled(scale: Scale, rate: real, v: Value): Value {
    if rate != 0.0 && rate != 1.0 then scale(v, rate) else v
  }

  function WordsAsValue(v: Variable, scale: Scale, x: nat): Value {
    if v.dataType == BOOL then Bool(WordBit(x, v.bits))
    else if IsNumber(v.dataType) then Scaled(scale, v.rate, Typed(v.dataType, x))
    else NoValue
  }

  /** The value a variable has in the device's memory: what reading it alone would give. */
  function Direct(mem: Memory, layout: MemoryLayout, scale: Scale, v: Variable): Value {
    if v.functionCode.IsBits() then CoilValue(v.dataType, BitAt(mem, v.functionCode, v.address))
    else WordsAsValue(v, scale, WordsValue(layout, WordsAt(mem, v.functionCode, v.address, Words(v.dataType))))
  }

  /** Reading the value at start does not run past the data, which would be a panic. */
  predicate Readable(code: ReadCode, vp: VariableParse, length: nat) {
    if code.IsBits() then vp.start < length || vp.variable.dataType in {NUMBER, STRING}
    else vp.start + (if vp.variable.dataType in {NUMBER, STRING} then 0 else 2 * Words(vp.variable.dataType)) <= length
  }

  /** ParseVariableValue's computation of one value. */
  function ParseValue(code: ReadCode, layout: MemoryLayout, scale: Scale, vp: VariableParse, data: seq<Byte>): Value
    requires Readable(code, vp, |data|)
  {
    var v := vp.variable;
    if v.dataType in {NUMBER, STRING} then NoValue
    else if code.IsBits() then CoilValue(v.dataType, data[vp.start] == 1)
    else WordsAsValue(v, scale, ParseWords(layout, Words(v.dataType), data[vp.start..]))
  }

  /** The copy of a variable that ParseVariableValue returns. */
  datatype Reading = Reading(name: string, dataType: DataType, address: nat, bits: Byte, functionCode: ReadCode,
                             rate: real, value: Value)

  function ReadingOf(v: Variable, value: Value): Reading {
    Reading(v.name, v.dataType, v.address, v.bits, v.functionCode, v.rate, value)
  }

  datatype Outcome = Parsed(readings: seq<Reading>) | Panic | Failed(error: ModbusError)

  /** Sets every variable of a frame and returns their copies; an index out of range is a panic. */
  method ParseVariableValue(df: ModBusDataFrame, data: seq<Byte>, scale: Scale) returns (o: Outcome)
    modifies (set vp | vp in df.variables :: vp.variable)`value
    ensures if forall vp | vp in df.variables :: Readable(df.functionCode, vp, |data|) then o.Parsed? else o.Panic?
    ensures o.Parsed? ==>
              && |o.readings| == |df.variables|
              && forall k | 0 <= k < |df.variables| ::
                   var vp := df.variables[k];
                   && Readable(df.functionCode, vp, |data|)
                   && o.readings[k]
                     == ReadingOf(vp.variable, ParseValue(df.functionCode, df.memoryLayout, scale, vp, data))
                   && ((forall j | k < j < |df.variables| :: df.variables[j].variable != vp.variable) ==>
                         vp.variable.value == o.readings[k].value)
  {
    hide ParseValue, Readable;
    var vvs := [];
    for i := 0 to |df.variables|
      invariant |vvs| == i
      invariant forall k | 0 <= k < i ::
                  var vp := df.variables[k];
                  && Readable(df.functionCode, vp, |data|)
                  && vvs[k] == ReadingOf(vp.variable, ParseValue(df.functionCode, df.memoryLayout, scale, vp, data))
                  && ((forall j | k < j < i :: df.variables[j].variable != vp.variable) ==>
                      vp.variable.value == vvs[k].value)
    {
      var vp := df.variables[i];
      if !Readable(df.functionCode, vp, |data|) {
        return Panic;
      }
      var value := ParseValue(df.functionCode, df.memoryLayout, scale, vp, data);
      vp.variable.value := value;
      vvs := vvs + [ReadingOf(vp.variable, value)];
    }
    return Parsed(vvs);
  }

  // ---------------------------------------------------------------- one frame, many attempts

  /** What a connection brings back for attempt i of a request; nothing if it is broken. */
  type Net = (nat, seq<Byte>) -> seq<Byte>

  /** A device that follows the standard, behind a connection that may break. */
  ghost predicate Honest(net: Net, framing: Framing, mem: Memory, unit: nat) {
    unit < 0x100 && forall i, req :: net(i, req) == [] || net(i, req) == Serve(framing, mem, unit, req)
  }

  /** How AskAtLeast ends. */
  function AskError(client: Client, answer: nat, buffer: nat): ModbusError {
    if client.TcpClient? then (if answer < 6 || buffer < 6 then BadConn else NoError)
    else if answer < buffer then BadConn
    else if answer > buffer then Overrun
    else NoError
  }

  /** The answer is read into a buffer that keeps what it held before. */
  function Deliver(buf: seq<Byte>, answer: seq<Byte>): (r: seq<Byte>)
    ensures |r| == |buf|
    ensures |answer| == |buf| ==> r == answer
  {
    if |answer| <= |buf| then answer + buf[|answer|..] else answer[..|buf|]
  }

  /** One attempt: the transaction identifier of its request, the buffer before and after, and what it came to. */
  datatype Attempt = Attempt(tid: nat, before: seq<Byte>, after: seq<Byte>, err: ModbusError)

  /**
   What an attempt comes to that is answered so. The buffer takes the bytes that fit and keeps the others. A TCP
   connection has failed if fewer than six bytes came, or fit. The serial client wants exactly as many bytes as the
   buffer has, and runs past its end if more arrive. Otherwise the attempt succeeds if the buffer is accepted.
   */
  ghost predicate Came(framing: Framing, client: Client, slave: nat, a: Attempt, answer: seq<Byte>) {
    && |a.after| == |a.before| >= (if framing.Tcp? then 9 else 5)
    && (forall k | 0 <= k < |a.before| :: a.after[k] == if k < |answer| then answer[k] else a.before[k])
    && (a.err == BadConn <==>
          if client.TcpClient? then |answer| < 6 || |a.before| < 6 else |answer| < |a.before|)
    && (a.err == Overrun <==> client.SerialClient? && |answer| > |a.before|)
    && (a.err == NoError ==> Extract(framing, a.tid, slave, a.after).Data?)
    && (a.err == ServerBadResp ==> Extract(framing, a.tid, slave, a.after).Refused?)
    && a.err in {NoError, BadConn, ServerBadResp, Overrun}
  }

  /** The closure of message, and what it comes to if the device follows the standard. */
  method AskOnce(df: ModBusDataFrame, framing: Framing, client: Client, net: Net, attempt: nat)
    returns (buf: seq<Byte>, err: ModbusError)
    requires df.Holds(framing)
    modifies df
    ensures df.Holds(framing)
    ensures df.transactionId == if framing.Tcp? then (old(df.transactionId) + 1) % 0x1_0000 else old(df.transactionId)
    ensures Came(framing, client, df.slave,
                 Attempt(df.transactionId, old(df.responseDataFrame), df.responseDataFrame, err),
                 net(attempt, df.dataFrame))
    ensures err == NoError ==>
              Extract(framing, df.transactionId, df.slave, df.responseDataFrame) == Data(buf)
    ensures forall mem | Honest(net, framing, mem, df.slave) && LegalRequest(df) ::
              && err == (if net(attempt, df.dataFrame) == [] then BadConn else NoError)
              && (err == NoError ==> buf == FrameData(framing, mem, df))
              && (net(attempt, df.dataFrame) == [] ==> !Connected(net, framing, mem, df.slave, attempt))
  {
    hide Extract, RequestAdu, Serve, FrameData, Came;
    ghost var before := df.responseDataFrame;
    buf, err := AskAndCheck(df, framing, client, net, attempt);
    forall mem | Honest(net, framing, mem, df.slave) && LegalRequest(df)
      ensures err == (if net(attempt, df.dataFrame) == [] then BadConn else NoError)
      ensures err == NoError ==> buf == FrameData(framing, mem, df)
      ensures net(attempt, df.dataFrame) == [] ==> !Connected(net, framing, mem, df.slave, attempt)
    {
      AnswerAccepted(framing, mem, df);
      AnswerCame(framing, client, df.slave, Attempt(df.transactionId, before, df.responseDataFrame, err),
                 net(attempt, df.dataFrame));
    }
  }

  /** The closure of message: send the request, read the answer, check it. */
  method AskAndCheck(df: ModBusDataFrame, framing: Framing, client: Client, net: Net, attempt: nat)
    returns (buf: seq<Byte>, err: ModbusError)
    requires df.Holds(framing)
    modifies df
    ensures df.Holds(framing)
    ensures df.transactionId == if framing.Tcp? then (old(df.transactionId) + 1) % 0x1_0000 else old(df.transactionId)
    ensures Came(framing, client, df.slave,
                 Attempt(df.transactionId, old(df.responseDataFrame), df.responseDataFrame, err),
                 net(attempt, df.dataFrame))
    ensures err == NoError ==>
              Extract(framing, df.transactionId, df.slave, df.responseDataFrame) == Data(buf)
  {
    hide Extract, RequestAdu;
    if framing.Tcp? {
      df.WriteTransactionId();
    }
    var answer := net(attempt, df.dataFrame);
    df.responseDataFrame := Deliver(df.responseDataFrame, answer);
    err := AskError(client, |answer|, |df.responseDataFrame|);
    if err != NoError {
      return [], err;
    }
    buf, err := ValidateAndExtractMessage(df, framing);
    if err != NoError {
      return [], ServerBadResp;
    }
  }

  /**
   The attempts at one frame: at most three, each with its own transaction identifier over TCP, the buffer handed on
   from one to the next. Another attempt follows a refused answer, and a broken connection that could be replaced.
   */
  ghost predicate Attempts(df: ModBusDataFrame, framing: Framing, client: Client, net: Net, reconnect: nat -> bool,
                           tid: nat, before: seq<Byte>, tries: seq<Attempt>)
  {
    && 1 <= |tries| <= 3 && tries[0].before == before
    && (forall i | 1 <= i < |tries| :: tries[i].before == tries[i - 1].after)
    && (forall i | 0 <= i < |tries| :: tries[i].tid == if framing.Tcp? then (tid + i + 1) % 0x1_0000 else tid)
    && (forall i | 0 <= i < |tries| ::
          Came(framing, client, df.slave, tries[i],
               net(i, RequestAdu(framing, tries[i].tid, df.slave, df.functionCode, df.startAddress, df.maxDataSize))))
    && (forall i | 0 <= i < |tries| - 1 ::
          tries[i].err == ServerBadResp || (tries[i].err == BadConn && reconnect(i)))
  }

  lemma OneMoreAttempt(df: ModBusDataFrame, framing: Framing, client: Client, net: Net, reconnect: nat -> bool,
                       tid: nat, before: seq<Byte>, tries: seq<Attempt>, a: Attempt)
    requires tries != [] ==>
               var last := tries[|tries| - 1];
               && Attempts(df, framing, client, net, reconnect, tid, before, tries) && |tries| < 3
               && a.before == last.after
               && (last.err == ServerBadResp || (last.err == BadConn && reconnect(|tries| - 1)))
    requires tries == [] ==> a.before == before
    requires a.tid == if framing.Tcp? then (tid + |tries| + 1) % 0x1_0000 else tid
    requires Came(framing, client, df.slave, a,
                  net(|tries|, RequestAdu(framing, a.tid, df.slave, df.functionCode, df.startAddress, df.maxDataSize)))
    ensures Attempts(df, framing, client, net, reconnect, tid, before, tries + [a])
  {
    hide Came, RequestAdu;
  }

  /** What the attempts come to: the last one if it succeeds or panics, or else why there is no other. */
  ghost predicate EndsWith(tries: seq<Attempt>, reconnect: nat -> bool, err: ModbusError)
    requires tries != []
  {
    var last := tries[|tries| - 1];
    && (err == NoError <==> last.err == NoError) && (err == Overrun <==> last.err == Overrun)
    && (err == BadConn <==> last.err == BadConn && !reconnect(|tries| - 1))
    && (err == ManyRetry <==>
          |tries| == 3 && (last.err == ServerBadResp || (last.err == BadConn && reconnect(2))))
    && err in {NoError, Overrun, BadConn, ManyRetry}
  }

  /** Up to three attempts; a broken connection is replaced, which may fail too, and a panic ends them. */
  method Retry(df: ModBusDataFrame, framing: Framing, client: Client, net: Net, reconnect: nat -> bool)
    returns (buf: seq<Byte>, err: ModbusError, ghost tries: seq<Attempt>)
    requires df.Holds(framing)
    modifies df
    ensures df.Holds(framing)
    ensures Attempts(df, framing, client, net, reconnect, old(df.transactionId), old(df.responseDataFrame), tries)
    ensures tries != [] && EndsWith(tries, reconnect, err)
    ensures tries[|tries| - 1].tid == df.transactionId && tries[|tries| - 1].after == df.responseDataFrame
    ensures err == NoError ==>
              Extract(framing, df.transactionId, df.slave, df.responseDataFrame) == Data(buf)
    ensures forall mem | Honest(net, framing, mem, df.slave) && LegalRequest(df) ::
              && (err == NoError ==> buf == FrameData(framing, mem, df)) && err != Overrun
              && ((forall i :: reconnect(i)) && (exists i | 0 <= i < 3 :: Connected(net, framing, mem, df.slave, i)) ==>
                    err == NoError)
  {
    hide Extract, RequestAdu, Serve, FrameData, Came, Attempts;
    tries := [];
    ghost var tid := df.transactionId;
    for i := 0 to 3
      invariant df.Holds(framing) && |tries| == i
      invariant tries != [] ==> Attempts(df, framing, client, net, reconnect, tid, old(df.responseDataFrame), tries)
      invariant tries != [] ==> var last := tries[i - 1];
                  && last.after == df.responseDataFrame && last.tid == df.transactionId
                  && (last.err == ServerBadResp || (last.err == BadConn && reconnect(i - 1)))
      invariant tries == [] ==> df.responseDataFrame == old(df.responseDataFrame)
      invariant df.transactionId == if framing.Tcp? then (tid + i) % 0x1_0000 else tid
      invariant forall mem | Honest(net, framing, mem, df.slave) && LegalRequest(df) ::
                  forall j | 0 <= j < i :: !Connected(net, framing, mem, df.slave, j)
    {
      ghost var before := df.responseDataFrame;
      buf, err := AskOnce(df, framing, client, net, i);
      ghost var a := Attempt(df.transactionId, before, df.responseDataFrame, err);
      OneMoreAttempt(df, framing, client, net, reconnect, tid, old(df.responseDataFrame), tries, a);
      tries := tries + [a];
      AnswerCame(framing, client, df.slave, a, net(i, df.dataFrame));
      if err == NoError || err == Overrun {
        return;
      } else if err == BadConn {
        if !reconnect(i) {
          return [], BadConn, tries;
        }
      }
    }
    return [], ManyRetry, tries;
  }

  /** A whole answer that is accepted, or none at all. */
  lemma AnswerCame(framing: Framing, client: Client, slave: nat, a: Attempt, answer: seq<Byte>)
    requires Came(framing, client, slave, a, answer)
    ensures answer == [] ==> a.err == BadConn
    ensures |answer| == |a.before| >= 6 ==> a.after == answer
    ensures |answer| == |a.before| >= 6 && Extract(framing, a.tid, slave, answer).Data? ==> a.err == NoError
    ensures a.err in {NoError, BadConn, ServerBadResp, Overrun}
  {
    hide Extract;
  }

  /** An attempt in which everything that the device answers comes back. */
  ghost predicate Connected(net: Net, framing: Framing, mem: Memory, unit: nat, i: nat) {
    unit < 0x100 && forall req | Serve(framing, mem, unit, req) != [] :: net(i, req) != []
  }

  /** Such connections exist: one that never breaks is honest, and connected in every attempt. */
  lemma NeverBroken(framing: Framing, mem: Memory, unit: Byte, i: nat)
    ensures var net: Net := (i, req) => Serve(framing, mem, unit, req);
            Honest(net, framing, mem, unit) && Connected(net, framing, mem, unit, i)
  {
    hide Serve;
  }

  /** A request the device answers with data: a legal slave number, quantity and range. */
  predicate LegalRequest(df: ModBusDataFrame) {
    && df.slave < 0x100 && 1 <= df.maxDataSize <= WindowSize(df.functionCode)
    && df.startAddress + df.maxDataSize <= ADDRESSES
  }

  /**
   The data the gateway extracts for a frame: the bits as bytes, or the registers (and, with serial framing, the CRC).
   */
  function FrameData(framing: Framing, mem: Memory, df: ModBusDataFrame): seq<Byte>
    requires LegalRequest(df)
  {
    var pdu := ReadAnswer(mem, df.functionCode, df.startAddress, df.maxDataSize);
    var data := ReadData(mem, df.functionCode, df.startAddress, df.maxDataSize);
    if df.functionCode.IsBits() then ExpandedBits(data, |data|)
    else data + if framing.Tcp? then [] else CrcOf([df.slave] + pdu)
  }

  /** The device's answer has the expected length and passes every check. */
  lemma AnswerAccepted(framing: Framing, mem: Memory, df: ModBusDataFrame)
    requires df.Holds(framing) && LegalRequest(df)
    ensures var answer := Serve(framing, mem, df.slave, df.dataFrame);
            && |answer| == |df.responseDataFrame| >= 6
            && Extract(framing, df.transactionId, df.slave, answer) == Data(FrameData(framing, mem, df))
  {
    hide CrcOf, Extract, ReadData, Serve, Adu, ReadPdu, ExpandedBits;
    var code, start, n := df.functionCode, df.startAddress, df.maxDataSize;
    var pdu := RequestPdu(code, start, n);
    ServeAdu(framing, mem, df.slave, df.transactionId, pdu);
    RequestUnderstood(mem, code, start, n);
    AduAccepted(framing, mem, df.transactionId, df.slave, code, start, n);
  }

  lemma RequestUnderstood(mem: Memory, code: ReadCode, start: nat, n: nat)
    requires start < 0x1_0000 && n < 0x1_0000
    ensures ReadPdu(mem, RequestPdu(code, start, n)) == ReadAnswer(mem, code, start, n)
  {
    hide ReadAnswer;
    var pdu := RequestPdu(code, start, n);
    Pow2Values();
    BigEndianRoundTrip(start, 2);
    BigEndianRoundTrip(n, 2);
    assert pdu[1..3] == ToBigEndian(start, 2) && pdu[3..5] == ToBigEndian(n, 2);
    assert CodeFrom(code.Code()) == code;
  }

  lemma AduAccepted(framing: Framing, mem: Memory, tid: nat, slave: Byte, code: ReadCode, start: nat, n: nat)
    requires tid < 0x1_0000 && 1 <= n <= WindowSize(code) && start + n <= ADDRESSES
    ensures var pdu := ReadAnswer(mem, code, start, n);
            var adu := Adu(framing, tid, slave, pdu);
            var data := ReadData(mem, code, start, n);
            && |adu| == ResponseLength(framing, code, n) >= 6
            && Extract(framing, tid, slave, adu)
               == Data(if code.IsBits() then ExpandedBits(data, |data|)
                       else data + if framing.Tcp? then [] else CrcOf([slave] + pdu))
  {
    var data := ReadData(mem, code, start, n);
    assert [code.Code(), |data|] + data == ReadAnswer(mem, code, start, n);
    hide ReadData, ReadAnswer;
    if framing.Tcp? {
      TcpAccepted(tid, slave, code, data);
    } else {
      RtuAccepted(tid, slave, code, data);
    }
  }

  lemma TcpAccepted(tid: nat, slave: Byte, code: ReadCode, data: seq<Byte>)
    requires tid < 0x1_0000 && 1 <= |data| < 0x100
    ensures var adu := Adu(Tcp, tid, slave, [code.Code(), |data|] + data);
            && |adu| == 9 + |data|
            && Extract(Tcp, tid, slave, adu) == Data(if code.IsBits() then ExpandedBits(data, |data|) else data)
  {
    hide ExpandedBits;
    var adu := Adu(Tcp, tid, slave, [code.Code(), |data|] + data);
    TcpParts(tid, slave, [code.Code(), |data|] + data);
    hide Adu, BigEndian, ToBigEndian;
    assert adu[6..][3..] == data;
  }

  lemma TcpParts(tid: nat, slave: Byte, pdu: seq<Byte>)
    requires tid < 0x1_0000 && |pdu| < 0x1_0000
    ensures var adu := Adu(Tcp, tid, slave, pdu);
            |adu| == 7 + |pdu| && BigEndian(adu[..2]) == tid && adu[6..] == [slave] + pdu
  {
    var adu := Adu(Tcp, tid, slave, pdu);
    Pow2Values();
    BigEndianRoundTrip(tid, 2);
    hide BigEndian, ToBigEndian;
    assert adu[..2] == ToBigEndian(tid, 2);
  }

  lemma RtuAccepted(tid: nat, slave: Byte, code: ReadCode, data: seq<Byte>)
    requires 1 <= |data| < 0x100
    ensures var body := [slave] + ([code.Code(), |data|] + data);
            var adu := Adu(Rtu, tid, slave, [code.Code(), |data|] + data);
            && |adu| == 5 + |data|
            && Extract(Rtu, tid, slave, adu)
              == Data(if code.IsBits() then ExpandedBits(data, |data|) else data + CrcOf(body))
  {
    hide CrcOf, ExpandedBits;
    var body := [slave] + ([code.Code(), |data|] + data);
    var adu := Adu(Rtu, tid, slave, [code.Code(), |data|] + data);
    assert adu[..|data| + 3] == body;
    assert adu[3..] == data + CrcOf(body);
    assert adu[|data| + 3..] == CrcOf(body);
    ExpandedPrefix(data, CrcOf(body));
  }

  lemma ExpandedPrefix(data: seq<Byte>, rest: seq<Byte>)
    ensures ExpandedBits(data + rest, |data|) == ExpandedBits(data, |data|)
  {
  }
}
