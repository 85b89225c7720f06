/**
 What the values of variables stand for, said of the device's memory alone: the reference for reading and writing them.
 */
module ModbusMeaning {
  import opened Bits
  import opened ByteLayout
  import opened ModbusSlave
  import opened ModbusFrame
  import opened ModbusRead
  import opened ModbusWrite

  /** A value of any type that stands for a bit. */
  predicate IsBit(x: Value, on: bool) {
    && (x.Bool? ==> x.b == on)
    && (x.Int16? || x.Uint16? || x.Int32? || x.Int64? ==> x.i == if on then 1 else 0)
    && (x.Float32? ==> x.bits == if on then 0x3F80_0000 else 0)
    && (x.Float64? ==> x.bits == if on then 0x3FF0_0000_0000_0000 else 0)
  }

  /** The number whose pattern, of the width of its type, is u. */
  predicate IsNumberOf(x: Value, u: nat) {
    && (x.Int16? || x.Uint16? ==> (u - x.i) % 0x1_0000 == 0)
    && (x.Int32? ==> (u - x.i) % 0x1_0000_0000 == 0)
    && (x.Int64? ==> (u - x.i) % TWO64 == 0)
    && (x.Float32? || x.Float64? ==> x.bits == u)
  }

  /** The coil or discrete input of a variable. */
  predicate BitOf(mem: Memory, v: Variable) {
    if v.functionCode == ReadCoilStatus then mem.coils(v.address) else mem.inputs(v.address)
  }

  /** A register of the table that a variable is in. */
  function RegisterOf(mem: Memory, v: Variable, address: nat): Word {
    if v.functionCode == ReadHoldRegister then mem.holding(address) else mem.inputRegisters(address)
  }

  /** The n registers from a variable's address on. */
  function RegistersOf(mem: Memory, v: Variable, n: nat): (ws: seq<Word>)
    ensures |ws| == n && forall i | 0 <= i < n :: ws[i] == RegisterOf(mem, v, v.address + i)
  {
    seq<Word>(n, i requires 0 <= i < n => RegisterOf(mem, v, v.address + i))
  }

  /** Bit k of a word, the lowest being bit 1. */
  predicate BitOfWord(w: Word, k: nat) {
    1 <= k <= 16 && w / Pow2(k - 1) % 2 == 1
  }

  /** What x must be to be the value of v. Rates other than 0 and 1 are applied by `scale`, to numbers in registers. */
  ghost predicate Means(mem: Memory, layout: MemoryLayout, scale: Scale, v: Variable, x: Value) {
    if v.dataType == NUMBER || v.dataType == STRING then x == NoValue
    else if v.functionCode == ReadCoilStatus || v.functionCode == ReadInputStatus then
      IsOfType(v.dataType, x) && IsBit(x, BitOf(mem, v))
    else if v.dataType == BOOL then
      x == Bool(BitOfWord(WordIn(layout, RegistersOf(mem, v, 1)[0]), v.bits))
    else
      exists raw ::
        && IsOfType(v.dataType, raw) && IsNumberOf(raw, WordsValue(layout, RegistersOf(mem, v, Words(v.dataType))))
        && x == if v.rate == 0.0 || v.rate == 1.0 then raw else scale(raw, v.rate)
  }

  /** A reading carries what its variable is, and what its value must be. */
  ghost predicate Tells(mem: Memory, layout: MemoryLayout, scale: Scale, v: Variable, r: Reading) {
    && r.name == v.name && r.dataType == v.dataType && r.address == v.address && r.bits == v.bits
    && r.functionCode == v.functionCode && r.rate == v.rate && Means(mem, layout, scale, v, r.value)
  }

  ghost predicate AllTell(mem: Memory, layout: MemoryLayout, scale: Scale, vs: seq<Variable>, rs: seq<Reading>) {
    |rs| == |vs| && forall k | 0 <= k < |vs| :: Tells(mem, layout, scale, vs[k], rs[k])
  }

  /** That is what reading a variable alone gives. */
  lemma DirectMeans(mem: Memory, layout: MemoryLayout, scale: Scale, v: Variable)
    ensures Means(mem, layout, scale, v, Direct(mem, layout, scale, v))
  {
    hide WordsValue, WordIn, Typed, WordBit, IsOfType, IsNumberOf;
    var n := Words(v.dataType);
    var ws := RegistersOf(mem, v, n);
    if v.functionCode.IsBits() {
      CoilMeans(v.dataType, BitOf(mem, v));
    } else {
      assert WordsAt(mem, v.functionCode, v.address, n) == ws;
      if v.dataType == BOOL {
        assert ws == [ws[0]];
        WordsValue2(layout, ws[0], ws[0]);
        WordBitIs(WordIn(layout, ws[0]), v.bits);
      } else if IsNumber(v.dataType) {
        WordsValueRange(layout, ws);
        TypedMeans(v.dataType, WordsValue(layout, ws));
        assert IsNumberOf(Typed(v.dataType, WordsValue(layout, ws)), WordsValue(layout, ws));
      }
    }
  }

  lemma CoilMeans(dataType: DataType, on: bool)
    ensures IsOfType(dataType, CoilValue(dataType, on)) && IsBit(CoilValue(dataType, on), on)
  {
  }

  lemma WordBitIs(w: Word, k: Byte)
    ensures WordBit(w, k) <==> BitOfWord(w, k)
  {
    if k >= 1 {
      ShrDivides(w, k - 1);
    }
  }

  lemma {:induction false} ShrDivides(x: nat, n: nat)
    ensures Shr(x, n) == x / Pow2(n)
  {
    if n > 0 {
      ShrDivides(x / 2, n - 1);
      DivTwice(x, Pow2(n - 1));
    }
  }

  lemma DivTwice(x: nat, m: nat)
    requires m > 0
    ensures x / 2 / m == x / (2 * m)
  {
    var q, r := x / 2 / m, x / 2 % m;
    assert x == q * (2 * m) + (2 * r + x % 2);
    DivModUnique(q, 2 * r + x % 2, 2 * m);
  }

  lemma TypedMeans(dataType: DataType, u: nat)
    requires IsNumber(dataType) && u < WordsBound(Words(dataType))
    ensures IsOfType(dataType, Typed(dataType, u)) && IsNumberOf(Typed(dataType, u), u)
  {
    Pow2Values();
    Pow2Half();
    assert WordsBound(1) == 0x1_0000 && WordsBound(2) == 0x1_0000_0000 && WordsBound(4) == TWO64;
    hide Pow2, WordsBound;
  }

  /** What is parsed from a bit's byte, whatever it holds: only 1 is on. */
  lemma ParsedBit(code: ReadCode, layout: MemoryLayout, scale: Scale, vp: VariableParse, data: seq<Byte>)
    requires code in {ReadCoilStatus, ReadInputStatus} && vp.start < |data|
    ensures vp.variable.dataType !in {NUMBER, STRING} ==>
              var x := ParseValue(code, layout, scale, vp, data);
              IsOfType(vp.variable.dataType, x) && IsBit(x, data[vp.start] == 1)
  {
    CoilMeans(vp.variable.dataType, data[vp.start] == 1);
  }

  /** And nothing else is. */
  lemma MeansOne(mem: Memory, layout: MemoryLayout, scale: Scale, v: Variable, x: Value, y: Value)
    requires Means(mem, layout, scale, v, x) && Means(mem, layout, scale, v, y)
    ensures x == y
  {
    hide WordsValue, WordIn, BitOfWord, IsOfType, IsNumberOf, IsBit, BitOf;
    if v.dataType in {NUMBER, STRING} {
    } else if v.functionCode.IsBits() {
      BitOne(v.dataType, x, y, BitOf(mem, v));
    } else if v.dataType != BOOL {
      var u := WordsValue(layout, RegistersOf(mem, v, Words(v.dataType)));
      forall a, b | IsOfType(v.dataType, a) && IsNumberOf(a, u) && IsOfType(v.dataType, b) && IsNumberOf(b, u)
        ensures a == b
      {
        NumberOne(v.dataType, a, b, u);
      }
    }
  }

  lemma BitOne(dataType: DataType, x: Value, y: Value, on: bool)
    requires IsOfType(dataType, x) && IsBit(x, on) && IsOfType(dataType, y) && IsBit(y, on)
    ensures x == y
  {
  }

  lemma NumberOne(dataType: DataType, x: Value, y: Value, u: nat)
    requires IsNumber(dataType)
    requires IsOfType(dataType, x) && IsNumberOf(x, u) && IsOfType(dataType, y) && IsNumberOf(y, u)
    ensures x == y
  {
  }
}
