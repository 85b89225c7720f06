/**
 The sample codec of pkg/tsdb/chunkenc/xor.go as functions on bit lists: what the
 appender emits for a sample and what the iterator makes of a list of bits.
 A float64 is its 64-bit pattern.
 */
module XorCodec {
  import opened Bits
  import opened Varint

  datatype Sample = Sample(t: Int64, v: UInt64)

  /** What an appender and an iterator both track. `leading` 0xff: no window chosen yet. */
  datatype State = State(num: nat, t: Int64, v: UInt64, tDelta: UInt64, leading: nat, trailing: nat)

  const NO_WINDOW: nat := 0xff
  const MIN_INT64: Int64 := -TWO63

  /** The result of reading from a bit list: a value and the bits after it, or an error. */
  datatype Parse<+T> = Got(value: T, rest: seq<bool>) | Fail

  // ---------------------------------------------------------------- encoding/binary

  function ZigZag(x: Int64): UInt64 {
    var ux := Shl64(ToUInt64(x), 1);
    if x < 0 then TWO64 - 1 - ux else ux
  }

  function UnZigZag(ux: UInt64): Int64 {
    var x := ux / 2;
    if ux % 2 != 0 then -x - 1 else x
  }

  /** ReadUvarint from its iteration i on, x being the bits assembled so far. */
  function UvarintFrom(b: seq<bool>, i: nat, x: UInt64): Parse<UInt64>
    decreases 10 - i
  {
    if i >= 10 || |b| < 8 then Fail
    else
      var byt := FromBits(b[..8]);
      Or64(x, Shl64(byt % 128, 7 * i));
      var x' := Or(x, Shl64(byt % 128, 7 * i));
      if byt >= 128 then UvarintFrom(b[8..], i + 1, x')
      else if i == 9 && byt > 1 then Fail
      else Got(x', b[8..])
  }

  lemma ZigZagRoundTrip(x: Int64)
    ensures UnZigZag(ZigZag(x)) == x
  {
    Doubled(x);
    hide Shl64, ToUInt64;
  }

  lemma Doubled(x: Int64)
    ensures Shl64(ToUInt64(x), 1) == if x < 0 then TWO64 + 2 * x else 2 * x
  {
    var u := ToUInt64(x);
    assert u == if x < 0 then TWO64 + x else x;
    ShlByte(u);
    hide Shl, ToUInt64;
    assert 2 * u < 2 * TWO64;
  }

  lemma {:induction false} UvarintRoundTrip(y: nat, i: nat, x: UInt64, rest: seq<bool>)
    requires x < Pow2(7 * i) && x + Shl(y, 7 * i) < TWO64 && (i == 0 || y > 0)
    ensures UvarintFrom(BytesToBits(UvarintBytes(y)) + rest, i, x) == Got(x + Shl(y, 7 * i), rest)
    decreases y
  {
    hide Shl, Pow2, Or, Shl64, ToBits, FromBits, BytesToBits;
    UvarintLength(y, i);
    var b := BytesToBits(UvarintBytes(y)) + rest;
    if y < 128 {
      FirstByte(y, [], rest);
      assert UvarintBytes(y) == [y] + [];
      OrNextGroup(x, y, 0, i);
      assert [] + rest == rest;
    } else {
      var lo, hi := y % 128, y / 128;
      FirstByte(lo + 128, UvarintBytes(hi), rest);
      OrNextGroup(x, lo, hi, i);
      UvarintRoundTrip(hi, i + 1, x + Shl(lo, 7 * i), rest);
    }
  }

  lemma FirstByte(byt: Byte, s: seq<Byte>, rest: seq<bool>)
    ensures var b := BytesToBits([byt] + s) + rest;
            |b| >= 8 && FromBits(b[..8]) == byt && b[8..] == BytesToBits(s) + rest
  {
    hide BytesToBits, ToBits, FromBits, Low;
    var b := BytesToBits([byt] + s) + rest;
    BytesToBitsConcat([byt], s);
    BytesToBitsSingle(byt);
    assert b == ToBits(byt, 8) + (BytesToBits(s) + rest);
    FromToBits(byt, 8);
    Low8(byt);
  }

  lemma UvarintLength(y: nat, i: nat)
    requires Shl(y, 7 * i) < TWO64 && (i == 0 || y > 0)
    ensures i <= 9 && (i == 9 ==> y < 2)
  {
    Pow2Values();
    ShlByte(1);
    ShlShl(1, 1, 63);
    if i >= 10 {
      Pow2Monotonic(64, 7 * i);
      ShlMonotonic(1, y, 7 * i);
    } else if i == 9 && y >= 2 {
      ShlMonotonic(2, y, 63);
    }
  }

  /** One 7-bit group goes above the i groups already read. */
  lemma OrNextGroup(x: UInt64, lo: nat, hi: nat, i: nat)
    requires i <= 9 && lo < 128 && x < Pow2(7 * i) && x + Shl(128 * hi + lo, 7 * i) < TWO64
    ensures Or(x, Shl64(lo, 7 * i)) == x + Shl(lo, 7 * i) < Pow2(7 * (i + 1))
    ensures x + Shl(128 * hi + lo, 7 * i) == (x + Shl(lo, 7 * i)) + Shl(hi, 7 * (i + 1))
  {
    hide *;
    ShlByte(hi);
    ShlShl(hi, 7, 7 * i);
    ShlAdd(128 * hi, lo, 7 * i);
    Shl64Small(lo, 7 * i);
    OrDisjoint(lo, x, 7 * i);
    GroupBound(lo, x, 7 * i);
  }

  lemma Shl64Small(x: nat, n: nat)
    requires Shl(x, n) < TWO64
    ensures Shl64(x, n) == Shl(x, n)
  {
  }

  lemma GroupBound(lo: nat, x: nat, n: nat)
    requires lo < 128 && x < Pow2(n)
    ensures Shl(lo, n) + x < Pow2(n + 7)
  {
    ShlSplit(lo, x, n);
    Pow2Values();
    ShrBound(Shl(lo, n) + x, 7, n);
  }

  // ---------------------------------------------------------------- delta of delta

  predicate BitRange(x: int, nbits: nat)
    requires nbits > 0
  {
    -(Pow2(nbits - 1) - 1) <= x <= Pow2(nbits - 1)
  }

  function DodBits(dod: Int64): seq<bool> {
    var u := ToUInt64(dod);
    if dod == 0 then [false]
    else if BitRange(dod, 14) then ToBits(0x02, 2) + ToBits(u, 14)
    else if BitRange(dod, 17) then ToBits(0x06, 3) + ToBits(u, 17)
    else if BitRange(dod, 20) then ToBits(0x0e, 4) + ToBits(u, 20)
    else ToBits(0x0f, 4) + ToBits(u, 64)
  }

  /** The five forms of a delta of delta: by the range it is in, a prefix and 0, 14, 17, 20 or 64 of its bits. */
  lemma DodForms(dod: Int64)
    ensures DodBits(dod) == if dod == 0 then [false]
                            else if -8191 <= dod <= 8192 then [true, false] + ToBits(ToUInt64(dod), 14)
                            else if -65535 <= dod <= 65536 then [true, true, false] + ToBits(ToUInt64(dod), 17)
                            else if -524287 <= dod <= 524288 then [true, true, true, false] + ToBits(ToUInt64(dod), 20)
                            else [true, true, true, true] + ToBits(ToUInt64(dod), 64)
  {
    SizePowers();
    Pow2Values();
    assert ToBits(2, 2) == [true, false] && ToBits(6, 3) == [true, true, false];
    assert ToBits(14, 4) == [true, true, true, false] && ToBits(15, 4) == [true, true, true, true];
    hide ToBits, ToUInt64, Pow2;
  }

  /** The number of leading ones, at most n, and what follows them and their closing zero. */
  function Ones(b: seq<bool>, n: nat): (p: Parse<nat>)
    ensures p.Got? ==> p.value <= n
  {
    if n == 0 then Got(0, b)
    else if b == [] then Fail
    else if !b[0] then Got(0, b[1..])
    else
      var p := Ones(b[1..], n - 1);
      if p.Got? then Got(p.value + 1, p.rest) else Fail
  }

  function DodSize(ones: nat): nat {
    if ones == 0 then 0 else if ones == 1 then 14 else if ones == 2 then 17 else if ones == 3 then 20 else 64
  }

  function SignedDod(bits: UInt64, size: nat): Int64
    requires size > 0
  {
    if size < 64 && bits > Pow2(size - 1) then ToInt64((bits - Pow2(size)) % TWO64) else ToInt64(bits)
  }

  function DodFrom(b: seq<bool>): Parse<Int64> {
    var p := Ones(b, 4);
    if p.Fail? then Fail
    else if p.value == 0 then Got(0, p.rest)
    else
      var size := DodSize(p.value);
      if |p.rest| < size then Fail
      else
        FromBits64(p.rest[..size]);
        Got(SignedDod(FromBits(p.rest[..size]), size), p.rest[size..])
  }

  lemma FromBits64(b: seq<bool>)
    requires |b| <= 64
    ensures FromBits(b) < TWO64
  {
    Pow2Monotonic(|b|, 64);
    Pow2Values();
  }

  lemma DodRoundTrip(dod: Int64, rest: seq<bool>)
    ensures DodFrom(DodBits(dod) + rest) == Got(dod, rest)
  {
    if dod == 0 {
      assert ([false] + rest)[1..] == rest;
    } else {
      var ones := if BitRange(dod, 14) then 1 else if BitRange(dod, 17) then 2 else if BitRange(dod, 20) then 3 else 4;
      OnesRoundTrip(ones, 4, ToBits(ToUInt64(dod), DodSize(ones)) + rest);
      var u := ToBits(ToUInt64(dod), DodSize(ones));
      assert (u + rest)[..DodSize(ones)] == u && (u + rest)[DodSize(ones)..] == rest;
      DodSign(dod, ones);
      DodBitsAs(dod, ones, rest);
    }
  }

  /** k ones, closed by a zero unless k is the longest run allowed. */
  function Unary(k: nat, n: nat): seq<bool>
    requires k <= n
  {
    if n == 0 then [] else if k == 0 then [false] else [true] + Unary(k - 1, n - 1)
  }

  lemma {:induction false} OnesRoundTrip(k: nat, n: nat, rest: seq<bool>)
    requires k <= n
    ensures Ones(Unary(k, n) + rest, n) == Got(k, rest)
  {
    var b := Unary(k, n) + rest;
    if n == 0 {
      assert b == rest;
    } else if k == 0 {
      assert b[1..] == rest;
    } else {
      assert b[1..] == Unary(k - 1, n - 1) + rest;
      OnesRoundTrip(k - 1, n - 1, rest);
    }
  }

  lemma DodBitsAs(dod: Int64, ones: nat, rest: seq<bool>)
    requires dod != 0
    requires ones == if BitRange(dod, 14) then 1 else if BitRange(dod, 17) then 2 else if BitRange(dod, 20) then 3
             else 4
    ensures DodBits(dod) + rest == Unary(ones, 4) + (ToBits(ToUInt64(dod), DodSize(ones)) + rest)
  {
    DodPrefixes();
    hide ToBits, Unary, BitRange, ToUInt64;
    var bits := ToBits(ToUInt64(dod), DodSize(ones));
    assert DodBits(dod) == Unary(ones, 4) + bits;
  }

  lemma DodPrefixes()
    ensures ToBits(0x02, 2) == Unary(1, 4) && ToBits(0x06, 3) == Unary(2, 4)
    ensures ToBits(0x0e, 4) == Unary(3, 4) && ToBits(0x0f, 4) == Unary(4, 4)
  {
    assert ToBits(1, 1) == [true] && ToBits(2, 2) == ToBits(1, 1) + [false];
    assert ToBits(3, 2) == ToBits(1, 1) + [true] && ToBits(6, 3) == ToBits(3, 2) + [false];
    assert ToBits(7, 3) == ToBits(3, 2) + [true] && ToBits(14, 4) == ToBits(7, 3) + [false];
    assert ToBits(15, 4) == ToBits(7, 3) + [true];
    hide ToBits;
    assert Unary(0, 1) == [false] && Unary(1, 1) == [true];
    assert Unary(0, 2) == [false] && Unary(1, 2) == [true, false] && Unary(2, 2) == [true, true];
    assert Unary(0, 3) == [false] && Unary(1, 3) == [true, false] && Unary(2, 3) == [true, true, false];
    assert Unary(3, 3) == [true, true, true];
  }

  lemma DodSign(dod: Int64, ones: nat)
    requires ones == if BitRange(dod, 14) then 1 else if BitRange(dod, 17) then 2 else if BitRange(dod, 20) then 3
             else 4
    ensures var bits := FromBits(ToBits(ToUInt64(dod), DodSize(ones)));
            bits < TWO64 && SignedDod(bits, DodSize(ones)) == dod
  {
    hide Low, ToBits, FromBits, Shl, Pow2, SignedDod;
    var size := DodSize(ones);
    FromToBits(ToUInt64(dod), size);
    LowIsMod(ToUInt64(dod), size);
    Pow2Values();
    SizePowers();
    SignRestored(dod, size);
  }

  /** A number in range of n bits is restored from them. */
  lemma SignRestored(dod: Int64, size: nat)
    requires size == 64 || (size in {14, 17, 20} && BitRange(dod, size))
    ensures Pow2(size) > 0 && ToUInt64(dod) % Pow2(size) < TWO64
    ensures SignedDod(ToUInt64(dod) % Pow2(size), size) == dod
  {
    hide Shl, Pow2;
    Pow2Values();
    SizePowers();
    if size == 14 {
      LowPart(dod, 0x4000, 0x4_0000_0000_0000);
    } else if size == 17 {
      LowPart(dod, 0x2_0000, 0x8000_0000_0000);
    } else if size == 20 {
      LowPart(dod, 0x10_0000, 0x1000_0000_0000);
    } else {
      WrapsTo(dod, dod);
    }
  }

  /** The low bits of a small number, seen as an unsigned word. */
  lemma LowPart(dod: Int64, m: int, q: int)
    requires -m < dod < m && 1 <= m < TWO63 && q >= 1 && q * m == TWO64
    ensures ToUInt64(dod) % m == if dod < 0 then dod + m else dod
    ensures dod < 0 ==> ToInt64(dod % TWO64) == dod
  {
    WrapsTo(dod, dod);
    if dod < 0 {
      WrapsTo(dod, dod + TWO64);
      MulDistributes(q, 1, m);
      DivModUnique(q - 1, dod + m, m);
    } else {
      WrapsTo(dod, dod);
      DivModUnique(0, dod, m);
    }
  }

  lemma SizePowers()
    ensures Pow2(13) == 8192 && Pow2(14) == 16384 && Pow2(17) == 131072 && Pow2(19) == 524288 && Pow2(20) == 1048576
  {
    ShlShl(1, 8, 5);
    ShlByte(256);
    ShlShl(1, 8, 6);
    ShlShl(1, 16, 1);
    ShlByte(65536);
    ShlShl(1, 16, 4);
    ShlByte(1);
    Pow2Values();
  }

  // ---------------------------------------------------------------- value delta

  /** math/bits.Len64 */
  function Len(x: nat): nat {
    if x == 0 then 0 else 1 + Len(x / 2)
  }

  function LeadingZeros(x: UInt64): nat {
    LenBound(x, 64);
    64 - Len(x)
  }

  function TrailingZeros(x: nat): nat
    requires x > 0
  {
    if x % 2 == 1 then 0 else 1 + TrailingZeros(x / 2)
  }

  lemma {:induction false} LenBound(x: nat, n: nat)
    requires x < Pow2(n) || (n == 64 && x < TWO64)
    ensures Len(x) <= n && x < Pow2(Len(x))
  {
    Pow2Values();
    if x > 0 {
      LenBound(x / 2, n - 1);
    }
  }

  lemma {:induction false} TrailingZerosExact(x: nat, k: nat)
    requires x > 0 && k <= TrailingZeros(x)
    ensures Low(x, k) == 0
    ensures TrailingZeros(x) < Len(x)
  {
    if x % 2 == 0 {
      TrailingZerosExact(x / 2, if k == 0 then 0 else k - 1);
    }
  }

  lemma {:induction false} LenExact(x: nat)
    requires x > 0
    ensures Pow2(Len(x) - 1) <= x < Pow2(Len(x))
  {
    if x > 1 {
      LenExact(x / 2);
    } else {
      Pow2Values();
    }
  }

  /** The bits that differ lie between the leading and the trailing zeros, and the outermost two are set. */
  lemma LeadingExact(x: UInt64)
    requires x > 0
    ensures LeadingZeros(x) <= 63 && Pow2(63 - LeadingZeros(x)) <= x < Pow2(64 - LeadingZeros(x))
  {
    LenBound(x, 64);
    LenExact(x);
  }

  lemma {:induction false} TrailingExact(x: nat)
    requires x > 0
    ensures Low(x, TrailingZeros(x)) == 0 && Shr(x, TrailingZeros(x)) % 2 == 1
  {
    if x % 2 == 0 {
      TrailingExact(x / 2);
    }
  }

  /** The window (leading, trailing) an appender uses for a non-zero difference, and whether it is a new one. */
  function Window(a: State, vDelta: UInt64): (w: (nat, nat, bool))
    requires vDelta > 0
    ensures w.0 + w.1 <= 63
    ensures w.0 <= LeadingZeros(vDelta) && w.1 <= TrailingZeros(vDelta)
    ensures w.2 ==> w.0 <= 31
    ensures !w.2 ==> w.0 == a.leading && w.1 == a.trailing && a.leading != NO_WINDOW
  {
    var leading := if LeadingZeros(vDelta) >= 32 then 31 else LeadingZeros(vDelta);
    var trailing := TrailingZeros(vDelta);
    TrailingZerosExact(vDelta, 0);
    if a.leading != NO_WINDOW && leading >= a.leading && trailing >= a.trailing then (a.leading, a.trailing, false)
    else (leading, trailing, true)
  }

  function ValueBits(a: State, v: UInt64): seq<bool> {
    XorCancels(v, a.v);
    Xor64(v, a.v);
    var vDelta := Xor(v, a.v);
    if vDelta == 0 then [false]
    else
      var (leading, trailing, fresh') := Window(a, vDelta);
      var sigbits := 64 - leading - trailing;
      var bits := ToBits(Shr(vDelta, trailing), sigbits);
      if fresh' then [true, true] + ToBits(leading, 5) + ToBits(sigbits, 6) + bits
      else [true, false] + bits
  }

  /** The three ways of writing a value. */
  lemma ValueBitsAre(a: State, v: UInt64)
    ensures Xor(v, a.v) < TWO64
    ensures var x := Xor(v, a.v);
            if x == 0 then ValueBits(a, v) == [false] && AfterValue(a, v) == a
            else
              && LeadingZeros(x) + TrailingZeros(x) <= 63
              && var lead, trail := if LeadingZeros(x) >= 32 then 31 else LeadingZeros(x), TrailingZeros(x);
              if a.leading != NO_WINDOW && lead >= a.leading && trail >= a.trailing then
                && ValueBits(a, v) == [true, false] + ToBits(Shr(x, a.trailing), 64 - a.leading - a.trailing)
                && AfterValue(a, v) == a.(v := v)
              else
                && ValueBits(a, v)
                   == [true, true] + ToBits(lead, 5) + ToBits(64 - lead - trail, 6)
                     + ToBits(Shr(x, trail), 64 - lead - trail)
                && AfterValue(a, v) == a.(v := v, leading := lead, trailing := trail)
  {
    hide ToBits, Xor, Shr, LeadingZeros, TrailingZeros;
    XorCancels(v, a.v);
    Xor64(v, a.v);
    if Xor(v, a.v) > 0 {
      ZerosTogether(Xor(v, a.v));
    }
  }

  lemma ZerosTogether(x: UInt64)
    requires x > 0
    ensures LeadingZeros(x) + TrailingZeros(x) <= 63
  {
    TrailingZerosExact(x, 0);
  }

  /** A value read back, with the window it leaves behind. */
  datatype Value = Value(v: UInt64, leading: nat, trailing: nat)

  /** The number of significant bits of a window; uint8 arithmetic. */
  function SigBits(leading: nat, trailing: nat): nat {
    (64 - leading - trailing) % 256
  }

  function WindowFrom(b: seq<bool>, v: UInt64, leading: nat, trailing: nat): Parse<Value> {
    var n := SigBits(leading, trailing);
    if n == 0 || n > 64 || |b| < n then Fail
    else
      Xor64(v, Shl64(FromBits(b[..n]), trailing));
      Got(Value(Xor(v, Shl64(FromBits(b[..n]), trailing)), leading, trailing), b[n..])
  }

  function ValueFrom(b: seq<bool>, v: UInt64, leading: nat, trailing: nat): Parse<Value> {
    if b == [] then Fail
    else if !b[0] then Got(Value(v, leading, trailing), b[1..])
    else if |b| < 2 then Fail
    else if !b[1] then WindowFrom(b[2..], v, leading, trailing)
    else if |b| < 13 then Fail
    else
      var leading' := FromBits(b[2..7]);
      var mbits := FromBits(b[7..13]);
      var mbits' := if mbits == 0 then 64 else mbits;
      WindowFrom(b[13..], v, leading', (64 - leading' - mbits') % 256)
  }

  /** A window written and read back gives the value, whatever difference it holds. */
  lemma WindowRoundTrip(v: UInt64, prev: UInt64, leading: nat, trailing: nat, rest: seq<bool>)
    requires v != prev && leading + trailing <= 63
    requires Xor(v, prev) > 0 && Xor(v, prev) < TWO64
    requires leading <= LeadingZeros(Xor(v, prev)) && trailing <= TrailingZeros(Xor(v, prev))
    ensures WindowFrom(ToBits(Shr(Xor(v, prev), trailing), 64 - leading - trailing) + rest, prev, leading, trailing)
         == Got(Value(v, leading, trailing), rest)
  {
    hide Shl, Shl64, Shr, ToBits, FromBits, Xor, Len, TrailingZeros, LeadingZeros;
    var x, n := Xor(v, prev), 64 - leading - trailing;
    var bits := ToBits(Shr(x, trailing), n);
    assert (bits + rest)[..n] == bits && (bits + rest)[n..] == rest;
    SignificantBits(x, leading, trailing);
    XorCommutes(prev, x);
    XorCancels(v, prev);
  }

  lemma SignificantBits(x: UInt64, leading: nat, trailing: nat)
    requires x > 0 && leading + trailing <= 63
    requires leading <= LeadingZeros(x) && trailing <= TrailingZeros(x)
    ensures Shl64(FromBits(ToBits(Shr(x, trailing), 64 - leading - trailing)), trailing) == x
  {
    hide Shl, Shr, Low, ToBits, FromBits, Len, TrailingZeros;
    var n := 64 - leading - trailing;
    LenBound(x, 64);
    Pow2Monotonic(Len(x), 64 - leading);
    ShrBound(x, n, trailing);
    FromToBits(Shr(x, trailing), n);
    LowSmall(Shr(x, trailing), n);
    TrailingZerosExact(x, trailing);
    ShrLow(x, trailing);
  }

  /** The window of an appender agrees with that of an iterator, unless it has none yet. */
  predicate SameWindow(a: State, st: State) {
    a.leading == NO_WINDOW || (a.leading == st.leading && a.trailing == st.trailing)
  }

  /** The appender's state after writing v. */
  function AfterValue(a: State, v: UInt64): State {
    XorCancels(v, a.v);
    Xor64(v, a.v);
    if v == a.v then a
    else var w := Window(a, Xor(v, a.v)); a.(v := v, leading := w.0, trailing := w.1)
  }

  lemma ValueRoundTrip(a: State, st: State, v: UInt64, rest: seq<bool>)
    requires a.v == st.v && SameWindow(a, st)
    ensures var p := ValueFrom(ValueBits(a, v) + rest, st.v, st.leading, st.trailing);
            p.Got? && p.rest == rest && p.value.v == v
            && SameWindow(AfterValue(a, v), st.(leading := p.value.leading, trailing := p.value.trailing))
  {
    assert ValueFrom([false] + rest, st.v, st.leading, st.trailing) == Got(Value(st.v, st.leading, st.trailing), rest);
    hide Shl, Shr, ToBits, FromBits, Xor, Window, WindowFrom, ValueFrom, LeadingZeros, TrailingZeros;
    XorCancels(v, a.v);
    Xor64(v, a.v);
    var vDelta := Xor(v, a.v);
    if vDelta == 0 {
    } else {
      var (leading, trailing, fresh') := Window(a, vDelta);
      var bits := ToBits(Shr(vDelta, trailing), 64 - leading - trailing);
      WindowRoundTrip(v, a.v, leading, trailing, rest);
      if fresh' {
        NewWindow(leading, trailing, bits, st.v, st.leading, st.trailing, rest);
      } else {
        OldWindow(bits, st.v, st.leading, st.trailing, rest);
      }
    }
  }

  lemma NewWindow(leading: nat, trailing: nat, bits: seq<bool>, v: UInt64, oldLeading: nat, oldTrailing: nat,
                  rest: seq<bool>)
    requires leading <= 31 && leading + trailing <= 63
    ensures ValueFrom([true, true] + ToBits(leading, 5) + ToBits(64 - leading - trailing, 6) + bits + rest, v,
                      oldLeading, oldTrailing)
         == WindowFrom(bits + rest, v, leading, trailing)
  {
    hide ToBits, FromBits, WindowFrom, ValueFrom;
    var head := [true, true] + ToBits(leading, 5) + ToBits(64 - leading - trailing, 6);
    WindowHeader(leading, 64 - leading - trailing, bits + rest);
    assert head + bits + rest == head + (bits + rest);
    FreshWindow(head + (bits + rest), v, leading, trailing, oldLeading, oldTrailing);
  }

  lemma FreshWindow(b: seq<bool>, v: UInt64, leading: nat, trailing: nat, oldLeading: nat, oldTrailing: nat)
    requires leading <= 31 && leading + trailing <= 63 && |b| >= 13 && b[0] && b[1]
    requires FromBits(b[2..7]) == leading && FromBits(b[7..13]) == (64 - leading - trailing) % 64
    ensures ValueFrom(b, v, oldLeading, oldTrailing) == WindowFrom(b[13..], v, leading, trailing)
  {
    hide FromBits, WindowFrom;
  }

  lemma OldWindow(bits: seq<bool>, v: UInt64, leading: nat, trailing: nat, rest: seq<bool>)
    ensures ValueFrom([true, false] + bits + rest, v, leading, trailing)
            == WindowFrom(bits + rest, v, leading, trailing)
  {
    hide WindowFrom;
    assert ([true, false] + bits + rest)[2..] == bits + rest;
  }

  lemma WindowHeader(leading: nat, sigbits: nat, rest: seq<bool>)
    requires leading <= 31 && 1 <= sigbits <= 64
    ensures var b := [true, true] + ToBits(leading, 5) + ToBits(sigbits, 6) + rest;
            b[0] && b[1] && FromBits(b[2..7]) == leading && FromBits(b[7..13]) == sigbits % 64 && b[13..] == rest
  {
    hide Low, Shl, Pow2, ToBits, FromBits;
    var b := [true, true] + ToBits(leading, 5) + ToBits(sigbits, 6) + rest;
    assert b[2..7] == ToBits(leading, 5) && b[7..13] == ToBits(sigbits, 6);
    FromToBits(leading, 5);
    LowIsMod(leading, 5);
    FromToBits(sigbits, 6);
    LowIsMod(sigbits, 6);
    Pow2Values();
  }

  // ---------------------------------------------------------------- samples

  function SampleBits(a: State, s: Sample): seq<bool> {
    var tDelta := ToUInt64(s.t - a.t);
    if a.num == 0 then BytesToBits(UvarintBytes(ZigZag(s.t))) + ToBits(s.v, 64)
    else if a.num == 1 then BytesToBits(UvarintBytes(tDelta)) + ValueBits(a, s.v)
    else DodBits(ToInt64((tDelta - a.tDelta) % TWO64)) + ValueBits(a, s.v)
  }

  function AfterSample(a: State, s: Sample): State {
    if a.num == 0 then State(1, s.t, s.v, 0, a.leading, a.trailing)
    else AfterValue(a, s.v).(num := a.num + 1, t := s.t, tDelta := ToUInt64(s.t - a.t))
  }

  function SampleFrom(st: State, b: seq<bool>): (p: Parse<State>)
    ensures p.Got? ==> p.value.num == st.num + 1
  {
    if st.num == 0 then
      var p := UvarintFrom(b, 0, 0);
      if p.Fail? || |p.rest| < 64 then Fail
      else
        FromBits64(p.rest[..64]);
        Got(st.(num := 1, t := UnZigZag(p.value), v := FromBits(p.rest[..64])), p.rest[64..])
    else if st.num == 1 then
      var p := UvarintFrom(b, 0, 0);
      if p.Fail? then Fail else WithDelta(st, p.value, p.rest)
    else
      var p := DodFrom(b);
      if p.Fail? then Fail else WithDelta(st, ToUInt64(ToInt64(st.tDelta) + p.value), p.rest)
  }

  function WithDelta(st: State, tDelta: UInt64, b: seq<bool>): Parse<State> {
    var p := ValueFrom(b, st.v, st.leading, st.trailing);
    if p.Fail? then Fail
    else
      Got(State(st.num + 1, AddInt64(st.t, ToInt64(tDelta)), p.value.v, tDelta, p.value.leading, p.value.trailing),
          p.rest)
  }

  /** Appender and iterator in lockstep: they have seen the same samples. */
  predicate Sync(a: State, st: State) {
    && a.num == st.num
    && (st.num > 0 ==> a.t == st.t && a.v == st.v)
    && (st.num > 1 ==> a.tDelta == st.tDelta)
    && SameWindow(a, st)
  }

  /** The iterator gets back the sample the appender wrote, and stays in lockstep with it. */
  lemma SampleRoundTrip(a: State, st: State, s: Sample, rest: seq<bool>)
    requires Sync(a, st)
    ensures var p := SampleFrom(st, SampleBits(a, s) + rest);
            p.Got? && p.rest == rest && p.value.t == s.t && p.value.v == s.v && Sync(AfterSample(a, s), p.value)
  {
    hide DodBits, DodFrom, ValueBits, ValueFrom, AfterValue, BytesToBits, UvarintBytes, UvarintFrom, ToInt64, ToUInt64;
    var tDelta := ToUInt64(s.t - a.t);
    var tail := ValueBits(a, s.v) + rest;
    if a.num == 0 {
      FirstSample(st, s, rest);
    } else {
      ValueRoundTrip(a, st, s.v, rest);
      DeltaRoundTrip(a.t, s.t, a.tDelta);
      ValueKept(a, s.v);
      if a.num == 1 {
        assert SampleBits(a, s) + rest == BytesToBits(UvarintBytes(tDelta)) + tail;
        UvarintRead(tDelta, tail);
      } else {
        var dod := ToInt64((tDelta - a.tDelta) % TWO64);
        assert SampleBits(a, s) + rest == DodBits(dod) + tail;
        DodRoundTrip(dod, tail);
      }
    }
  }

  lemma FirstSample(st: State, s: Sample, rest: seq<bool>)
    requires st.num == 0
    ensures SampleFrom(st, BytesToBits(UvarintBytes(ZigZag(s.t))) + ToBits(s.v, 64) + rest)
         == Got(st.(num := 1, t := s.t, v := s.v), rest)
  {
    hide Low, ToBits, FromBits, BytesToBits, UvarintBytes, UvarintFrom, ZigZag, UnZigZag;
    var head, vbits := BytesToBits(UvarintBytes(ZigZag(s.t))), ToBits(s.v, 64);
    assert head + vbits + rest == head + (vbits + rest);
    UvarintRead(ZigZag(s.t), vbits + rest);
    ZigZagRoundTrip(s.t);
    assert (vbits + rest)[..64] == vbits && (vbits + rest)[64..] == rest;
    FromToBits(s.v, 64);
    Low64(s.v);
  }

  lemma ValueKept(a: State, v: UInt64)
    ensures AfterValue(a, v).v == v
  {
    hide Window, Xor;
    XorCancels(v, a.v);
  }

  lemma UvarintRead(y: UInt64, rest: seq<bool>)
    ensures UvarintFrom(BytesToBits(UvarintBytes(y)) + rest, 0, 0) == Got(y, rest)
  {
    UvarintRoundTrip(y, 0, 0, rest);
  }

  /** Timestamps survive the wrapping differences of differences. */
  lemma DeltaRoundTrip(prev: Int64, t: Int64, prevDelta: UInt64)
    ensures var tDelta := ToUInt64(t - prev);
            AddInt64(prev, ToInt64(tDelta)) == t
            && ToUInt64(ToInt64(prevDelta) + ToInt64((tDelta - prevDelta) % TWO64)) == tDelta
  {
    TimeRestored(prev, t);
    hide ToUInt64, ToInt64, AddInt64;
    DeltaRestored(prevDelta, ToUInt64(t - prev));
  }

  lemma TimeRestored(prev: Int64, t: Int64)
    ensures AddInt64(prev, ToInt64(ToUInt64(t - prev))) == t
  {
    WrapsTo(prev + ToInt64(ToUInt64(t - prev)), t);
  }

  lemma DeltaRestored(prevDelta: UInt64, tDelta: UInt64)
    ensures ToUInt64(ToInt64(prevDelta) + ToInt64((tDelta - prevDelta) % TWO64)) == tDelta
  {
    WrapsTo(ToInt64(prevDelta) + ToInt64((tDelta - prevDelta) % TWO64), tDelta);
  }

  lemma WrapsTo(x: int, y: int)
    requires x == y || x == y + TWO64 || x == y - TWO64 || x == y + 2 * TWO64 || x == y - 2 * TWO64
    ensures 0 <= y < TWO64 ==> ToUInt64(x) == y
    ensures -TWO63 <= y < TWO63 ==> ToInt64(ToUInt64(x)) == y
  {
  }

  // ---------------------------------------------------------------- runs of samples

  /** The first n samples found in b, the state after them and the bits after them. */
  function SamplesFrom(n: nat, st: State, b: seq<bool>): (p: Parse<(seq<Sample>, State)>)
    ensures p.Got? ==> |p.value.0| == n && p.value.1.num == st.num + n
  {
    if n == 0 then Got(([], st), b)
    else
      var p := SampleFrom(st, b);
      if p.Fail? then Fail
      else
        var q := SamplesFrom(n - 1, p.value, p.rest);
        if q.Fail? then Fail else Got(([Sample(p.value.t, p.value.v)] + q.value.0, q.value.1), q.rest)
  }

  /** What b begins with does not change when bits are added at its end. */
  lemma {:induction false} SamplesExtend(n: nat, st: State, b: seq<bool>, ext: seq<bool>)
    requires SamplesFrom(n, st, b).Got?
    ensures var p := SamplesFrom(n, st, b); SamplesFrom(n, st, b + ext) == Got(p.value, p.rest + ext)
  {
    hide SampleFrom;
    if n > 0 {
      SampleExtend(st, b, ext);
      var p := SampleFrom(st, b);
      SamplesExtend(n - 1, p.value, p.rest, ext);
    }
  }

  lemma {:induction false} SamplesSplit(m: nat, n: nat, st: State, b: seq<bool>)
    requires SamplesFrom(m, st, b).Got?
    ensures var p := SamplesFrom(m, st, b);
            var q := SamplesFrom(n, p.value.1, p.rest);
            SamplesFrom(m + n, st, b) == if q.Got? then Got((p.value.0 + q.value.0, q.value.1), q.rest) else Fail
  {
    hide SampleFrom;
    if m > 0 {
      var p := SampleFrom(st, b);
      SamplesSplit(m - 1, n, p.value, p.rest);
      var r := SamplesFrom(m - 1, p.value, p.rest);
      var q := SamplesFrom(n, r.value.1, r.rest);
      if q.Got? {
        assert [Sample(p.value.t, p.value.v)] + (r.value.0 + q.value.0)
               == [Sample(p.value.t, p.value.v)] + r.value.0 + q.value.0;
      }
    } else {
      var q := SamplesFrom(n, st, b);
      if q.Got? {
        assert [] + q.value.0 == q.value.0;
      }
    }
  }

  lemma {:induction false} SamplesPrefix(m: nat, n: nat, st: State, b: seq<bool>)
    requires m <= n && SamplesFrom(n, st, b).Got?
    ensures SamplesFrom(m, st, b).Got?
    ensures SamplesFrom(m, st, b).value.0 == SamplesFrom(n, st, b).value.0[..m]
  {
    hide SampleFrom;
    if m > 0 {
      var p := SampleFrom(st, b);
      SamplesPrefix(m - 1, n - 1, p.value, p.rest);
    }
  }

  lemma SampleExtend(st: State, b: seq<bool>, ext: seq<bool>)
    requires SampleFrom(st, b).Got?
    ensures var p := SampleFrom(st, b); SampleFrom(st, b + ext) == Got(p.value, p.rest + ext)
  {
    hide FromBits, UvarintFrom, DodFrom, ValueFrom;
    if st.num == 0 {
      UvarintExtend(b, 0, 0, ext);
      var r := UvarintFrom(b, 0, 0).rest;
      assert (r + ext)[..64] == r[..64] && (r + ext)[64..] == r[64..] + ext;
    } else if st.num == 1 {
      UvarintExtend(b, 0, 0, ext);
      ValueExtend(UvarintFrom(b, 0, 0).rest, st.v, st.leading, st.trailing, ext);
    } else {
      DodExtend(b, ext);
      ValueExtend(DodFrom(b).rest, st.v, st.leading, st.trailing, ext);
    }
  }

  lemma {:induction false} UvarintExtend(b: seq<bool>, i: nat, x: UInt64, ext: seq<bool>)
    requires UvarintFrom(b, i, x).Got?
    ensures var p := UvarintFrom(b, i, x); UvarintFrom(b + ext, i, x) == Got(p.value, p.rest + ext)
    decreases 10 - i
  {
    hide Or, Shl64, FromBits;
    assert (b + ext)[..8] == b[..8] && (b + ext)[8..] == b[8..] + ext;
    var byt := FromBits(b[..8]);
    Or64(x, Shl64(byt % 128, 7 * i));
    if byt >= 128 {
      UvarintExtend(b[8..], i + 1, Or(x, Shl64(byt % 128, 7 * i)), ext);
    }
  }

  lemma {:induction false} OnesExtend(b: seq<bool>, n: nat, ext: seq<bool>)
    requires Ones(b, n).Got?
    ensures var p := Ones(b, n); Ones(b + ext, n) == Got(p.value, p.rest + ext)
  {
    if n > 0 {
      assert (b + ext)[1..] == b[1..] + ext;
      if b[0] {
        OnesExtend(b[1..], n - 1, ext);
      }
    }
  }

  lemma DodExtend(b: seq<bool>, ext: seq<bool>)
    requires DodFrom(b).Got?
    ensures var p := DodFrom(b); DodFrom(b + ext) == Got(p.value, p.rest + ext)
  {
    hide FromBits, SignedDod;
    OnesExtend(b, 4, ext);
    var p := Ones(b, 4);
    if p.value > 0 {
      var size := DodSize(p.value);
      assert (p.rest + ext)[..size] == p.rest[..size] && (p.rest + ext)[size..] == p.rest[size..] + ext;
    }
  }

  lemma ValueExtend(b: seq<bool>, v: UInt64, leading: nat, trailing: nat, ext: seq<bool>)
    requires ValueFrom(b, v, leading, trailing).Got?
    ensures var p := ValueFrom(b, v, leading, trailing);
            ValueFrom(b + ext, v, leading, trailing) == Got(p.value, p.rest + ext)
  {
    hide FromBits, WindowFrom;
    var c := b + ext;
    if !b[0] {
      assert c[1..] == b[1..] + ext;
    } else if !b[1] {
      assert c[2..] == b[2..] + ext;
      WindowExtend(b[2..], v, leading, trailing, ext);
    } else {
      assert c[2..7] == b[2..7] && c[7..13] == b[7..13] && c[13..] == b[13..] + ext;
      var mbits := FromBits(b[7..13]);
      var mbits' := if mbits == 0 then 64 else mbits;
      WindowExtend(b[13..], v, FromBits(b[2..7]), (64 - FromBits(b[2..7]) - mbits') % 256, ext);
    }
  }

  lemma WindowExtend(b: seq<bool>, v: UInt64, leading: nat, trailing: nat, ext: seq<bool>)
    requires WindowFrom(b, v, leading, trailing).Got?
    ensures var p := WindowFrom(b, v, leading, trailing);
            WindowFrom(b + ext, v, leading, trailing) == Got(p.value, p.rest + ext)
  {
    var n := SigBits(leading, trailing);
    assert (b + ext)[..n] == b[..n] && (b + ext)[n..] == b[n..] + ext;
  }

  /** Before the first sample, the time and value an iterator starts from are irrelevant. */
  lemma StartIrrelevant(n: nat, st: State, st': State, b: seq<bool>)
    requires st.num == 0 && st' == st.(t := st'.t, v := st'.v) && n > 0
    ensures SamplesFrom(n, st, b) == SamplesFrom(n, st', b)
  {
    assert SampleFrom(st, b) == SampleFrom(st', b);
  }
}
