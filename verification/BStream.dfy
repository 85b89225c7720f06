/**
 The bit stream writer of pkg/tsdb/chunkenc/bstream.go. The stream is a byte list
 whose last byte has `count` unused low bits.
 */
module BitStream {
  import opened Bits

  /** The bits written so far: all of the stream but the unused bits of its last byte. */
  ghost function Written(stream: seq<Byte>, count: nat): (c: seq<bool>)
    requires count <= 8 * |stream|
    ensures |c| == 8 * |stream| - count
  {
    BytesToBits(stream)[..8 * |stream| - count]
  }

  /** The unused bits are all zero. A wholly unused last byte (count == 8) is possible. */
  ghost predicate Padded(stream: seq<Byte>, count: nat) {
    && count <= 8
    && (stream == [] ==> count == 0)
    && (stream != [] ==> Low(stream[|stream| - 1], count) == 0)
  }

  class BStream {
    var stream: seq<Byte>
    var count: nat

    ghost predicate Valid()
      reads this
    {
      Padded(stream, count)
    }

    ghost function Contents(): seq<bool>
      requires Valid()
      reads this
    {
      Written(stream, count)
    }

    constructor (stream: seq<Byte>)
      ensures Valid() && this.stream == stream && count == 0
      ensures Contents() == BytesToBits(stream)
    {
      this.stream, this.count := stream, 0;
      new;
      assert BytesToBits(stream)[..8 * |stream|] == BytesToBits(stream);
    }

    method WriteBit(bit: bool)
      requires Valid()
      modifies this
      ensures Valid()
      ensures Contents() == old(Contents()) + [bit]
    {
      hide Written, Low, Or, Shl8;
      if count == 0 {
        GrowStream(stream);
        stream := stream + [0];
        count := 8;
      }
      var i := |stream| - 1;
      PutBit(stream[..i], stream[i], count, bit);
      assert stream == stream[..i] + [stream[i]];
      if bit {
        stream := stream[i := Or(stream[i], Shl8(1, count - 1))];
        assert stream == stream[..i] + [stream[i]];
      }
      count := count - 1;
    }

    method WriteByte(byt: Byte)
      requires Valid()
      modifies this
      ensures Valid()
      ensures Contents() == old(Contents()) + ToBits(byt, 8)
    {
      hide Written, Low, Or, Shl8, Shr, ToBits;
      if count == 0 {
        GrowStream(stream);
        stream := stream + [0];
        count := 8;
      }
      var i := |stream| - 1;
      ghost var front, last := stream[..i], stream[i];
      assert stream == front + [last];
      PutByte(front, last, count, byt);
      stream := stream[i := Or(stream[i], Shr(byt, 8 - count))];
      stream := stream + [0];
      i := i + 1;
      stream := stream[i := Shl8(byt, count)];
      assert stream == front + [Or(last, Shr(byt, 8 - count)), Shl8(byt, count)];
    }

    /** Appends the nbits low bits of u, for any nbits up to the word size. */
    method WriteBits(u: UInt64, nbits: nat)
      requires Valid() && nbits <= 64
      modifies this
      ensures Valid()
      ensures Contents() == old(Contents()) + ToBits(u, nbits)
    {
      hide *;
      ghost var goal := Contents() + ToBits(u, nbits);
      ShiftedWord(u, nbits);
      var w, n := Shl64(u, 64 - nbits), nbits;
      while n >= 8
        invariant 0 <= n <= 64 && Valid()
        invariant Contents() + ToBits(w, 64)[..n] == goal
      {
        NextByte(w, n);
        WriteByte(Shr(w, 56) % 256);
        w := Shl64(w, 8);
        n := n - 8;
      }
      while n > 0
        invariant 0 <= n <= 64 && Valid()
        invariant Contents() + ToBits(w, 64)[..n] == goal
      {
        NextBit(w, n);
        WriteBit(Shr(w, 63) == 1);
        w := Shl64(w, 1);
        n := n - 1;
      }
    }
  }

  // ---------------------------------------------------------------- one write at a time

  lemma WrittenAs(front: seq<Byte>, last: Byte, count: nat)
    requires count <= 8
    ensures Written(front + [last], count) == BytesToBits(front) + ToBits(Shr(last, count), 8 - count)
  {
    BytesToBitsConcat(front, [last]);
    BytesToBitsSingle(last);
    ShrBits(last, 8 - count, count);
  }

  lemma GrowStream(stream: seq<Byte>)
    ensures Written(stream + [0], 8) == Written(stream, 0)
    ensures Padded(stream + [0], 8)
  {
    WrittenAs(stream, 0, 8);
    ShlZero(8);
    assert Written(stream, 0) == BytesToBits(stream);
  }

  /** Setting the highest unused bit of a byte h·2^count to b gives (2h + b)·2^(count-1). */
  lemma SetBit(last: Byte, count: nat, bit: bool)
    requires 1 <= count <= 8 && Low(last, count) == 0
    ensures var last' := if bit then Or(last, Shl8(1, count - 1)) else last;
            && last' < 256 && Low(last', count - 1) == 0
            && Shr(last', count - 1) == 2 * Shr(last, count) + (if bit then 1 else 0)
  {
    hide Shl, Shr, Low, Or;
    var h := Shr(last, count);
    var b := if bit then 1 else 0;
    ShrLow(last, count);
    PlusBit(h, b, count);
    BytePow2(count);
    OrDisjoint(h, Shl(1, count - 1), count);
    ShlSplit(2 * h + b, 0, count - 1);
    OneMoreBit(last, b, count);
  }

  /** The bits h, followed by one more bit b, above count - 1 zeros. */
  lemma PlusBit(h: nat, b: nat, count: nat)
    requires count >= 1 && b <= 1
    ensures Shl(2 * h + b, count - 1) == Shl(h, count) + if b == 1 then Shl(1, count - 1) else 0
  {
    ShlDouble(h, count - 1);
    ShlAdd(2 * h, b, count - 1);
    ShlZero(count - 1);
  }

  lemma OneMoreBit(last: Byte, b: nat, count: nat)
    requires 1 <= count <= 8 && b <= 1
    ensures Shl(2 * Shr(last, count) + b, count - 1) < 256
  {
    assert Pow2(9 - count) == 2 * Pow2(8 - count);
    hide Shl, Shr, Low;
    var x := 2 * Shr(last, count) + b;
    ByteBits(last, 8 - count, count);
    ShlSplit(x, 0, count - 1);
    ByteBits(Shl(x, count - 1), 9 - count, count - 1);
  }

  lemma BytePow2(count: nat)
    requires 1 <= count <= 8
    ensures Shl8(1, count - 1) == Pow2(count - 1) < Pow2(count)
  {
    Pow2Values();
    Pow2Monotonic(count - 1, 7);
  }

  lemma ByteBits(x: nat, m: nat, n: nat)
    requires m + n == 8
    ensures x < 256 <==> Shr(x, n) < Pow2(m)
  {
    Pow2Values();
    ShrBound(x, m, n);
  }

  lemma PutBit(front: seq<Byte>, last: Byte, count: nat, bit: bool)
    requires 1 <= count <= 8 && Low(last, count) == 0
    ensures var last' := if bit then Or(last, Shl8(1, count - 1)) else last;
            && last' < 256 && Padded(front + [last'], count - 1)
            && Written(front + [last'], count - 1) == Written(front + [last], count) + [bit]
  {
    var last' := if bit then Or(last, Shl8(1, count - 1)) else last;
    SetBit(last, count, bit);
    WrittenAs(front, last, count);
    WrittenAs(front, last', count - 1);
    AppendBit(Shr(last, count), 8 - count, bit);
  }

  lemma AppendBit(h: nat, n: nat, bit: bool)
    ensures ToBits(2 * h + (if bit then 1 else 0), n + 1) == ToBits(h, n) + [bit]
  {
  }

  /** A byte split over two: its high bits fill the unused bits, its low bits start the next byte. */
  lemma SplitByte(last: Byte, count: nat, byt: Byte)
    requires 1 <= count <= 8 && Low(last, count) == 0
    ensures var last', next := Or(last, Shr(byt, 8 - count)), Shl8(byt, count);
            && last' < 256 && Low(next, count) == 0
            && Shr(last', count) == Shr(last, count) && Low(last', count) == Shr(byt, 8 - count)
            && Shr(next, count) == Low(byt, 8 - count)
  {
    hide Shl, Shr, Low, Or;
    var h, hi, lo := Shr(last, count), Shr(byt, 8 - count), Low(byt, 8 - count);
    ShrLow(last, count);
    ByteBits(last, 8 - count, count);
    ByteBits(byt, count, 8 - count);
    OrDisjoint(h, hi, count);
    ShlSplit(h, hi, count);
    ByteBits(Shl(h, count) + hi, 8 - count, count);
    ShlLow(byt, 8 - count, count);
    Low8(Shl(byt, count));
    ShlSplit(lo, 0, count);
  }

  lemma PutByte(front: seq<Byte>, last: Byte, count: nat, byt: Byte)
    requires 1 <= count <= 8 && Low(last, count) == 0
    ensures var last' := Or(last, Shr(byt, 8 - count));
            && last' < 256 && Padded(front + [last', Shl8(byt, count)], count)
            && Written(front + [last', Shl8(byt, count)], count) == Written(front + [last], count) + ToBits(byt, 8)
  {
    hide Shl, Shr, Low, Or, ToBits, BytesToBits, Written;
    SplitByte(last, count, byt);
    var last', next := Or(last, Shr(byt, 8 - count)), Shl8(byt, count);
    WrittenAs(front, last, count);
    WrittenAs(front + [last'], next, count);
    BytesToBitsConcat(front, [last']);
    BytesToBitsSingle(last');
    assert front + [last'] + [next] == front + [last', next];
    ToBitsSplit(last', 8 - count, count);
    ToBitsLow(last', count);
    ToBitsSplit(byt, count, 8 - count);
    ToBitsLow(byt, 8 - count);
  }

  lemma ShiftedWord(u: UInt64, nbits: nat)
    requires nbits <= 64
    ensures ToBits(Shl64(u, 64 - nbits), 64)[..nbits] == ToBits(u, nbits)
  {
    ShlBits(u, 64 - nbits);
    ShrBits(u, 64 - nbits, nbits);
  }

  lemma NextByte(u: UInt64, nbits: nat)
    requires 8 <= nbits <= 64
    ensures ToBits(u, 64)[..nbits] == ToBits(Shr(u, 56) % 256, 8) + ToBits(Shl64(u, 8), 64)[..nbits - 8]
  {
    ShrBits(u, 8, 56);
    Low8(Shr(u, 56));
    ToBitsLow(Shr(u, 56), 8);
    ShlBits(u, 8);
  }

  lemma NextBit(u: UInt64, nbits: nat)
    requires 1 <= nbits <= 64
    ensures ToBits(u, 64)[..nbits] == [Shr(u, 63) == 1] + ToBits(Shl64(u, 1), 64)[..nbits - 1]
  {
    ShrBits(u, 1, 63);
    ShlBits(u, 1);
    Pow2Values();
    ShrBound(u, 1, 63);
    OneBit(Shr(u, 63));
  }

  lemma OneBit(t: nat)
    requires t < 2
    ensures ToBits(t, 1) == [t == 1]
  {
    assert ToBits(t / 2, 0) == [];
  }
}
