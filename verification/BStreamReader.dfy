/**
 The buffered bit reader of pkg/tsdb/chunkenc/bstream.go. The reader refills an
 8-byte buffer and takes bits from its left; Pending is the list of bits left to read.
 */
module BitStreamReader {
  import opened Bits

  ghost function PendingBits(buffer: nat, valid: nat, stream: seq<Byte>, offset: nat): seq<bool>
    requires offset <= |stream|
  {
    ToBits(buffer, valid) + BytesToBits(stream[offset..])
  }

  class BStreamReader {
    const stream: seq<Byte>
    var streamOffset: nat
    var buffer: UInt64
    var valid: nat

    ghost predicate Valid()
      reads this
    {
      streamOffset <= |stream| && valid < 256
    }

    ghost function Pending(): seq<bool>
      requires Valid()
      reads this
    {
      PendingBits(buffer, valid, stream, streamOffset)
    }

    constructor (b: seq<Byte>)
      ensures Valid() && stream == b && streamOffset == 0 && valid == 0
      ensures Pending() == BytesToBits(b)
    {
      stream, streamOffset, buffer, valid := b, 0, 0, 0;
    }

    method ReadBit() returns (bit: bool, eof: bool)
      requires Valid()
      modifies this
      ensures Valid()
      ensures eof <==> old(Pending()) == []
      ensures !eof ==> old(Pending()) == [bit] + Pending()
      ensures eof ==> !bit && Pending() == old(Pending())
    {
      if valid == 0 {
        var ok := LoadNextBuffer(1);
        if !ok {
          return false, true;
        }
      }
      bit, eof := ReadBitFast();
    }

    method ReadBitFast() returns (bit: bool, eof: bool)
      requires Valid()
      modifies this
      ensures Valid()
      ensures eof <==> old(valid) == 0
      ensures !eof ==> old(Pending()) == [bit] + Pending()
      ensures eof ==> !bit && valid == 0 && Pending() == old(Pending())
    {
      if valid == 0 {
        return false, true;
      }
      FirstBit(buffer, valid);
      valid := valid - 1;
      return TestBit(buffer, valid), false;
    }

    /**
     Reads nbits bits when that many are left. On a short stream the outcome depends on the
     buffer: end of file is reported if and only if the buffer was empty or the stream was
     used up; otherwise the missing bits read as zeros and no error is raised.
     */
    method ReadBits(nbits: nat) returns (v: UInt64, eof: bool)
      requires Valid() && nbits <= 64
      modifies this
      ensures Valid()
      ensures nbits <= |old(Pending())| != 0 ==>
                !eof && v == FromBits(old(Pending())[..nbits]) && Pending() == old(Pending())[nbits..]
      ensures |old(Pending())| == 0 ==> eof
      ensures v < Pow2(nbits)
      ensures |old(Pending())| < nbits ==> (eof <==> old(valid) == 0 || old(streamOffset) == |stream|)
      ensures |old(Pending())| < nbits && !eof ==>
                v == Shl(FromBits(ToBits(old(buffer), old(valid))), nbits - old(valid))
    {
      hide Shl, Shr, Low, Pow2, ToBits, FromBits, BytesToBits, BigEndian, Or;
      if valid == 0 {
        var ok := LoadNextBuffer(nbits);
        if !ok {
          return 0, true;
        }
        assert old(Pending()) == Pending() by {
          assert ToBits(old(buffer), 0) == [];
        }
      }

      if nbits <= valid {
        v, eof := ReadBitsFast(nbits);
        return;
      }

      // All valid bits of the current buffer are needed, and a part of the next one.
      ghost var start, left := Pending(), valid;
      var n := nbits - valid;
      v := Shl64(Low(buffer, valid), n);
      HighPart(buffer, valid, n);
      valid := 0;
      var ok := LoadNextBuffer(n);
      if !ok {
        return 0, true;
      }
      assert start == ToBits(old(buffer), left) + Pending();
      ghost var next := Pending();
      var rest: nat := (valid - n) % 256;
      JoinParts(ToBits(old(buffer), left), buffer, valid, n, BytesToBits(stream[streamOffset..]));
      v := Or(v, Low(Shr(buffer, rest), n));
      valid := rest;
      return v, false;
    }

    method ReadBitsFast(nbits: nat) returns (v: UInt64, eof: bool)
      requires Valid()
      modifies this
      ensures Valid()
      ensures eof <==> nbits > old(valid)
      ensures v < Pow2(nbits)
      ensures !eof ==>
                && nbits <= |old(Pending())|
                && v == FromBits(old(Pending())[..nbits]) && Pending() == old(Pending())[nbits..]
      ensures eof ==> v == 0 && valid == old(valid) && Pending() == old(Pending())
    {
      if nbits > valid {
        return 0, true;
      }
      TakeBits(buffer, valid, nbits, BytesToBits(stream[streamOffset..]));
      LowAtMost(Shr(buffer, valid - nbits), nbits);
      valid := valid - nbits;
      return Low(Shr(buffer, valid), nbits), false;
    }

    method ReadByte() returns (byt: Byte, eof: bool)
      requires Valid()
      modifies this
      ensures Valid()
      ensures 8 <= |old(Pending())| ==>
                !eof && byt == FromBits(old(Pending())[..8]) && Pending() == old(Pending())[8..]
      ensures eof <==> |old(Pending())| < 8
    {
      assert |Pending()| == valid + 8 * (|stream| - streamOffset);
      var v;
      v, eof := ReadBits(8);
      return v % 256, eof;
    }

    /** Refills an empty buffer with at least nbits bits, unless fewer are left. */
    method LoadNextBuffer(nbits: nat) returns (ok: bool)
      requires Valid() && nbits <= 64
      modifies this
      ensures Valid()
      ensures ok <==> old(streamOffset) < |stream|
      ensures ok ==> 0 < valid <= 64 && Pending() == BytesToBits(stream[old(streamOffset)..])
      ensures ok && valid < nbits ==> streamOffset == |stream|
      ensures !ok ==> streamOffset == old(streamOffset) && buffer == old(buffer) && valid == old(valid)
    {
      if streamOffset >= |stream| {
        return false;
      }
      if streamOffset + 8 < |stream| {
        BufferedBytes(stream, streamOffset, 8);
        buffer := BigEndian(stream[streamOffset..streamOffset + 8]);
        streamOffset := streamOffset + 8;
        valid := 64;
        return true;
      }

      var nbytes := nbits / 8 + 1;
      if streamOffset + nbytes > |stream| {
        nbytes := |stream| - streamOffset;
      }
      LoadBytes(nbytes);
      return true;
    }

    /** The tail of LoadNextBuffer: the last bytes are or-ed into the buffer one by one. */
    method LoadBytes(nbytes: nat)
      requires Valid() && 1 <= nbytes <= 8 && streamOffset + nbytes <= |stream|
      modifies this
      ensures Valid() && streamOffset == old(streamOffset) + nbytes && valid == 8 * nbytes
      ensures Pending() == BytesToBits(stream[old(streamOffset)..])
    {
      hide Shl, Shl64, Pow2, BytesToBits, ToBits, Or, BigEndian, Partial;
      ghost var last := stream[streamOffset..streamOffset + nbytes];
      BufferedBytes(stream, streamOffset, nbytes);
      PartialWord(last);
      var b: UInt64 := 0;
      for i := 0 to nbytes
        invariant streamOffset == old(streamOffset)
        invariant b == Partial(last, i)
      {
        OrNextByte(last, i);
        assert stream[streamOffset + i] == last[i];
        b := Or(b, Shl64(stream[streamOffset + i], 8 * (nbytes - i - 1)));
      }
      assert |last| == nbytes && b == Partial(last, |last|) == BigEndian(last);
      buffer := b;
      streamOffset := streamOffset + nbytes;
      valid := nbytes * 8;
      assert Pending() == PendingBits(BigEndian(last), 8 * nbytes, stream, streamOffset);
    }
  }

  // ---------------------------------------------------------------- taking bits from the buffer

  lemma FirstBit(buffer: nat, valid: nat)
    requires valid > 0
    ensures ToBits(buffer, valid) == [TestBit(buffer, valid - 1)] + ToBits(buffer, valid - 1)
  {
    ToBitsSplit(buffer, 1, valid - 1);
    var x := Shr(buffer, valid - 1);
    assert ToBits(x / 2, 0) == [];
  }

  lemma TakeBits(buffer: nat, valid: nat, nbits: nat, rest: seq<bool>)
    requires nbits <= valid
    ensures Low(Shr(buffer, valid - nbits), nbits) == FromBits((ToBits(buffer, valid) + rest)[..nbits])
    ensures ToBits(buffer, valid - nbits) + rest == (ToBits(buffer, valid) + rest)[nbits..]
  {
    hide Shr, Low, ToBits, FromBits;
    ShrBits(buffer, nbits, valid - nbits);
    FromToBits(Shr(buffer, valid - nbits), nbits);
    assert (ToBits(buffer, valid) + rest)[..nbits] == ToBits(buffer, valid)[..nbits];
  }

  /** The bits taken from the old buffer become the high part of the result. */
  lemma HighPart(buffer: UInt64, valid: nat, n: nat)
    requires valid + n <= 64
    ensures Shl64(Low(buffer, valid), n) == Shl(FromBits(ToBits(buffer, valid)), n)
  {
    hide Shl, Shr, Low, FromBits, ToBits;
    FromToBits(buffer, valid);
    var hi := Low(buffer, valid);
    ShlSplit(hi, 0, n);
    ShrBound(Shl(hi, n), valid, n);
    Pow2Values();
    Pow2Monotonic(valid + n, 64);
  }

  /** The low part comes from the refilled buffer, or is zero when `valid - n` wraps around. */
  lemma JoinParts(high: seq<bool>, buffer: UInt64, valid: nat, n: nat, rest: seq<bool>)
    requires valid <= 64 && n <= 64 && |high| + n <= 64
    ensures var next, k: nat := ToBits(buffer, valid) + rest, (valid - n) % 256;
            var v := Or(Shl(FromBits(high), n), Low(Shr(buffer, k), n));
            && v < TWO64 && v < Pow2(|high| + n)
            && (n <= valid ==>
                  v == FromBits((high + next)[..|high| + n]) && ToBits(buffer, k) + rest == (high + next)[|high| + n..])
            && (valid < n ==> v == Shl(FromBits(high), n))
  {
    hide Shl, Shr, Low, Pow2, ToBits, FromBits, BytesToBits, BigEndian;
    var next, k: nat := ToBits(buffer, valid) + rest, (valid - n) % 256;
    var hi, lo := FromBits(high), Low(Shr(buffer, k), n);
    OrDisjoint(hi, lo, n);
    ShlSplit(hi, lo, n);
    ShrBound(Shl(hi, n) + lo, |high|, n);
    Pow2Values();
    Pow2Monotonic(|high| + n, 64);
    if n <= valid {
      TakeBits(buffer, valid, n, rest);
      FromBitsConcat(high, next[..n]);
      assert (high + next)[..|high| + n] == high + next[..n];
      assert (high + next)[|high| + n..] == next[n..];
    } else {
      Pow2Monotonic(64, k);
      LowSmall(buffer, k);
      ShlZero(n);
    }
  }

  // ---------------------------------------------------------------- filling the buffer

  lemma BufferedBytes(stream: seq<Byte>, offset: nat, n: nat)
    requires offset + n <= |stream| && n <= 8
    ensures BigEndian(stream[offset..offset + n]) < Pow2(8 * n) <= TWO64
    ensures PendingBits(BigEndian(stream[offset..offset + n]), 8 * n, stream, offset + n)
            == BytesToBits(stream[offset..])
  {
    var s := stream[offset..offset + n];
    BigEndianBits(s);
    Pow2Values();
    Pow2Monotonic(8 * n, 64);
    assert stream[offset..] == s + stream[offset + n..];
    BytesToBitsConcat(s, stream[offset + n..]);
  }

  /** The first i bytes of s, in their place within a word of |s| bytes. */
  ghost function Partial(s: seq<Byte>, i: nat): nat
    requires i <= |s|
  {
    Shl(BigEndian(s[..i]), 8 * (|s| - i))
  }

  lemma PartialWord(s: seq<Byte>)
    ensures Partial(s, 0) == 0 && Partial(s, |s|) == BigEndian(s)
  {
    ShlZero(8 * |s|);
    assert s[..|s|] == s;
  }

  lemma OrNextByte(s: seq<Byte>, i: nat)
    requires i < |s| <= 8
    ensures Or(Partial(s, i), Shl64(s[i], 8 * (|s| - i - 1))) == Partial(s, i + 1) < TWO64
  {
    var k := 8 * (|s| - i - 1);
    assert s[..i + 1][..i] == s[..i];
    BigEndianBits(s[..i + 1]);
    OrByteAt(BigEndian(s[..i]), s[i], k, 8 * (i + 1));
  }

  lemma OrByteAt(x: nat, b: Byte, k: nat, n: nat)
    requires 256 * x + b < Pow2(n) && n + k <= 64 && n >= 8
    ensures Or(Shl(x, k + 8), Shl64(b, k)) == Shl(256 * x + b, k) < TWO64
  {
    hide *;
    Pow2Values();
    Shl64Fits(b, 8, k);
    Shl64Fits(256 * x + b, n, k);
    OrDisjoint(x, Shl(b, k), k + 8);
    ShlByte(x);
    ShlShl(x, 8, k);
    ShlAdd(256 * x, b, k);
  }

  lemma Shl64Fits(x: nat, m: nat, n: nat)
    requires m + n <= 64 && x < Pow2(m)
    ensures Shl64(x, n) == Shl(x, n) < Pow2(m + n) <= TWO64
  {
    Pow2Values();
    ShlSplit(x, 0, n);
    ShrBound(Shl(x, n), m, n);
    Pow2Monotonic(m + n, 64);
  }
}
