/**
 XORChunk, xorAppender and xorIterator of pkg/tsdb/chunkenc/xor.go, proved against
 the codec functions of XorCodec.
 */
module XorChunk {
  import opened Bits
  import opened Varint
  import opened BitStream
  import opened BitStreamReader
  import opened XorCodec

  datatype IterError = NoError | EOF | Overflow

  const MAX_SAMPLES: nat := 65535

  // ---------------------------------------------------------------- iterator

  /** binary.ReadUvarint on a bit reader. */
  method ReadUvarint(br: BStreamReader) returns (x: UInt64, err: IterError)
    requires br.Valid()
    modifies br
    ensures br.Valid()
    ensures var p := UvarintFrom(old(br.Pending()), 0, 0);
            if p.Got? then err == NoError && x == p.value && br.Pending() == p.rest else err != NoError
  {
    hide UvarintFrom, Or, Shl64, FromBits;
    x := 0;
    for i := 0 to 10
      invariant br.Valid()
      invariant var p := UvarintFrom(old(br.Pending()), 0, 0);
                UvarintFrom(br.Pending(), i, x) == p
    {
      UvarintTurn(br.Pending(), i, x);
      var byt, eof := br.ReadByte();
      if eof {
        return x, EOF;
      }
      Or64(x, Shl64(byt % 128, 7 * i));
      if byt < 0x80 {
        if i == 9 && byt > 1 {
          return x, Overflow;
        }
        return Or(x, Shl64(byt, 7 * i)), NoError;
      }
      x := Or(x, Shl64(byt % 0x80, 7 * i));
    }
    UvarintTurn(br.Pending(), 10, x);
    return x, Overflow;
  }

  lemma UvarintTurn(b: seq<bool>, i: nat, x: UInt64)
    ensures UvarintFrom(b, i, x)
            == if i >= 10 || |b| < 8 then Fail
               else
                 var byt := FromBits(b[..8]);
                 var x' := Or(x, Shl64(byt % 128, 7 * i));
                 if x' >= TWO64 then Fail
                 else if byt >= 128 then UvarintFrom(b[8..], i + 1, x')
                 else if i == 9 && byt > 1 then Fail
                 else Got(x', b[8..])
  {
    hide Or, Shl64, FromBits;
    if i < 10 && |b| >= 8 {
      Or64(x, Shl64(FromBits(b[..8]) % 128, 7 * i));
    }
  }

  /** i ones. */
  function OnesByte(i: nat): Byte
    requires i <= 4
  {
    if i == 0 then 0 else if i == 1 then 1 else if i == 2 then 3 else if i == 3 then 7 else 15
  }

  /** The prefix read as a number: k ones, and a zero unless k is four. */
  function PrefixByte(k: nat): Byte
    requires k <= 4
  {
    if k == 4 then 15 else 2 * OnesByte(k)
  }

  class XorIterator {
    var br: BStreamReader
    var numTotal: nat
    var numRead: nat

    var t: Int64
    var val: UInt64

    var leading: nat
    var trailing: nat

    var tDelta: UInt64
    var err: IterError

    ghost predicate Valid()
      reads this, br
    {
      && br.Valid() && numRead <= numTotal <= MAX_SAMPLES
      && (err == NoError ==> 1 <= SigBits(leading, trailing) <= 64)
    }

    ghost function Track(): State
      reads this
    {
      State(numRead, t, val, tDelta, leading, trailing)
    }

    /** The samples not yet returned are exactly xs. */
    ghost predicate Ahead(xs: seq<Sample>)
      reads this, br
    {
      && Valid() && err == NoError && numTotal - numRead == |xs|
      && var p := SamplesFrom(|xs|, Track(), br.Pending());
         p.Got? && p.value.0 == xs
    }

    constructor (b: seq<Byte>)
      requires |b| >= 2
      ensures Valid() && fresh(br) && err == NoError && numTotal == BigEndian(b[..2])
      ensures Track() == State(0, MIN_INT64, 0, 0, 0, 0) && br.Pending() == BytesToBits(b[2..])
    {
      HeaderBound(b);
      br := new BStreamReader(b[2..]);
      numTotal, numRead := BigEndian(b[..2]), 0;
      t, val, leading, trailing, tDelta, err := MIN_INT64, 0, 0, 0, 0, NoError;
    }

    /** Makes the iterator ready for other chunk data; the time it starts from is 0 here. */
    method Reset(b: seq<Byte>)
      requires |b| >= 2
      modifies this
      ensures Valid() && fresh(br) && err == NoError && numTotal == BigEndian(b[..2])
      ensures Track() == State(0, 0, 0, 0, 0, 0) && br.Pending() == BytesToBits(b[2..])
    {
      HeaderBound(b);
      br := new BStreamReader(b[2..]);
      numTotal := BigEndian(b[..2]);
      numRead := 0;
      t := 0;
      val := 0;
      leading := 0;
      trailing := 0;
      tDelta := 0;
      err := NoError;
    }

    /** The fast read that falls back to the slow one. */
    method NextBit() returns (bit: bool, ok: bool)
      requires br.Valid() && err == NoError
      modifies this`err, br
      ensures br.Valid()
      ensures ok <==> old(br.Pending()) != []
      ensures ok ==> err == NoError && old(br.Pending()) == [bit] + br.Pending()
      ensures !ok ==> err == EOF
    {
      var eof;
      bit, eof := br.ReadBitFast();
      if eof {
        bit, eof := br.ReadBit();
      }
      if eof {
        err := EOF;
      }
      ok := !eof;
    }

    method NextBits(nbits: nat) returns (v: UInt64, ok: bool)
      requires br.Valid() && err == NoError && 1 <= nbits <= 64
      modifies this`err, br
      ensures br.Valid() && v < Pow2(nbits)
      ensures nbits <= |old(br.Pending())| ==>
                ok && v == FromBits(old(br.Pending())[..nbits]) && br.Pending() == old(br.Pending())[nbits..]
      ensures err == if ok then NoError else EOF
    {
      var eof;
      v, eof := br.ReadBitsFast(nbits);
      if eof {
        v, eof := br.ReadBits(nbits);
      }
      if eof {
        err := EOF;
      }
      ok := !eof;
    }

    /** Advances by one sample. On a chunk cut short the reader may invent bits, see ReadBits. */
    method Next() returns (more: bool)
      requires Valid()
      modifies this, br
      ensures Valid() && br == old(br) && numTotal == old(numTotal)
      ensures more ==> err == NoError
      ensures numRead == old(numRead) + if more then 1 else 0
      ensures old(err != NoError || numRead == numTotal) ==>
                !more && unchanged(this) && br.Pending() == old(br.Pending())
      ensures !more && old(err == NoError && numRead < numTotal) ==> err != NoError
      ensures old(err == NoError && numRead < numTotal) ==>
                var p := SampleFrom(old(Track()), old(br.Pending()));
                p.Got? ==> more && Track() == p.value && br.Pending() == p.rest
    {
      hide FromBits, UvarintFrom, ValueFrom, DodFrom, PendingBits, UnZigZag, AddInt64, ToInt64, ToUInt64, Pow2, ToBits,
           BytesToBits;
      if err != NoError || numRead == numTotal {
        return false;
      }

      if numRead == 0 {
        var ux, e := ReadUvarint(br);
        if e != NoError {
          err := e;
          return false;
        }
        var v, eof := br.ReadBits(64);
        if eof {
          err := EOF;
          return false;
        }
        t := UnZigZag(ux);
        val := v;
        numRead := numRead + 1;
        return true;
      }

      if numRead == 1 {
        var d, e := ReadUvarint(br);
        if e != NoError {
          err := e;
          return false;
        }
        tDelta := d;
        t := AddInt64(t, ToInt64(tDelta));
        more := ReadValue();
        return;
      }

      var dod, ok := ReadDod();
      if !ok {
        return false;
      }
      tDelta := ToUInt64(ToInt64(tDelta) + dod);
      t := AddInt64(t, ToInt64(tDelta));
      more := ReadValue();
    }

    /**
     Moves to the first sample at or after t, counting from the current one. `k` is the number
     of samples skipped or taken; a current sample that already qualifies is kept.
     */
    method Seek(t: Int64, ghost xs: seq<Sample>) returns (found: bool, ghost k: nat)
      requires Valid() && (err == NoError ==> Ahead(xs))
      modifies this, br
      ensures br == old(br) && k <= |xs|
      ensures old(err) != NoError ==> !found && k == 0 && unchanged(this)
      ensures old(err) == NoError ==> Ahead(xs[k..])
      ensures old(err == NoError && numRead > 0 && this.t >= t) ==>
                found && k == 0 && unchanged(this) && br.Pending() == old(br.Pending())
      ensures old(err == NoError && (numRead == 0 || this.t < t)) ==>
                && (found <==> exists i :: 0 <= i < |xs| && xs[i].t >= t)
                && (found ==> k > 0 && Sample(this.t, val) == xs[k - 1] && xs[k - 1].t >= t)
                && (forall i :: 0 <= i < (if found then k - 1 else |xs|) ==> xs[i].t < t)
    {
      hide SampleFrom;
      k := 0;
      if err != NoError {
        return false, 0;
      }
      while t > this.t || numRead == 0
        invariant br == old(br) && k <= |xs| && Ahead(xs[k..])
        invariant k == 0 ==> unchanged(this) && br.Pending() == old(br.Pending())
        invariant k > 0 ==> numRead > 0 && Sample(this.t, val) == xs[k - 1]
        invariant k > 0 ==> old(numRead == 0 || this.t < t)
        invariant forall i :: 0 <= i < k - 1 ==> xs[i].t < t
        decreases |xs| - k
      {
        var more := Next();
        if !more {
          return false, k;
        }
        assert xs[k..][1..] == xs[k + 1..];
        k := k + 1;
      }
      return true, k;
    }

    /** Next's loop over the prefix of the delta of delta: up to four ones, closed by a zero. */
    method ReadPrefix() returns (d: Byte, ok: bool)
      requires br.Valid() && err == NoError
      modifies this`err, br
      ensures br.Valid() && (ok <==> err == NoError)
      ensures ok ==> d in {0x00, 0x02, 0x06, 0x0e, 0x0f}
      ensures var p := Ones(old(br.Pending()), 4);
              p.Got? ==> ok && d == PrefixByte(p.value) && br.Pending() == p.rest
    {
      ghost var p := Ones(br.Pending(), 4);
      d := 0;
      for i := 0 to 4
        invariant br.Valid() && err == NoError
        invariant d == OnesByte(i)
        invariant p.Got? ==> p.value >= i && Ones(br.Pending(), 4 - i) == Got(p.value - i, p.rest)
      {
        d := (2 * d) % 256;
        var bit;
        bit, ok := NextBit();
        if !ok {
          return 0, false;
        }
        if !bit {
          return d, true;
        }
        d := d + 1;
      }
      return d, true;
    }

    /** Next's reading of the delta of delta: the prefix, then 0, 14, 17, 20 or 64 bits. */
    method ReadDod() returns (dod: Int64, ok: bool)
      requires br.Valid() && err == NoError
      modifies this`err, br
      ensures br.Valid() && (ok <==> err == NoError)
      ensures var p := DodFrom(old(br.Pending()));
              p.Got? ==> ok && dod == p.value && br.Pending() == p.rest
    {
      hide FromBits, Ones, Shl;
      var d;
      d, ok := ReadPrefix();
      if !ok {
        return 0, false;
      }
      var sz := 0;
      dod := 0;
      match d {
        case 0x00 =>
        case 0x02 => sz := 14;
        case 0x06 => sz := 17;
        case 0x0e => sz := 20;
        case _ =>
          var bits, eof := br.ReadBits(64);
          if eof {
            err := EOF;
            return 0, false;
          }
          dod := ToInt64(bits);
      }
      if sz != 0 {
        var bits;
        bits, ok := NextBits(sz);
        if !ok {
          return 0, false;
        }
        if bits > Pow2(sz - 1) {
          bits := (bits - Pow2(sz)) % TWO64;
        }
        dod := ToInt64(bits);
      }
      ok := true;
    }

    method ReadValue() returns (more: bool)
      requires Valid() && err == NoError && numRead < numTotal
      modifies this`err, this`val, this`leading, this`trailing, this`numRead, br
      ensures Valid() && (more <==> err == NoError)
      ensures numRead == old(numRead) + if more then 1 else 0
      ensures var p := ValueFrom(old(br.Pending()), old(val), old(leading), old(trailing));
              p.Got? ==> more && val == p.value.v && leading == p.value.leading && trailing == p.value.trailing
                         && br.Pending() == p.rest
    {
      hide FromBits, ToBits, BytesToBits, PendingBits, WindowFrom, SigBits, BigEndian, Shl64;
      ghost var b := br.Pending();
      var bit, ok := NextBit();
      if !ok {
        return false;
      }
      if bit {
        assert b[1..] == br.Pending();
        bit, ok := NextBit();
        if !ok {
          return false;
        }
        assert b[2..] == br.Pending();
        if bit {
          ok := ReadWindow();
          if !ok {
            return false;
          }
          assert |b| >= 13 ==> b[2..][..5] == b[2..7] && b[2..][5..11] == b[7..13] && b[2..][11..] == b[13..];
        }
        ok := ReadSignificant();
        if !ok {
          return false;
        }
      }
      numRead := numRead + 1;
      return true;
    }

    /** readValue's reading of a new window. */
    method ReadWindow() returns (ok: bool)
      requires br.Valid() && err == NoError
      modifies this`err, this`leading, this`trailing, br
      ensures br.Valid() && (ok <==> err == NoError)
      ensures ok ==> 1 <= SigBits(leading, trailing) <= 64
      ensures var b := old(br.Pending());
              |b| >= 11 ==>
                var mbits := FromBits(b[5..11]);
                ok && br.Pending() == b[11..] && leading == FromBits(b[..5])
                && trailing == (64 - leading - (if mbits == 0 then 64 else mbits)) % 256
    {
      hide FromBits, Pow2, PendingBits;
      ghost var b := br.Pending();
      var bits;
      bits, ok := NextBits(5);
      if !ok {
        return;
      }
      leading := bits;
      bits, ok := NextBits(6);
      if !ok {
        return;
      }
      assert |b| >= 11 ==> b[5..][..6] == b[5..11] && b[5..][6..] == b[11..];
      Pow2Values();
      var mbits := bits;
      if mbits == 0 {
        mbits := 64;
      }
      trailing := (64 - leading - mbits) % 256;
    }

    /** readValue's reading of the significant bits of the difference. */
    method ReadSignificant() returns (ok: bool)
      requires br.Valid() && err == NoError && 1 <= SigBits(leading, trailing) <= 64
      modifies this`err, this`val, br
      ensures br.Valid() && (ok <==> err == NoError)
      ensures var p := WindowFrom(old(br.Pending()), old(val), leading, trailing);
              p.Got? ==> ok && val == p.value.v && p.value.leading == leading && p.value.trailing == trailing
                         && br.Pending() == p.rest
    {
      hide FromBits, Xor, Shl64;
      var mbits := (64 - leading - trailing) % 256;
      var bits;
      bits, ok := NextBits(mbits);
      if !ok {
        return;
      }
      Xor64(val, Shl64(bits, trailing));
      val := Xor(val, Shl64(bits, trailing));
    }
  }

  lemma HeaderBound(b: seq<Byte>)
    requires |b| >= 2
    ensures BigEndian(b[..2]) <= MAX_SAMPLES
  {
    BigEndianBits(b[..2]);
    Pow2Values();
  }

  // ---------------------------------------------------------------- chunk and appender

  const START: State := State(0, MIN_INT64, 0, 0, 0, 0)

  const HEADER_BITS: nat := 16

  /** The chunk data of b: a two-byte sample count, then the encoded samples. */
  ghost predicate ChunkData(b: BStream)
    reads b
  {
    b.Valid() && |b.stream| >= 2 && 8 * |b.stream| - b.count >= HEADER_BITS
  }

  ghost function Body(b: BStream): seq<bool>
    requires ChunkData(b)
    reads b
  {
    b.Contents()[HEADER_BITS..]
  }

  function Header(b: BStream): nat
    requires |b.stream| >= 2
    reads b
  {
    BigEndian(b.stream[..2])
  }

  class XorChunk {
    const b: BStream

    ghost predicate Valid()
      reads this, b
    {
      ChunkData(b)
    }

    /** NewXORChunk */
    constructor ()
      ensures Valid() && fresh(b) && Header(b) == 0 && Body(b) == []
    {
      b := new BStream([0, 0]);
      new;
      assert [0, 0][..2][..1] == [0] && [0][..0] == [];
    }

    /** chunkenc.FromData and pool.Get: the unused bits of the last byte are not known any more. */
    constructor FromData(data: seq<Byte>)
      requires |data| >= 2
      ensures Valid() && fresh(b) && b.stream == data && b.count == 0
    {
      b := new BStream(data);
    }

    function NumSamples(): nat
      requires |b.stream| >= 2
      reads this, b
    {
      Header(b)
    }

    /** An iterator over the chunk; one that is passed in is reset and used again. */
    method Iterator(reuse: XorIterator?) returns (it: XorIterator)
      requires Valid()
      modifies reuse
      ensures (if reuse == null then fresh(it) else it == reuse) && fresh(it.br)
      ensures it.Valid() && it.err == NoError && it.Track() == START.(t := if reuse == null then MIN_INT64 else 0)
      ensures it.numTotal == NumSamples()
      ensures exists tail :: it.br.Pending() == Body(b) + tail
      ensures var p := SamplesFrom(NumSamples(), START, Body(b)); p.Got? ==> it.Ahead(p.value.0)
    {
      hide SampleFrom;
      if reuse == null {
        it := new XorIterator(b.stream);
      } else {
        it := reuse;
        it.Reset(b.stream);
      }
      PendingIsBody(b);
      ghost var tail :| it.br.Pending() == Body(b) + tail;
      ghost var n := NumSamples();
      if SamplesFrom(n, START, Body(b)).Got? && n > 0 {
        SamplesExtend(n, START, Body(b), tail);
        StartIrrelevant(n, START, it.Track(), Body(b) + tail);
      }
    }

    /** A new appender takes over the state an iterator ends in. */
    method Appender() returns (a: XorAppender?)
      requires Valid()
      ensures var p := SamplesFrom(NumSamples(), START, Body(b));
              p.Got? ==> a != null && fresh(a) && a.b == b && Sync(a.Track(), p.value.1)
    {
      hide SampleFrom;
      var it := Iterator(null);
      ghost var n, p := NumSamples(), SamplesFrom(NumSamples(), START, Body(b));
      ghost var tail :| it.br.Pending() == Body(b) + tail;
      if p.Got? {
        SamplesExtend(n, START, Body(b), tail);
      }
      var more := true;
      while more
        invariant it.Valid() && fresh(it) && fresh(it.br) && it.numTotal == n
        invariant p.Got? ==>
                    it.err == NoError
                    && var q := SamplesFrom(n - it.numRead, it.Track(), it.br.Pending());
                       q.Got? && q.value.1 == p.value.1
        invariant !more ==> it.err != NoError || it.numRead == n
        decreases n - it.numRead, more
      {
        more := it.Next();
      }
      if it.err != NoError {
        return null;
      }
      a := new XorAppender(b, it.t, it.val, it.tDelta, it.leading, it.trailing);
      if Header(b) == 0 {
        a.leading := NO_WINDOW;
      }
    }
  }

  class XorAppender {
    const b: BStream

    var t: Int64
    var v: UInt64
    var tDelta: UInt64

    var leading: nat
    var trailing: nat

    constructor (b: BStream, t: Int64, v: UInt64, tDelta: UInt64, leading: nat, trailing: nat)
      ensures this.b == b && this.t == t && this.v == v && this.tDelta == tDelta
      ensures this.leading == leading && this.trailing == trailing
    {
      this.b, this.t, this.v, this.tDelta, this.leading, this.trailing := b, t, v, tDelta, leading, trailing;
    }

    ghost function Track(): State
      requires |b.stream| >= 2
      reads this, b
    {
      State(Header(b), t, v, tDelta, leading, trailing)
    }

    method WriteBytes(buf: seq<Byte>)
      requires b.Valid()
      modifies b
      ensures b.Valid() && b.Contents() == old(b.Contents()) + BytesToBits(buf)
    {
      hide ToBits, BytesToBits, Written, Padded;
      BytesToBitsConcat([], []);
      assert buf[..0] == [];
      for i := 0 to |buf|
        invariant b.Valid() && b.Contents() == old(b.Contents()) + BytesToBits(buf[..i])
      {
        b.WriteByte(buf[i]);
        assert buf[..i + 1] == buf[..i] + [buf[i]];
        BytesToBitsConcat(buf[..i], [buf[i]]);
        BytesToBitsSingle(buf[i]);
      }
      assert buf[..|buf|] == buf;
    }

    /** Append's choice of a range for the delta of delta. */
    method WriteDod(dod: Int64)
      requires b.Valid()
      modifies b
      ensures b.Valid() && b.Contents() == old(b.Contents()) + DodBits(dod)
    {
      hide ToBits, Written, BitRange, Padded, Shl, Low;
      if dod == 0 {
        b.WriteBit(false);
      } else if BitRange(dod, 14) {
        b.WriteBits(0x02, 2);
        b.WriteBits(ToUInt64(dod), 14);
      } else if BitRange(dod, 17) {
        b.WriteBits(0x06, 3);
        b.WriteBits(ToUInt64(dod), 17);
      } else if BitRange(dod, 20) {
        b.WriteBits(0x0e, 4);
        b.WriteBits(ToUInt64(dod), 20);
      } else {
        b.WriteBits(0x0f, 4);
        b.WriteBits(ToUInt64(dod), 64);
      }
    }

    method WriteVDelta(v: UInt64)
      requires ChunkData(b)
      modifies this`leading, this`trailing, b
      ensures b.Valid() && b.Contents() == old(b.Contents()) + ValueBits(old(Track()), v)
      ensures leading == AfterValue(old(Track()), v).leading && trailing == AfterValue(old(Track()), v).trailing
    {
      hide ToBits, Written, Padded, Xor, Shr, TrailingZeros, LeadingZeros, Window, ValueBits, AfterValue;
      XorCancels(v, this.v);
      Xor64(v, this.v);
      ValueBitsAre(Track(), v);
      var vDelta: UInt64 := Xor(v, this.v);
      if vDelta == 0 {
        b.WriteBit(false);
        return;
      }
      b.WriteBit(true);

      var lead, trail := LeadingZeros(vDelta), TrailingZeros(vDelta);
      ZerosTogether(vDelta);
      // Clamped so that it fits in five bits.
      if lead >= 32 {
        lead := 31;
      }
      ShrAtMost(vDelta, trailing);
      ShrAtMost(vDelta, trail);
      if leading != NO_WINDOW && lead >= leading && trail >= trailing {
        b.WriteBit(false);
        b.WriteBits(Shr(vDelta, trailing), 64 - leading - trailing);
      } else {
        leading, trailing := lead, trail;
        WriteWindow();
        WindowConcat(old(b.Contents()), ToBits(lead, 5), ToBits(64 - lead - trail, 6),
                     ToBits(Shr(vDelta, trail), 64 - lead - trail));
        b.WriteBits(Shr(vDelta, trail), 64 - lead - trail);
      }
    }

    /** writeVDelta's header of a new window; 64 significant bits are written as 0 in six bits. */
    method WriteWindow()
      requires b.Valid() && leading <= 31 && leading + trailing <= 63
      modifies b
      ensures b.Valid()
      ensures b.Contents() == old(b.Contents()) + ([true] + ToBits(leading, 5) + ToBits(64 - leading - trailing, 6))
    {
      hide ToBits, Written, Padded;
      b.WriteBit(true);
      b.WriteBits(leading, 5);
      var sigbits := 64 - leading - trailing;
      b.WriteBits(sigbits, 6);
    }

    /** binary.BigEndian.PutUint16 on the chunk's first two bytes. */
    method PutHeader(num: nat)
      requires ChunkData(b) && num <= MAX_SAMPLES
      modifies b
      ensures ChunkData(b) && Body(b) == old(Body(b)) && Header(b) == num
    {
      hide Padded, ToBigEndian, BigEndian, BytesToBits;
      PutHeaderBits(b.stream, b.count, num);
      b.stream := ToBigEndian(num, 2) + b.stream[2..];
    }

    /** The three cases of Append: time and value, by how many samples there are. */
    method WriteSample(t: Int64, v: UInt64, num: nat) returns (tDelta: UInt64)
      requires ChunkData(b) && num == Header(b)
      modifies this`leading, this`trailing, b
      ensures ChunkData(b) && b.Contents() == old(b.Contents()) + SampleBits(old(Track()), Sample(t, v))
      ensures tDelta == if num == 0 then 0 else ToUInt64(t - this.t)
      ensures num == 0 ==> leading == old(leading) && trailing == old(trailing)
      ensures num > 0 ==> leading == AfterValue(old(Track()), v).leading
      ensures num > 0 ==> trailing == AfterValue(old(Track()), v).trailing
    {
      hide BytesToBits, ToBits, Written, Padded, Low, UvarintBytes, ZigZag, DodBits, ValueBits, BigEndian, AfterValue,
           ToInt64, ToUInt64;
      tDelta := 0;
      if num == 0 {
        WriteBytes(UvarintBytes(ZigZag(t)));
        b.WriteBits(v, 64);
      } else {
        tDelta := ToUInt64(t - this.t);
        WriteTime(tDelta, num);
        WriteVDelta(v);
      }
    }

    /** The time of a sample after the first: its delta, or its delta of delta. */
    method WriteTime(tDelta: UInt64, num: nat)
      requires ChunkData(b) && num == Header(b) >= 1
      modifies b
      ensures ChunkData(b) && Track() == old(Track())
      ensures b.Contents() == old(b.Contents()) + if num == 1 then BytesToBits(UvarintBytes(tDelta))
                                                  else DodBits(ToInt64((tDelta - this.tDelta) % TWO64))
    {
      hide BytesToBits, ToBits, Written, Padded, UvarintBytes, DodBits, BigEndian, ToInt64;
      ghost var start := b.Contents();
      HeaderIsPrefix(b);
      if num == 1 {
        WriteBytes(UvarintBytes(tDelta));
      } else {
        WriteDod(ToInt64((tDelta - this.tDelta) % TWO64));
      }
      HeaderKept(b, start);
    }

    /** Appends the bits of one sample and counts it in the header, a uint16. */
    method Append(t: Int64, v: UInt64)
      requires ChunkData(b)
      modifies this, b
      ensures ChunkData(b)
      ensures Body(b) == old(Body(b)) + SampleBits(old(Track()), Sample(t, v))
      ensures Header(b) == (old(Header(b)) + 1) % (MAX_SAMPLES + 1)
      ensures Track() == AfterSample(old(Track()), Sample(t, v)).(num := Header(b))
    {
      hide SampleBits, Xor, Window, BigEndian, ToInt64, ToUInt64, Written, Padded, FromBits;
      ghost var start := b.Contents();
      HeaderIsPrefix(b);
      var num := PresentCount();
      var tDelta := WriteSample(t, v, num);
      HeaderKept(b, start);
      this.t := t;
      this.v := v;
      PutHeader((num + 1) % (MAX_SAMPLES + 1));
      this.tDelta := tDelta;
    }

    /** binary.BigEndian.Uint16 of the chunk's first two bytes. */
    method PresentCount() returns (num: nat)
      requires ChunkData(b)
      ensures num == Header(b) <= MAX_SAMPLES
    {
      num := BigEndian(b.stream[..2]);
      HeaderBound(b.stream);
    }
  }

  lemma WindowConcat(c: seq<bool>, l: seq<bool>, s: seq<bool>, bits: seq<bool>)
    ensures c + [true] + ([true] + l + s) + bits == c + ([true, true] + l + s + bits)
  {
  }

  lemma ShrAtMost(x: UInt64, n: nat)
    ensures Shr(x, n) < TWO64
  {
  }

  lemma PendingIsBody(b: BStream)
    requires ChunkData(b)
    ensures exists tail :: BytesToBits(b.stream[2..]) == Body(b) + tail
  {
    var bits, n := BytesToBits(b.stream), 8 * |b.stream| - b.count;
    BytesToBitsSplit(b.stream, 2);
    assert BytesToBits(b.stream[2..]) == Body(b) + bits[n..];
  }

  /** The sample count is held by the first bits of the stream, so appending bits keeps it. */
  lemma HeaderIsPrefix(b: BStream)
    requires ChunkData(b)
    ensures Header(b) == FromBits(b.Contents()[..HEADER_BITS])
  {
    BytesToBitsSplit(b.stream, 2);
    BigEndianBits(b.stream[..2]);
    FromToBits(Header(b), 16);
    LowSmall(Header(b), 16);
    assert b.Contents()[..HEADER_BITS] == BytesToBits(b.stream[..2]);
  }

  lemma HeaderKept(b: BStream, start: seq<bool>)
    requires ChunkData(b) && |start| >= HEADER_BITS && start <= b.Contents()
    ensures Header(b) == FromBits(start[..HEADER_BITS])
    ensures Body(b) == start[HEADER_BITS..] + b.Contents()[|start|..]
  {
    HeaderIsPrefix(b);
    assert b.Contents()[..HEADER_BITS] == start[..HEADER_BITS];
    assert b.Contents() == start + b.Contents()[|start|..];
  }

  lemma PutHeaderBits(stream: seq<Byte>, count: nat, num: nat)
    requires Padded(stream, count) && |stream| >= 2 && 8 * |stream| - count >= HEADER_BITS && num <= MAX_SAMPLES
    ensures var stream' := ToBigEndian(num, 2) + stream[2..];
            && Padded(stream', count)
            && Written(stream', count)[HEADER_BITS..] == Written(stream, count)[HEADER_BITS..]
            && BigEndian(stream'[..2]) == num
  {
    var h := ToBigEndian(num, 2);
    var stream' := h + stream[2..];
    assert stream'[..2] == h && stream'[2..] == stream[2..];
    Pow2Values();
    BigEndianRoundTrip(num, 2);
    BytesToBitsSplit(stream, 2);
    BytesToBitsSplit(stream', 2);
    if |stream| > 2 {
      assert stream'[|stream| - 1] == stream[|stream| - 1];
    } else {
      assert Low(stream'[1], 0) == 0;
    }
    var n := 8 * |stream| - count;
    assert Written(stream', count)[HEADER_BITS..] == BytesToBits(stream')[16..][..n - 16];
    assert Written(stream, count)[HEADER_BITS..] == BytesToBits(stream)[16..][..n - 16];
  }
}
