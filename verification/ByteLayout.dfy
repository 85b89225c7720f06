/**
 The byte layouts of pkg/utils/binutil/bytes.go, and packed booleans. The parsers and encoders are
 those of the source; WordsValue is what a layout means in terms of 16-bit words.
 */
module ByteLayout {
  import opened Bits

  type Word = n: nat | n < 0x1_0000

  datatype MemoryLayout = DCBA | CDAB | BADC | ABCD

  // ---------------------------------------------------------------- parsers

  function Bytes2(a: nat, b: nat): (r: nat)
    ensures a < 0x100 && b < 0x100 ==> r < 0x1_0000
  {
    a * 0x100 + b
  }

  function ParseUint16BigEndian(b: seq<Byte>): Word
    requires |b| >= 2
  {
    Bytes2(b[0], b[1])
  }

  function ParseUint16LittleEndian(b: seq<Byte>): Word
    requires |b| >= 2
  {
    Bytes2(b[1], b[0])
  }

  function Bytes4(a: Byte, b: Byte, c: Byte, d: Byte): (r: nat)
    ensures r < 0x1_0000_0000
  {
    a * 0x100_0000 + b * 0x1_0000 + c * 0x100 + d
  }

  function ParseUint32BigEndian(b: seq<Byte>): nat
    requires |b| >= 4
  {
    Bytes4(b[0], b[1], b[2], b[3])
  }

  function ParseUint32BigEndianByteSwap(b: seq<Byte>): nat
    requires |b| >= 4
  {
    Bytes4(b[1], b[0], b[3], b[2])
  }

  function ParseUint32LittleEndian(b: seq<Byte>): nat
    requires |b| >= 4
  {
    Bytes4(b[3], b[2], b[1], b[0])
  }

  function ParseUint32LittleEndianByteSwap(b: seq<Byte>): nat
    requires |b| >= 4
  {
    Bytes4(b[2], b[3], b[0], b[1])
  }

  function Bytes8(high: nat, low: nat): nat {
    high * 0x1_0000_0000 + low
  }

  function ParseUint64BigEndian(b: seq<Byte>): nat
    requires |b| >= 8
  {
    Bytes8(Bytes4(b[0], b[1], b[2], b[3]), Bytes4(b[4], b[5], b[6], b[7]))
  }

  function ParseUint64BigEndianByteSwap(b: seq<Byte>): nat
    requires |b| >= 8
  {
    Bytes8(Bytes4(b[1], b[0], b[3], b[2]), Bytes4(b[5], b[4], b[7], b[6]))
  }

  function ParseUint64LittleEndian(b: seq<Byte>): nat
    requires |b| >= 8
  {
    Bytes8(Bytes4(b[7], b[6], b[5], b[4]), Bytes4(b[3], b[2], b[1], b[0]))
  }

  function ParseUint64LittleEndianByteSwap(b: seq<Byte>): nat
    requires |b| >= 8
  {
    Bytes8(Bytes4(b[6], b[7], b[4], b[5]), Bytes4(b[2], b[3], b[0], b[1]))
  }

  /** The parser ParseVariableValue picks for a value of n words. */
  function ParseWords(layout: MemoryLayout, n: nat, b: seq<Byte>): nat
    requires n in {1, 2, 4} && |b| >= 2 * n
  {
    if n == 1 then
      if layout == ABCD || layout == CDAB then ParseUint16BigEndian(b) else ParseUint16LittleEndian(b)
    else if n == 2 then
      match layout
      case ABCD => ParseUint32BigEndian(b)
      case BADC => ParseUint32BigEndianByteSwap(b)
      case CDAB => ParseUint32LittleEndianByteSwap(b)
      case DCBA => ParseUint32LittleEndian(b)
    else
      match layout
      case ABCD => ParseUint64BigEndian(b)
      case BADC => ParseUint64BigEndianByteSwap(b)
      case CDAB => ParseUint64LittleEndianByteSwap(b)
      case DCBA => ParseUint64LittleEndian(b)
  }

  // ---------------------------------------------------------------- encoders

  /** byte(x >> 8k): the k-th byte of x, the lowest one first. */
  function ByteOf(x: nat, k: nat): Byte
    decreases k
  {
    if k == 0 then x % 0x100 else ByteOf(x / 0x100, k - 1)
  }

  function Uint16ToBytesBigEndian(x: nat): seq<Byte> {
    [ByteOf(x, 1), ByteOf(x, 0)]
  }

  function Uint16ToBytesLittleEndian(x: nat): seq<Byte> {
    [ByteOf(x, 0), ByteOf(x, 1)]
  }

  function Uint32ToBytesBigEndian(x: nat): seq<Byte> {
    [ByteOf(x, 3), ByteOf(x, 2), ByteOf(x, 1), ByteOf(x, 0)]
  }

  function Uint32ToBytesBigEndianByteSwap(x: nat): seq<Byte> {
    [ByteOf(x, 2), ByteOf(x, 3), ByteOf(x, 0), ByteOf(x, 1)]
  }

  function Uint32ToBytesLittleEndian(x: nat): seq<Byte> {
    [ByteOf(x, 0), ByteOf(x, 1), ByteOf(x, 2), ByteOf(x, 3)]
  }

  function Uint32ToBytesLittleEndianByteSwap(x: nat): seq<Byte> {
    [ByteOf(x, 1), ByteOf(x, 0), ByteOf(x, 3), ByteOf(x, 2)]
  }

  function Uint64ToBytesBigEndian(x: nat): seq<Byte> {
    [ByteOf(x, 7), ByteOf(x, 6), ByteOf(x, 5), ByteOf(x, 4)] + [ByteOf(x, 3), ByteOf(x, 2), ByteOf(x, 1), ByteOf(x, 0)]
  }

  function Uint64ToBytesBigEndianByteSwap(x: nat): seq<Byte> {
    [ByteOf(x, 6), ByteOf(x, 7), ByteOf(x, 4), ByteOf(x, 5)] + [ByteOf(x, 2), ByteOf(x, 3), ByteOf(x, 0), ByteOf(x, 1)]
  }

  function Uint64ToBytesLittleEndian(x: nat): seq<Byte> {
    [ByteOf(x, 0), ByteOf(x, 1), ByteOf(x, 2), ByteOf(x, 3)] + [ByteOf(x, 4), ByteOf(x, 5), ByteOf(x, 6), ByteOf(x, 7)]
  }

  function Uint64ToBytesLittleEndianByteSwap(x: nat): seq<Byte> {
    [ByteOf(x, 1), ByteOf(x, 0), ByteOf(x, 3), ByteOf(x, 2)] + [ByteOf(x, 5), ByteOf(x, 4), ByteOf(x, 7), ByteOf(x, 6)]
  }

  /** The encoder generateActionBytes picks for a value of n words. */
  function EncodeWords(layout: MemoryLayout, n: nat, x: nat): (b: seq<Byte>)
    requires n in {1, 2, 4}
    ensures |b| == 2 * n
  {
    if n == 1 then
      if layout == ABCD || layout == CDAB then Uint16ToBytesBigEndian(x) else Uint16ToBytesLittleEndian(x)
    else if n == 2 then
      match layout
      case ABCD => Uint32ToBytesBigEndian(x)
      case BADC => Uint32ToBytesBigEndianByteSwap(x)
      case CDAB => Uint32ToBytesLittleEndianByteSwap(x)
      case DCBA => Uint32ToBytesLittleEndian(x)
    else
      match layout
      case ABCD => Uint64ToBytesBigEndian(x)
      case BADC => Uint64ToBytesBigEndianByteSwap(x)
      case CDAB => Uint64ToBytesLittleEndianByteSwap(x)
      case DCBA => Uint64ToBytesLittleEndian(x)
  }

  function Above4(x: nat): nat {
    x / 0x100 / 0x100 / 0x100 / 0x100
  }

  /** The low four bytes of x, and what is left above them. */
  lemma LowBytes(x: nat)
    ensures x == 0x1_0000_0000 * Above4(x) + Bytes4(ByteOf(x, 3), ByteOf(x, 2), ByteOf(x, 1), ByteOf(x, 0))
    ensures forall k: nat | k < 4 :: ByteOf(x, k + 4) == ByteOf(Above4(x), k)
  {
    var q1 := x / 0x100;
    var q2 := q1 / 0x100;
    var q3 := q2 / 0x100;
    assert ByteOf(x, 1) == ByteOf(q1, 0) && ByteOf(x, 2) == ByteOf(q2, 0) && ByteOf(x, 3) == ByteOf(q3, 0);
    forall k: nat | k < 4 ensures ByteOf(x, k + 4) == ByteOf(Above4(x), k) {
      assert ByteOf(x, k + 4) == ByteOf(q1, k + 3) == ByteOf(q2, k + 2) == ByteOf(q3, k + 1);
    }
  }

  lemma ShortRoundTrip(x: nat)
    requires x < 0x1_0000
    ensures x == Bytes2(ByteOf(x, 1), ByteOf(x, 0))
  {
  }

  /** Encoding and parsing in the same layout give the value back, at every width. */
  lemma WordsRoundTrip(layout: MemoryLayout, n: nat, x: nat)
    requires n in {1, 2, 4} && (n == 1 ==> x < 0x1_0000) && (n == 2 ==> x < 0x1_0000_0000) && x < TWO64
    ensures ParseWords(layout, n, EncodeWords(layout, n, x)) == x
  {
    hide ByteOf, Bytes2, Bytes4, Above4;
    if n == 1 {
      ShortRoundTrip(x);
    }
    LowBytes(x);
    if n == 4 {
      LowBytes(Above4(x));
      assert Above4(x) < 0x1_0000_0000 && Above4(Above4(x)) == 0;
      assert ByteOf(x, 4) == ByteOf(Above4(x), 0) && ByteOf(x, 5) == ByteOf(Above4(x), 1);
      assert ByteOf(x, 6) == ByteOf(Above4(x), 2) && ByteOf(x, 7) == ByteOf(Above4(x), 3);
    }
  }

  // ---------------------------------------------------------------- what a layout means

  function SwapBytes(w: Word): Word {
    (w % 0x100) * 0x100 + w / 0x100
  }

  predicate BytesSwapped(layout: MemoryLayout) {
    layout == BADC || layout == DCBA
  }

  predicate WordsReversed(layout: MemoryLayout) {
    layout == CDAB || layout == DCBA
  }

  function WordIn(layout: MemoryLayout, w: Word): Word {
    if BytesSwapped(layout) then SwapBytes(w) else w
  }

  /** The number held by consecutive words: in word order or against it, with or without their bytes swapped. */
  function WordsValue(layout: MemoryLayout, ws: seq<Word>): nat
    decreases |ws|
  {
    if ws == [] then 0
    else if WordsReversed(layout) then 0x1_0000 * WordsValue(layout, ws[1..]) + WordIn(layout, ws[0])
    else 0x1_0000 * WordsValue(layout, ws[..|ws| - 1]) + WordIn(layout, ws[|ws| - 1])
  }

  lemma WordsValue2(layout: MemoryLayout, a: Word, b: Word)
    ensures WordsValue(layout, [a]) == WordIn(layout, a)
    ensures WordsValue(layout, [a, b]) ==
            if WordsReversed(layout) then 0x1_0000 * WordIn(layout, b) + WordIn(layout, a)
            else 0x1_0000 * WordIn(layout, a) + WordIn(layout, b)
  {
    assert [a, b][1..] == [b] && [a, b][..1] == [a];
    assert [a][1..] == [] && [a][..0] == [] && [b][1..] == [] && [b][..0] == [];
  }

  lemma WordsValue4(layout: MemoryLayout, a: Word, b: Word, c: Word, d: Word)
    ensures WordsValue(layout, [a, b, c, d]) ==
            if WordsReversed(layout) then 0x1_0000_0000 * WordsValue(layout, [c, d]) + WordsValue(layout, [a, b])
            else 0x1_0000_0000 * WordsValue(layout, [a, b]) + WordsValue(layout, [c, d])
  {
    var ws := [a, b, c, d];
    WordsValue2(layout, a, b);
    WordsValue2(layout, c, d);
    if WordsReversed(layout) {
      assert ws[1..] == [b, c, d] && [b, c, d][1..] == [c, d];
    } else {
      assert ws[..3] == [a, b, c] && [a, b, c][..2] == [a, b];
    }
  }

  function WordsBound(n: nat): nat {
    if n == 0 then 1 else 0x1_0000 * WordsBound(n - 1)
  }

  /** A number of n words is 0 only if all of them are. */
  lemma {:induction false} WordsValueRange(layout: MemoryLayout, ws: seq<Word>)
    ensures WordsValue(layout, ws) < WordsBound(|ws|)
    ensures WordsValue(layout, ws) == 0 <==> forall w | w in ws :: w == 0
    decreases |ws|
  {
    if ws != [] {
      assert forall x :: x in ws <==> x == ws[0] || x in ws[1..];
      assert forall x :: x in ws <==> x == ws[|ws| - 1] || x in ws[..|ws| - 1];
      var w, rest := if WordsReversed(layout) then ws[0] else ws[|ws| - 1],
                     if WordsReversed(layout) then ws[1..] else ws[..|ws| - 1];
      WordsValueRange(layout, rest);
      assert WordIn(layout, w) == 0 <==> w == 0;
      assert WordsValue(layout, ws) == 0x1_0000 * WordsValue(layout, rest) + WordIn(layout, w);
      assert WordsBound(|ws|) == 0x1_0000 * WordsBound(|rest|);
      assert w in ws && (forall x | x in ws :: x == w || x in rest) && forall x | x in rest :: x in ws;
      if WordsValue(layout, ws) == 0 {
        assert w == 0 && WordsValue(layout, rest) == 0;
      } else if w == 0 {
        assert WordsValue(layout, rest) != 0;
        var x :| x in rest && x != 0;
        assert x in ws;
      }
    }
  }

  function HighByte(w: Word): Byte {
    w / 0x100
  }

  function LowByte(w: Word): Byte {
    w % 0x100
  }

  /** Registers as they travel, each word high byte first. */
  function WordBytes(ws: seq<Word>): (b: seq<Byte>)
    ensures |b| == 2 * |ws|
  {
    if ws == [] then [] else [HighByte(ws[0]), LowByte(ws[0])] + WordBytes(ws[1..])
  }

  lemma {:induction false} WordBytesAt(ws: seq<Word>, i: nat)
    requires i < |ws|
    ensures WordBytes(ws)[2 * i] == HighByte(ws[i]) && WordBytes(ws)[2 * i + 1] == LowByte(ws[i])
  {
    var head: seq<Byte>, tail := [HighByte(ws[0]), LowByte(ws[0])], WordBytes(ws[1..]);
    assert WordBytes(ws) == head + tail;
    hide WordBytes, HighByte, LowByte;
    if i > 0 {
      WordBytesAt(ws[1..], i - 1);
      assert (head + tail)[2 * i] == tail[2 * (i - 1)] && (head + tail)[2 * i + 1] == tail[2 * (i - 1) + 1];
    }
  }

  /** Each of the twelve parsers reads the words as its layout says. */
  lemma ParseIsWordsValue(layout: MemoryLayout, ws: seq<Word>, b: seq<Byte>)
    requires |ws| in {1, 2, 4} && |b| >= 2 * |ws| && b[..2 * |ws|] == WordBytes(ws)
    ensures ParseWords(layout, |ws|, b) == WordsValue(layout, ws)
  {
    hide WordBytes, WordsValue;
    var n := |ws|;
    forall i | 0 <= i < n
      ensures b[2 * i] == HighByte(ws[i]) && b[2 * i + 1] == LowByte(ws[i])
    {
      WordBytesAt(ws, i);
      assert b[2 * i] == b[..2 * n][2 * i] && b[2 * i + 1] == b[..2 * n][2 * i + 1];
    }
    if n == 1 {
      Parse1(layout, ws[0], b);
      assert ws == [ws[0]];
    } else if n == 2 {
      Parse2(layout, ws[0], ws[1], b);
      assert ws == [ws[0], ws[1]];
    } else {
      Parse2(layout, ws[0], ws[1], b);
      Parse2(layout, ws[2], ws[3], b[4..]);
      assert ws == [ws[0], ws[1], ws[2], ws[3]];
      WordsValue4(layout, ws[0], ws[1], ws[2], ws[3]);
    }
  }

  lemma Parse1(layout: MemoryLayout, w: Word, b: seq<Byte>)
    requires |b| >= 2 && b[0] == HighByte(w) && b[1] == LowByte(w)
    ensures ParseWords(layout, 1, b) == WordsValue(layout, [w])
  {
    WordsValue2(layout, w, w);
  }

  lemma Parse2(layout: MemoryLayout, v: Word, w: Word, b: seq<Byte>)
    requires |b| >= 4 && b[0] == HighByte(v) && b[1] == LowByte(v) && b[2] == HighByte(w) && b[3] == LowByte(w)
    ensures ParseWords(layout, 2, b) == WordsValue(layout, [v, w])
  {
    WordsValue2(layout, v, w);
  }
}
