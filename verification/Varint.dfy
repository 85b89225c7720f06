/**
 Go's unsigned varints (encoding/binary): base 128, lowest group first, the high bit set on all bytes but the last.
 */
module Varint {
  import opened Bits

  function UvarintBytes(x: nat): (s: seq<Byte>)
    ensures |s| >= 1
  {
    if x < 128 then [x] else [x % 128 + 128] + UvarintBytes(x / 128)
  }

  /**
   binary.Uvarint: the number at the start of a slice and the bytes it takes, or 0 bytes if the slice ends too early.
   */
  function Uvarint(b: seq<Byte>): (r: (nat, nat))
    ensures r.1 <= |b|
  {
    if b == [] then (0, 0)
    else if b[0] < 128 then (b[0], 1)
    else
      var (x, n) := Uvarint(b[1..]);
      if n == 0 then (0, 0) else (b[0] - 128 + 128 * x, n + 1)
  }

  lemma {:induction false} UvarintReads(x: nat, rest: seq<Byte>)
    ensures Uvarint(UvarintBytes(x) + rest) == (x, |UvarintBytes(x)|)
  {
    var b := UvarintBytes(x) + rest;
    if x >= 128 {
      UvarintReads(x / 128, rest);
      assert b[1..] == UvarintBytes(x / 128) + rest;
    }
  }

  /** Fewer bytes than the slice holds can be cut off without changing what is read. */
  lemma {:induction false} UvarintPrefix(b: seq<Byte>, n: nat)
    requires Uvarint(b).1 <= n <= |b| && Uvarint(b).1 > 0
    ensures Uvarint(b[..n]) == Uvarint(b)
  {
    if b[0] >= 128 {
      UvarintPrefix(b[1..], n - 1);
      assert b[..n][1..] == b[1..][..n - 1];
    }
  }

  /** What follows a whole number does not matter. */
  lemma {:induction false} UvarintWhole(b: seq<Byte>, rest: seq<Byte>)
    requires Uvarint(b).1 == |b| > 0
    ensures Uvarint(b + rest) == Uvarint(b)
  {
    if b[0] >= 128 {
      UvarintWhole(b[1..], rest);
      assert (b + rest)[1..] == b[1..] + rest;
    }
  }

  /** A number below 2^35 takes at most five bytes. */
  lemma UvarintSize(x: nat)
    requires x < 0x8_0000_0000
    ensures |UvarintBytes(x)| <= 5
  {
    assert x >= 128 ==> |UvarintBytes(x)| == 1 + |UvarintBytes(x / 128)|;
    var y := x / 128;
    assert y >= 128 ==> |UvarintBytes(y)| == 1 + |UvarintBytes(y / 128)|;
    var z := y / 128;
    assert z >= 128 ==> |UvarintBytes(z)| == 1 + |UvarintBytes(z / 128)|;
    var u := z / 128;
    assert u >= 128 ==> |UvarintBytes(u)| == 1 + |UvarintBytes(u / 128)|;
  }
}
