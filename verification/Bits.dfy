/**
 Fixed-width machine arithmetic on natural numbers, and its view as bit lists.

 A uint64 is a nat below 2^64 and a byte a nat below 256. Go's operators are
 written out: `x >> n` is Shr, `x << n` on unbounded numbers is Shl (Shl64 and Shl8
 truncate to the word), `|` is Or, `^` is Xor and the mask `x & (1<<n - 1)` is Low.
 They recurse on the shift amount, which keeps every proof below linear.
 Bit lists are most significant bit first.
 */
module Bits {
  const TWO64: int := 0x1_0000_0000_0000_0000
  const TWO63: int := 0x8000_0000_0000_0000

  type Byte = n: nat | n < 256
  type UInt64 = n: nat | n < TWO64
  type Int64 = n: int | -TWO63 <= n < TWO63

  // ---------------------------------------------------------------- operators

  function Shl(x: nat, n: nat): (r: nat)
    ensures r >= x
  {
    if n == 0 then x else 2 * Shl(x, n - 1)
  }

  function Shr(x: nat, n: nat): (r: nat)
    ensures r <= x
  {
    if n == 0 then x else Shr(x / 2, n - 1)
  }

  /** The n low bits of x as a number: `x & (1<<n - 1)`. */
  function Low(x: nat, n: nat): (r: nat)
    ensures r < Pow2(n)
  {
    if n == 0 then 0 else 2 * Low(x / 2, n - 1) + x % 2
  }

  function Pow2(n: nat): (p: nat)
    ensures p >= 1
  {
    Shl(1, n)
  }

  function Shl64(x: nat, n: nat): UInt64
  {
    Shl(x, n) % TWO64
  }

  function Shl8(x: nat, n: nat): Byte
  {
    Shl(x, n) % 256
  }

  function Or(x: nat, y: nat): nat
    decreases x + y
  {
    if x == 0 then y
    else if y == 0 then x
    else 2 * Or(x / 2, y / 2) + (if x % 2 == 1 || y % 2 == 1 then 1 else 0)
  }

  function Xor(x: nat, y: nat): nat
    decreases x + y
  {
    if x == 0 then y
    else if y == 0 then x
    else 2 * Xor(x / 2, y / 2) + (if x % 2 != y % 2 then 1 else 0)
  }

  /** `x & (1 << k) != 0` */
  function TestBit(x: nat, k: nat): bool {
    Shr(x, k) % 2 == 1
  }

  // ---------------------------------------------------------------- int64 and uint64

  /** Go's conversion of an int64 (or of any intermediate integer) to uint64. */
  function ToUInt64(x: int): (u: UInt64)
    ensures -TWO63 <= x < TWO63 ==> ToInt64(u) == x
  {
    x % TWO64
  }

  /** Go's conversion of a uint64 to int64: two's complement. */
  function ToInt64(u: UInt64): Int64
  {
    if u < TWO63 then u else u - TWO64
  }

  /** int64 addition, which wraps around. */
  function AddInt64(x: Int64, y: Int64): Int64
  {
    ToInt64(ToUInt64(x + y))
  }

  // ---------------------------------------------------------------- powers of two

  lemma ShlByte(x: nat)
    ensures Shl(x, 1) == 2 * x && Shl(x, 4) == 16 * x && Shl(x, 5) == 32 * x && Shl(x, 6) == 64 * x
    ensures Shl(x, 7) == 128 * x && Shl(x, 8) == 256 * x
  {
    assert Shl(x, 1) == 2 * x;
    assert Shl(x, 3) == 8 * x;
    assert Shl(x, 5) == 32 * x;
  }

  lemma ShlBytes(x: nat)
    ensures Shl(x, 16) == 0x1_0000 * x && Shl(x, 32) == 0x1_0000_0000 * x && Shl(x, 64) == TWO64 * x
  {
    ShlByte(x);
    ShlByte(Shl(x, 8));
    ShlShl(x, 8, 8);
    ShlByte(Shl(x, 16));
    ShlShl(x, 16, 8);
    ShlByte(Shl(x, 24));
    ShlShl(x, 24, 8);
    ShlByte(Shl(x, 32));
    ShlShl(x, 32, 8);
    ShlByte(Shl(x, 40));
    ShlShl(x, 40, 8);
    ShlByte(Shl(x, 48));
    ShlShl(x, 48, 8);
    ShlByte(Shl(x, 56));
    ShlShl(x, 56, 8);
  }

  lemma Pow2Values()
    ensures Pow2(0) == 1 && Pow2(1) == 2 && Pow2(4) == 16 && Pow2(5) == 32 && Pow2(6) == 64 && Pow2(7) == 128
    ensures Pow2(8) == 256 && Pow2(16) == 0x1_0000 && Pow2(32) == 0x1_0000_0000
    ensures Pow2(63) == TWO63 && Pow2(64) == TWO64
  {
    ShlByte(1);
    ShlBytes(1);
  }

  lemma Pow2Monotonic(m: nat, n: nat)
    requires m <= n
    ensures Pow2(m) <= Pow2(n)
  {
    if m < n {
      Pow2Monotonic(m, n - 1);
    }
  }

  lemma {:induction false} LowIsMod(x: nat, n: nat)
    ensures Low(x, n) == x % Pow2(n)
  {
    if n == 0 {
    } else {
      LowIsMod(x / 2, n - 1);
      Halve(x, Pow2(n - 1));
    }
  }

  lemma Low64(x: nat)
    ensures Low(x, 64) == x % TWO64
  {
    LowIsMod(x, 64);
    Pow2Values();
  }

  lemma Low8(x: nat)
    ensures Low(x, 8) == x % 256
  {
    LowIsMod(x, 8);
    Pow2Values();
  }

  lemma MulDistributes(a: int, b: int, m: int)
    ensures (a - b) * m == a * m - b * m
    ensures (a + b) * m == a * m + b * m
  {
  }

  lemma MulAtLeast(a: int, m: nat)
    requires a >= 1
    ensures a * m >= m
  {
    MulDistributes(a - 1, -1, m);
    assert (a - 1) * m >= 0;
  }

  /** The quotient and the remainder of a division are determined by x == q * m + r. */
  lemma DivModUnique(q: nat, r: nat, m: nat)
    requires r < m
    ensures (q * m + r) / m == q
    ensures (q * m + r) % m == r
  {
    var x := q * m + r;
    var q', r' := x / m, x % m;
    assert 0 <= r' < m;
    MulDistributes(q', q, m);
    if q' > q {
      MulAtLeast(q' - q, m);
    } else if q' < q {
      MulDistributes(q, q', m);
      MulAtLeast(q - q', m);
    }
  }

  /** The remainder by 2p is found by halving and dividing by p. */
  lemma Halve(x: nat, p: nat)
    requires p >= 1
    ensures x % (2 * p) == 2 * ((x / 2) % p) + x % 2
  {
    var q, r := (x / 2) / p, (x / 2) % p;
    assert x == 2 * (q * p + r) + x % 2;
    assert 2 * (q * p) == q * (2 * p);
    DivModUnique(q, 2 * r + x % 2, 2 * p);
  }

  // ---------------------------------------------------------------- shifts

  lemma {:induction false} ShrLow(x: nat, n: nat)
    ensures x == Shl(Shr(x, n), n) + Low(x, n)
  {
    if n == 0 {
    } else {
      ShrLow(x / 2, n - 1);
    }
  }

  /** A number written as hi·2^n + lo splits back into hi and lo. */
  lemma {:induction false} ShlSplit(hi: nat, lo: nat, n: nat)
    requires lo < Pow2(n)
    ensures Shr(Shl(hi, n) + lo, n) == hi
    ensures Low(Shl(hi, n) + lo, n) == lo
  {
    if n == 0 {
    } else {
      assert (Shl(hi, n) + lo) / 2 == Shl(hi, n - 1) + lo / 2;
      ShlSplit(hi, lo / 2, n - 1);
    }
  }

  lemma ShlShl(x: nat, m: nat, n: nat)
    ensures Shl(Shl(x, m), n) == Shl(x, m + n)
  {
  }

  lemma ShlDouble(x: nat, n: nat)
    ensures Shl(2 * x, n) == Shl(x, n + 1)
  {
  }

  lemma ShlAdd(x: nat, y: nat, n: nat)
    ensures Shl(x + y, n) == Shl(x, n) + Shl(y, n)
  {
    if n > 0 {
      ShlAdd(x, y, n - 1);
    }
  }

  lemma LowSmall(x: nat, n: nat)
    requires x < Pow2(n)
    ensures Low(x, n) == x && Shr(x, n) == 0
  {
    ShlSplit(0, x, n);
    ShlZero(n);
  }

  /** Shifting left and cutting to m + n bits keeps the m low bits only. */
  lemma {:induction false} ShlLow(x: nat, m: nat, n: nat)
    ensures Low(Shl(x, n), m + n) == Shl(Low(x, m), n)
  {
    if n == 0 {
    } else {
      ShlLow(x, m, n - 1);
    }
  }

  lemma LowAtMost(x: nat, n: nat)
    ensures Low(x, n) <= x
  {
  }

  lemma ShlMonotonic(x: nat, y: nat, n: nat)
    requires x <= y
    ensures Shl(x, n) <= Shl(y, n)
  {
  }

  /** x < 2^(m+n) exactly when x >> n < 2^m. */
  lemma ShrBound(x: nat, m: nat, n: nat)
    ensures x < Pow2(m + n) <==> Shr(x, n) < Pow2(m)
  {
    if n == 0 {
    } else {
      ShrBound(x / 2, m, n - 1);
    }
  }

  lemma OrDisjoint(hi: nat, lo: nat, n: nat)
    requires lo < Pow2(n)
    ensures Or(Shl(hi, n), lo) == Shl(hi, n) + lo
    ensures Or(lo, Shl(hi, n)) == Shl(hi, n) + lo
  {
    if n == 0 || hi == 0 || lo == 0 {
      if hi == 0 {
        ShlZero(n);
      }
    } else {
      assert Shl(hi, n) / 2 == Shl(hi, n - 1) > 0;
      OrDisjoint(hi, lo / 2, n - 1);
    }
  }

  lemma ShlZero(n: nat)
    ensures Shl(0, n) == 0 && Shr(0, n) == 0 && Low(0, n) == 0
  {
  }

  lemma OrBound(x: nat, y: nat, n: nat)
    requires x < Pow2(n) && y < Pow2(n)
    ensures Or(x, y) < Pow2(n)
  {
    if x == 0 || y == 0 || n == 0 {
    } else {
      OrBound(x / 2, y / 2, n - 1);
    }
  }

  lemma Or64(x: UInt64, y: UInt64)
    ensures Or(x, y) < TWO64
  {
    Pow2Values();
    OrBound(x, y, 64);
  }

  // ---------------------------------------------------------------- exclusive or

  lemma XorBound(x: nat, y: nat, n: nat)
    requires x < Pow2(n) && y < Pow2(n)
    ensures Xor(x, y) < Pow2(n)
  {
    if x == 0 || y == 0 || n == 0 {
    } else {
      XorBound(x / 2, y / 2, n - 1);
    }
  }

  lemma Xor64(x: UInt64, y: UInt64)
    ensures Xor(x, y) < TWO64
  {
    Pow2Values();
    XorBound(x, y, 64);
  }

  lemma XorCommutes(x: nat, y: nat)
    ensures Xor(x, y) == Xor(y, x)
    decreases x + y
  {
    if x > 0 && y > 0 {
      XorCommutes(x / 2, y / 2);
    }
  }

  lemma {:induction false} XorCancels(x: nat, y: nat)
    ensures Xor(Xor(x, y), y) == x
    ensures Xor(Xor(x, y), x) == y
    ensures Xor(x, y) == 0 <==> x == y
    decreases x + y
  {
    if x == 0 {
      XorSelf(y);
    } else if y == 0 {
      XorSelf(x);
    } else {
      var z := Xor(x, y);
      XorCancels(x / 2, y / 2);
      assert z / 2 == Xor(x / 2, y / 2);
      assert z % 2 == (if x % 2 != y % 2 then 1 else 0);
    }
  }

  lemma XorSelf(x: nat)
    ensures Xor(x, x) == 0
  {
    if x > 0 {
      XorSelf(x / 2);
    }
  }

  // ---------------------------------------------------------------- bit lists

  /** The n low bits of x, most significant first. */
  function ToBits(x: nat, n: nat): (b: seq<bool>)
    ensures |b| == n
  {
    if n == 0 then [] else ToBits(x / 2, n - 1) + [x % 2 == 1]
  }

  function FromBits(b: seq<bool>): (x: nat)
    ensures x < Pow2(|b|)
  {
    if b == [] then 0 else 2 * FromBits(b[..|b| - 1]) + (if b[|b| - 1] then 1 else 0)
  }

  function Zeros(n: nat): (b: seq<bool>)
    ensures |b| == n
    ensures forall i :: 0 <= i < n ==> !b[i]
  {
    if n == 0 then [] else Zeros(n - 1) + [false]
  }

  lemma {:induction false} FromToBits(x: nat, n: nat)
    ensures FromBits(ToBits(x, n)) == Low(x, n)
  {
    if n == 0 {
    } else {
      var b := ToBits(x, n);
      assert b[..n - 1] == ToBits(x / 2, n - 1) && b[n - 1] == (x % 2 == 1);
      FromToBits(x / 2, n - 1);
      assert FromBits(b) == 2 * FromBits(b[..n - 1]) + if b[n - 1] then 1 else 0;
    }
  }

  lemma {:induction false} ToFromBits(b: seq<bool>)
    ensures ToBits(FromBits(b), |b|) == b
  {
    if b == [] {
    } else {
      ToFromBits(b[..|b| - 1]);
      assert b == b[..|b| - 1] + [b[|b| - 1]];
    }
  }

  /** Only the n low bits of x are seen by an n-bit list. */
  lemma ToBitsLow(x: nat, n: nat)
    ensures ToBits(Low(x, n), n) == ToBits(x, n)
  {
    ToFromBits(ToBits(x, n));
    FromToBits(x, n);
  }

  lemma {:induction false} ToBitsSplit(x: nat, m: nat, n: nat)
    ensures ToBits(x, m + n) == ToBits(Shr(x, n), m) + ToBits(x, n)
    decreases n
  {
    if n == 0 {
      assert ToBits(x, m) + ToBits(x, 0) == ToBits(x, m);
    } else {
      ToBitsSplit(x / 2, m, n - 1);
      var h, l := ToBits(Shr(x, n), m), ToBits(x / 2, n - 1);
      assert (h + l) + [x % 2 == 1] == h + (l + [x % 2 == 1]);
    }
  }

  lemma {:induction false} FromBitsConcat(a: seq<bool>, b: seq<bool>)
    ensures FromBits(a + b) == Shl(FromBits(a), |b|) + FromBits(b)
    decreases |b|
  {
    if b == [] {
      assert a + b == a;
    } else {
      var c := b[..|b| - 1];
      assert (a + b)[..|a + b| - 1] == a + c;
      FromBitsConcat(a, c);
    }
  }

  lemma ToBitsZero(n: nat)
    ensures ToBits(0, n) == Zeros(n)
  {
  }

  /** `u << k` drops the k leading bits of a 64-bit word and appends k zeros. */
  lemma ShlBits(u: UInt64, k: nat)
    requires k <= 64
    ensures ToBits(Shl64(u, k), 64) == ToBits(u, 64)[k..] + Zeros(k)
  {
    var w := Shl(u, k);
    Low64(w);
    ToBitsLow(w, 64);
    ToBitsSplit(w, 64 - k, k);
    ShlSplit(u, 0, k);
    ToBitsLow(w, k);
    ToBitsZero(k);
    ToBitsSplit(u, k, 64 - k);
  }

  /** The high bits of a word are the bits of the shifted word. */
  lemma ShrBits(u: nat, m: nat, k: nat)
    ensures ToBits(u, m + k)[..m] == ToBits(Shr(u, k), m)
    ensures ToBits(u, m + k)[m..] == ToBits(u, k)
  {
    ToBitsSplit(u, m, k);
  }

  // ---------------------------------------------------------------- bytes

  function BytesToBits(s: seq<Byte>): (b: seq<bool>)
    ensures |b| == 8 * |s|
  {
    if s == [] then [] else ToBits(s[0], 8) + BytesToBits(s[1..])
  }

  lemma {:induction false} BytesToBitsConcat(s: seq<Byte>, t: seq<Byte>)
    ensures BytesToBits(s + t) == BytesToBits(s) + BytesToBits(t)
  {
    if s == [] {
      assert s + t == t;
    } else {
      assert (s + t)[1..] == s[1..] + t;
      BytesToBitsConcat(s[1..], t);
    }
  }

  lemma BytesToBitsSingle(x: Byte)
    ensures BytesToBits([x]) == ToBits(x, 8)
  {
    assert [x][1..] == [];
  }

  lemma BytesToBitsSplit(s: seq<Byte>, n: nat)
    requires n <= |s|
    ensures BytesToBits(s[..n]) == BytesToBits(s)[..8 * n]
    ensures BytesToBits(s[n..]) == BytesToBits(s)[8 * n..]
  {
    assert s == s[..n] + s[n..];
    BytesToBitsConcat(s[..n], s[n..]);
  }

  /** Go's binary.BigEndian readers (Uint16, Uint32, Uint64) on 2, 4 or 8 bytes. */
  function BigEndian(s: seq<Byte>): nat
  {
    if s == [] then 0 else 256 * BigEndian(s[..|s| - 1]) + s[|s| - 1]
  }

  /** Go's binary.BigEndian writers: the n low bytes of x, highest first. */
  function ToBigEndian(x: nat, n: nat): (s: seq<Byte>)
    ensures |s| == n
  {
    if n == 0 then [] else ToBigEndian(x / 256, n - 1) + [x % 256]
  }

  lemma {:induction false} BigEndianBits(s: seq<Byte>)
    ensures ToBits(BigEndian(s), 8 * |s|) == BytesToBits(s)
    ensures BigEndian(s) < Pow2(8 * |s|)
  {
    if s == [] {
    } else {
      var h, l := s[..|s| - 1], s[|s| - 1];
      BigEndianBits(h);
      assert s == h + [l];
      BytesToBitsConcat(h, [l]);
      BytesToBitsSingle(l);
      AppendByteBits(BigEndian(h), l, 8 * |h|);
      Pow2Add8(8 * |h|);
    }
  }

  lemma Pow2Add8(n: nat)
    ensures Pow2(n + 8) == 256 * Pow2(n)
  {
    ShlShl(1, n, 8);
    ShlByte(Pow2(n));
  }

  lemma AppendByteBits(x: nat, l: Byte, n: nat)
    ensures ToBits(256 * x + l, n + 8) == ToBits(x, n) + ToBits(l, 8)
    ensures Shl(x, 8) == 256 * x
  {
    hide ToBits, Shl, Shr, Low, Pow2;
    ShlByte(x);
    var y := 256 * x + l;
    Pow2Values();
    ShlSplit(x, l, 8);
    ToBitsSplit(y, n, 8);
    ToBitsLow(y, 8);
  }

  lemma {:induction false} BigEndianRoundTrip(x: nat, n: nat)
    requires x < Pow2(8 * n)
    ensures BigEndian(ToBigEndian(x, n)) == x
  {
    if n == 0 {
    } else {
      Pow2Add8(8 * (n - 1));
      BigEndianRoundTrip(x / 256, n - 1);
      assert ToBigEndian(x, n)[..n - 1] == ToBigEndian(x / 256, n - 1);
    }
  }
}
