/**
 What the chunk tests of pkg/tsdb/chunkenc/chunk_test.go promise, for every sequence of samples:
 iterating over a chunk gives back what was appended to it, whichever appenders wrote it.
 */
module XorRoundTrip {
  import opened Bits
  import opened Varint
  import opened BitStream
  import opened BitStreamReader
  import opened XorCodec
  import opened XorChunk

  /** The part of xs that a body keeps readable: the header cannot count further. */
  function Readable(xs: seq<Sample>): (ys: seq<Sample>)
  {
    if |xs| <= MAX_SAMPLES then xs else xs[..MAX_SAMPLES]
  }

  /** The body was written for xs, and as long as the header can count them `a` is in lockstep with it. */
  ghost predicate Stored(body: seq<bool>, xs: seq<Sample>, a: State) {
    var p := SamplesFrom(|Readable(xs)|, START, body);
    && p.Got? && p.value.0 == Readable(xs)
    && (|xs| <= MAX_SAMPLES ==> p.rest == [] && Sync(a, p.value.1))
  }

  lemma EmptyChunk()
    ensures SamplesFrom(0, START, []) == Got(([], START), [])
  {
  }

  lemma NothingStored(a: State)
    requires Sync(a, START)
    ensures Stored([], [], a)
  {
  }

  /** Appending with any appender in lockstep stores one more sample. */
  lemma StoredAppend(body: seq<bool>, xs: seq<Sample>, a: State, s: Sample)
    requires Stored(body, xs, a)
    ensures Stored(body + SampleBits(a, s), xs + [s], AfterSample(a, s))
  {
    hide SampleFrom, SampleBits, AfterSample;
    var n, bits := |Readable(xs)|, SampleBits(a, s);
    var p := SamplesFrom(n, START, body);
    SamplesExtend(n, START, body, bits);
    if |xs| < MAX_SAMPLES {
      var st := p.value.1;
      assert [] + bits == bits && bits + [] == bits;
      SampleRoundTrip(a, st, s, []);
      OneSample(st, bits);
      SamplesSplit(n, 1, START, body + bits);
    } else {
      assert Readable(xs + [s]) == Readable(xs);
    }
  }

  lemma OneSample(st: State, b: seq<bool>)
    ensures var p := SampleFrom(st, b);
            SamplesFrom(1, st, b) == if p.Got? then Got(([Sample(p.value.t, p.value.v)], p.value), p.rest) else Fail
  {
    var p := SampleFrom(st, b);
    if p.Got? {
      var x := Sample(p.value.t, p.value.v);
      assert SamplesFrom(0, p.value, p.rest) == Got(([], p.value), p.rest);
      assert [x] + [] == [x];
    }
  }

  /** Once the header has wrapped around, any appender will do. */
  lemma StoredBy(body: seq<bool>, xs: seq<Sample>, a: State, a': State)
    requires Stored(body, xs, a)
    requires |xs| <= MAX_SAMPLES ==> a' == a || Sync(a', SamplesFrom(|xs|, START, body).value.1)
    ensures Stored(body, xs, a')
  {
  }

  /** The appender's idea of the sample count is the header, which wraps around. */
  lemma StoredState(body: seq<bool>, xs: seq<Sample>, a: State, a': State)
    requires Stored(body, xs, a)
    requires a' == a.(num := |xs| % (MAX_SAMPLES + 1))
    ensures Stored(body, xs, a')
  {
    hide SamplesFrom;
  }

  /** A chunk whose header counts n of the stored samples reads back as the first n. */
  lemma StoredRead(body: seq<bool>, xs: seq<Sample>, a: State, n: nat)
    requires Stored(body, xs, a) && n <= |Readable(xs)|
    ensures var p := SamplesFrom(n, START, body);
            p.Got? && p.value.0 == xs[..n] && (n == |xs| ==> p.rest == [] && Sync(a, p.value.1))
  {
    SamplesPrefix(n, |Readable(xs)|, START, body);
  }

  /**
   Appends xs to a new chunk, taking a new appender before sample i wherever reopen(i) says so, and
   reads the chunk with a new iterator and then again with the same one. Both readings end without an
   error and give xs for up to 65535 samples; beyond that the uint16 count wraps around.
   */
  method WriteAndRead(xs: seq<Sample>, reopen: nat -> bool) returns (ys: seq<Sample>, zs: seq<Sample>, err: IterError)
    ensures err == NoError
    ensures ys == xs[..|xs| % (MAX_SAMPLES + 1)]
    ensures zs == ys
  {
    hide Stored, SamplesFrom, Padded, Written, BytesToBits, BigEndian;
    var c, a := WriteAll(xs, reopen);
    assert |xs| % (MAX_SAMPLES + 1) <= |Readable(xs)|;
    ghost var n := Header(c.b);
    StoredRead(Body(c.b), xs, a, n);
    var it := c.Iterator(null);
    ys, err := ReadAll(it, xs[..n]);
    it := c.Iterator(it);
    zs, err := ReadAll(it, xs[..n]);
  }

  method WriteAll(xs: seq<Sample>, reopen: nat -> bool) returns (c: XorChunk, ghost a: State)
    ensures fresh(c) && fresh(c.b) && c.Valid()
    ensures Header(c.b) == |xs| % (MAX_SAMPLES + 1) && Stored(Body(c.b), xs, a)
  {
    hide Stored, SamplesFrom, Padded, Written, BigEndian, Sync, Body;
    c := new XorChunk();
    EmptyChunk();
    var app := c.Appender();
    a := app.Track();
    NothingStored(a);
    assert xs[..0] == [];
    for i := 0 to |xs|
      invariant Writing(c, app, xs[..i], a) && fresh(c.b) && fresh(app)
    {
      app, a := WriteOne(c, app, xs[i], reopen(i), xs[..i], a);
      assert xs[..i + 1] == xs[..i] + [xs[i]];
    }
    assert xs[..|xs|] == xs;
  }

  /** A chunk being written: `a` is the state of the current appender for as long as that matters. */
  ghost predicate Writing(c: XorChunk, app: XorAppender?, xs: seq<Sample>, a: State)
    reads c, c.b, app
  {
    && c.Valid() && app != null && app.b == c.b && Header(c.b) == |xs| % (MAX_SAMPLES + 1)
    && Stored(Body(c.b), xs, a) && (|xs| <= MAX_SAMPLES ==> a == app.Track())
  }

  method WriteOne(c: XorChunk, app: XorAppender, x: Sample, reopen: bool, ghost xs: seq<Sample>, ghost a: State)
    returns (app': XorAppender, ghost a': State)
    requires Writing(c, app, xs, a)
    modifies app, c.b
    ensures Writing(c, app', xs + [x], a') && if reopen then fresh(app') else app' == app
  {
    hide SampleBits, AfterSample, Stored, SamplesFrom, SampleFrom, Padded, Written, BigEndian, Sync, Body;
    app' := app;
    if reopen {
      StoredRead(Body(c.b), xs, a, Header(c.b));
      app' := c.Appender();
    }
    StoredBy(Body(c.b), xs, a, app'.Track());
    StoredAppend(Body(c.b), xs, app'.Track(), x);
    a' := AfterSample(app'.Track(), x);
    app'.Append(x.t, x.v);
    StoredState(Body(c.b), xs + [x], a', app'.Track());
    a' := app'.Track();
  }

  method ReadAll(it: XorIterator, ghost xs: seq<Sample>) returns (ys: seq<Sample>, err: IterError)
    requires it.Ahead(xs)
    modifies it, it.br
    ensures ys == xs && err == NoError && it.br == old(it.br)
  {
    hide SampleFrom;
    ys := [];
    var more := it.Next();
    while more
      invariant it.Valid() && it.br == old(it.br) && |ys| <= |xs| && ys == xs[..|ys|]
      invariant if more then |ys| < |xs| && Sample(it.t, it.val) == xs[|ys|] && it.Ahead(xs[|ys| + 1..])
                else |ys| == |xs| && it.err == NoError
      decreases |xs| - |ys|, more
    {
      ys := ys + [Sample(it.t, it.val)];
      assert |ys| < |xs| ==> xs[|ys|..][1..] == xs[|ys| + 1..];
      more := it.Next();
    }
    err := it.err;
  }

  // ---------------------------------------------------------------- chunks rebuilt from bytes

  /**
   FromData takes the `count` unused bits of the last byte for data: behind the samples there are that many zeros. After
   one sample they are a whole byte or none.
   */
  lemma RestoredBody(stream: seq<Byte>, count: nat, n: nat, xs: seq<Sample>, st: State)
    requires |stream| >= 2 && Padded(stream, count) && 8 * |stream| - count >= HEADER_BITS
    requires SamplesFrom(n, START, Written(stream, count)[HEADER_BITS..]) == Got((xs, st), [])
    ensures SamplesFrom(n, START, Written(stream, 0)[HEADER_BITS..]) == Got((xs, st), Zeros(count))
    ensures n == 1 ==> count == 0 || count == 8
  {
    hide Written, SampleFrom;
    var front, last := stream[..|stream| - 1], stream[|stream| - 1];
    UnusedAreZeros(front, last, count);
    assert front + [last] == stream;
    var body := Written(stream, count)[HEADER_BITS..];
    assert Written(stream, 0)[HEADER_BITS..] == body + Zeros(count);
    SamplesExtend(n, START, body, Zeros(count));
    if n == 1 {
      OneSample(START, body);
      FirstSampleWhole(body);
    }
  }

  lemma UnusedAreZeros(front: seq<Byte>, last: Byte, count: nat)
    requires count <= 8 && Low(last, count) == 0
    ensures Written(front + [last], 0) == Written(front + [last], count) + Zeros(count)
  {
    assert Shr(last, 0) == last;
    hide Written, ToBits, Low, Shr;
    WrittenAs(front, last, count);
    WrittenAs(front, last, 0);
    ToBitsSplit(last, 8 - count, count);
    ToBitsLow(last, count);
    ToBitsZero(count);
  }

  /** The first sample takes whole bytes. */
  lemma FirstSampleWhole(b: seq<bool>)
    requires SampleFrom(START, b).Got?
    ensures (|b| - |SampleFrom(START, b).rest|) % 8 == 0
  {
    hide UvarintFrom;
    VarintWhole(b, 0, 0);
  }

  lemma {:induction false} VarintWhole(b: seq<bool>, i: nat, x: UInt64)
    requires UvarintFrom(b, i, x).Got?
    ensures (|b| - |UvarintFrom(b, i, x).rest|) % 8 == 0
    decreases 10 - i
  {
    hide Or, Shl64, FromBits;
    var byt := FromBits(b[..8]);
    if byt >= 128 {
      Or64(x, Shl64(byt % 128, 7 * i));
      VarintWhole(b[8..], i + 1, Or(x, Shl64(byt % 128, 7 * i)));
    }
  }

  /**
   So a chunk that was written by any appender and restored from its bytes takes one more sample correctly if and only
   if no bits of its last byte were unused or the sample is the extrapolated one.
   */
  lemma AppendAfterRestoring(stream: seq<Byte>, count: nat, n: nat, xs: seq<Sample>, st: State, a: State, s: Sample)
    requires |stream| >= 2 && Padded(stream, count) && 8 * |stream| - count >= HEADER_BITS && Sync(a, st)
    requires n == 0 ==> count == 0
    requires SamplesFrom(n, START, Written(stream, count)[HEADER_BITS..]) == Got((xs, st), [])
    ensures var r := SamplesFrom(n + 1, START, Written(stream, 0)[HEADER_BITS..] + SampleBits(a, s));
            r.Got? && r.value.0 == xs + [s] <==> count == 0 || s == Extrapolated(st)
  {
    RestoredBody(stream, count, n, xs, st);
    AppendAfterUnusedBits(n, Written(stream, 0)[HEADER_BITS..], xs, st, a, s, count);
  }

  /** What the codec predicts: the same step in time (none after one sample), the same value. */
  function Extrapolated(st: State): Sample {
    Sample(AddInt64(st.t, ToInt64(st.tDelta)), st.v)
  }

  /**
   An appender on a chunk that has forgotten how many bits of its last byte are unused leaves the p unused bits in the
   middle of the data. The chunk still reads back what was appended if and only if there were no unused bits or the
   sample was the extrapolated one. An empty chunk has none, and a first sample ends with a whole byte, so that p is 0
   or a byte there.
   */
  lemma AppendAfterUnusedBits(n: nat, body: seq<bool>, xs: seq<Sample>, st: State, a: State, s: Sample, p: nat)
    requires SamplesFrom(n, START, body) == Got((xs, st), Zeros(p)) && Sync(a, st)
    requires (n == 0 ==> p == 0) && (n == 1 ==> p == 0 || p >= 8)
    ensures var r := SamplesFrom(n + 1, START, body + SampleBits(a, s));
            r.Got? && r.value.0 == xs + [s] <==> p == 0 || s == Extrapolated(st)
  {
    assert SamplesFrom(1, START, body).Got? ==> (SamplesFrom(1, START, body).value.1.tDelta == 0);
    hide SamplesFrom, SampleFrom, SampleBits, AfterSample, AddInt64;
    OneMore(n, body, xs, st, Zeros(p), SampleBits(a, s), s);
    if p == 0 {
      assert Zeros(p) + SampleBits(a, s) == SampleBits(a, s) + [];
      SampleRoundTrip(a, st, s, []);
    } else if n == 1 {
      UnusedByteFirst(a, st, s, p);
    } else {
      UnusedBitsFirst(a, st, s, p);
    }
  }

  /** What follows the first n samples decides what sample n + 1 is. */
  lemma OneMore(n: nat, body: seq<bool>, xs: seq<Sample>, st: State, rest: seq<bool>, bits: seq<bool>, s: Sample)
    requires SamplesFrom(n, START, body) == Got((xs, st), rest)
    ensures var r, q := SamplesFrom(n + 1, START, body + bits), SampleFrom(st, rest + bits);
            r.Got? && r.value.0 == xs + [s] <==> q.Got? && Sample(q.value.t, q.value.v) == s
  {
    SamplesExtend(n, START, body, bits);
    SamplesSplit(n, 1, START, body + bits);
    OneSample(st, rest + bits);
    hide SamplesFrom, SampleFrom;
    var q := SampleFrom(st, rest + bits);
    if q.Got? {
      assert (xs + [Sample(q.value.t, q.value.v)])[n] == Sample(q.value.t, q.value.v) && (xs + [s])[n] == s;
    }
  }

  /** The second sample is written with the difference in time as a varint, which a zero byte in front replaces by 0. */
  lemma UnusedByteFirst(a: State, st: State, s: Sample, p: nat)
    requires st.num == 1 && st.tDelta == 0 && p >= 8 && Sync(a, st)
    ensures var q := SampleFrom(st, Zeros(p) + SampleBits(a, s));
            q.Got? && Sample(q.value.t, q.value.v) == s <==> s == Extrapolated(st)
  {
    var b := Zeros(p) + SampleBits(a, s);
    ZeroByte(b);
    hide UvarintFrom, ValueBits, UvarintBytes, BytesToBits;
    assert AddInt64(st.t, ToInt64(0)) == st.t;
    if s.t == st.t {
      assert ToUInt64(s.t - st.t) == 0;
      ZeroVarint();
      assert SampleBits(a, s)[0] == false;
      assert b[8..][0] == b[8] == false;
    }
  }

  lemma UnusedBitsFirst(a: State, st: State, s: Sample, p: nat)
    requires st.num >= 2 && p > 0 && Sync(a, st)
    ensures var q := SampleFrom(st, Zeros(p) + SampleBits(a, s));
            q.Got? && Sample(q.value.t, q.value.v) == s <==> s == Extrapolated(st)
  {
    hide SampleFrom, SampleBits, WithDelta, AddInt64, ToInt64;
    var b := Zeros(p) + SampleBits(a, s);
    assert b[0] == Zeros(p)[0] == false;
    PredictedTime(st, b);
    if s.t == Extrapolated(st).t {
      PredictedBits(a, st, s);
      SecondZero(p, SampleBits(a, s));
      PredictedValue(st, b[1..]);
    }
  }

  /** A zero in front stands for the time that the codec predicts. */
  lemma PredictedTime(st: State, b: seq<bool>)
    requires st.num >= 2 && b != [] && !b[0]
    ensures SampleFrom(st, b) == WithDelta(st, st.tDelta, b[1..])
    ensures var q := SampleFrom(st, b); q.Got? ==> q.value.t == Extrapolated(st).t
  {
    assert ToUInt64(ToInt64(st.tDelta) + 0) == st.tDelta;
    hide AddInt64, ToUInt64, ToInt64, ValueFrom, Ones;
    ZeroFirst(b);
  }

  lemma PredictedBits(a: State, st: State, s: Sample)
    requires st.num >= 2 && Sync(a, st) && s.t == Extrapolated(st).t
    ensures SampleBits(a, s) != [] && !SampleBits(a, s)[0]
  {
    assert ToInt64((st.tDelta - st.tDelta) % TWO64) == 0;
    hide AddInt64, ToUInt64, ToInt64, ValueBits;
    SameDelta(st.t, s.t, st.tDelta);
  }

  /** A zero after it stands for the same value. */
  lemma PredictedValue(st: State, b: seq<bool>)
    requires b != [] && !b[0]
    ensures var q := WithDelta(st, st.tDelta, b); q.Got? && q.value.t == Extrapolated(st).t && q.value.v == st.v
  {
    hide AddInt64, ToInt64;
  }

  lemma SecondZero(p: nat, bits: seq<bool>)
    requires p > 0 && bits != [] && !bits[0]
    ensures var b := Zeros(p) + bits; |b| >= 2 && !b[1..][0]
  {
    assert (Zeros(p) + bits)[1] == if p == 1 then bits[0] else Zeros(p)[1];
  }

  /** Eight zeros are the varint 0. */
  lemma ZeroByte(b: seq<bool>)
    requires |b| >= 8 && forall i | 0 <= i < 8 :: !b[i]
    ensures UvarintFrom(b, 0, 0) == Got(0, b[8..])
  {
    hide UvarintFrom, ToBits, BytesToBits;
    ZeroVarint();
    assert b[..8] == Zeros(8);
    assert b == Zeros(8) + b[8..];
    UvarintRead(0, b[8..]);
  }

  lemma ZeroVarint()
    ensures BytesToBits(UvarintBytes(0)) == Zeros(8)
  {
    assert UvarintBytes(0) == [0];
    BytesToBitsSingle(0);
    ToBitsZero(8);
  }

  lemma ZeroFirst(b: seq<bool>)
    requires b != [] && !b[0]
    ensures DodFrom(b) == Got(0, b[1..])
  {
  }

  lemma SameDelta(prev: Int64, t: Int64, d: UInt64)
    requires t == AddInt64(prev, ToInt64(d))
    ensures ToUInt64(t - prev) == d
  {
  }
}
