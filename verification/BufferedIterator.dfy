/**
 BufferedSeriesIterator of pkg/tsdb/tsdbutil/buffer.go: an iterator that remembers the samples of the last delta.
 */
module BufferedIterator {
  import opened Bits
  import opened SampleRing
  import opened RingStand
  import opened RingOrder

  /** The first position from p on with a time at or after t, or the length of the series. */
  function FirstAt(xs: seq<Sample>, p: nat, t: int): (q: nat)
    requires p <= |xs|
    ensures p <= q <= |xs|
    ensures forall k | p <= k < q :: xs[k].t < t
    ensures q < |xs| ==> xs[q].t >= t
    decreases |xs| - p
  {
    if p == |xs| || xs[p].t >= t then p else FirstAt(xs, p + 1, t)
  }

  function Max(a: int, b: int): int { if a > b then a else b }

  /** Any iterator with the behaviour chunkenc.Iterator asks for, over a series of samples. */
  class SeriesIterator {
    const xs: seq<Sample>
    var pos: int  // -1 before the first sample

    ghost predicate Valid()
      reads this
    {
      -1 <= pos < Max(|xs|, 0) && (pos == -1 || 0 <= pos < |xs|)
    }

    constructor (xs: seq<Sample>)
      ensures Valid() && this.xs == xs && pos == -1
    {
      this.xs, pos := xs, -1;
    }

    method At() returns (x: Sample)
      requires Valid()
      ensures x == if pos == -1 then ZERO else xs[pos]
    {
      x := if pos == -1 then ZERO else xs[pos];
    }

    method Next() returns (ok: bool)
      requires Valid()
      modifies this
      ensures Valid() && (ok <==> old(pos) + 1 < |xs|) && pos == if ok then old(pos) + 1 else old(pos)
    {
      ok := pos + 1 < |xs|;
      if ok {
        pos := pos + 1;
      }
    }

    method Seek(t: Int64) returns (ok: bool)
      requires Valid()
      modifies this
      ensures Valid()
      ensures var q := FirstAt(xs, Max(old(pos), 0), t);
              (ok <==> q < |xs|) && pos == if ok then q else |xs| - 1
    {
      while pos == -1 || xs[pos].t < t
        invariant Valid() && old(pos) <= pos
        invariant FirstAt(xs, Max(old(pos), 0), t) == FirstAt(xs, Max(pos, 0), t)
        decreases |xs| - pos
      {
        var more := Next();
        if !more {
          return false;
        }
      }
      ok := true;
    }
  }

  /**
   The part of a series before `pos` that is at most delta older than the sample there, and what the ring may add to
   it.
   */
  ghost predicate CoversWindow(xs: seq<Sample>, pos: nat, delta: int, held: seq<Sample>)
    requires pos < |xs|
  {
    var w := pos - |held|;
    && 0 <= w && held == xs[w..pos]
    && (forall k | 0 <= k < pos && xs[k].t >= xs[pos].t - delta :: k >= w)
    && (forall k | w <= k < pos :: xs[k].t >= xs[pos - 1].t - delta)
  }

  lemma NothingCovers(xs: seq<Sample>, pos: nat, delta: int, limit: int)
    requires pos < |xs| && (forall k | 0 <= k < pos :: xs[k].t < limit) && limit <= xs[pos].t - delta
    ensures CoversWindow(xs, pos, delta, [])
  {
  }

  lemma BeforeIsOlder(xs: seq<Sample>, p: nat, t: int)
    requires Ordered(xs) && p < |xs| && xs[p].t < t
    ensures forall k | 0 <= k < p :: xs[k].t < t
  {
  }

  lemma SuffixCovers(xs: seq<Sample>, from: nat, pos: nat, delta: int, limit: int, kept: nat)
    requires Ordered(xs) && from < pos < |xs| && from + kept <= pos
    requires (forall k | 0 <= k < from :: xs[k].t < limit) && limit <= xs[pos].t - delta
    requires var part := xs[from..pos]; forall k | 0 <= k < |part| :: k >= kept <==> part[k].t >= xs[pos - 1].t - delta
    ensures CoversWindow(xs, pos, delta, xs[from..pos][kept..])
  {
    var part := xs[from..pos];
    assert part[kept..] == xs[from + kept..pos];
    assert forall k | from <= k < pos :: part[k - from] == xs[k];
    assert xs[pos - 1].t <= xs[pos].t;
  }

  /** Nothing that the next window needs is missing from the last l samples before pos. */
  predicate Remembers(xs: seq<Sample>, pos: nat, delta: int, l: nat)
    requires l <= pos < |xs|
  {
    l == pos || xs[pos - l - 1].t < xs[pos].t - delta
  }

  /**
   The exact condition for the last l samples to cover the window, when they all were in the window of the one before.
   */
  lemma CoversIff(xs: seq<Sample>, pos: nat, delta: int, l: nat)
    requires Ordered(xs) && l <= pos < |xs| && forall k | pos - l <= k < pos :: xs[k].t >= xs[pos - 1].t - delta
    ensures CoversWindow(xs, pos, delta, xs[pos - l..pos]) <==> Remembers(xs, pos, delta, l)
  {
    if l < pos && Remembers(xs, pos, delta, l) {
      BeforeIsOlder(xs, pos - l - 1, xs[pos].t - delta);
    }
  }

  lemma QueueCovers(xs: seq<Sample>, from: nat, pos: nat, delta: int, limit: int)
    requires Ordered(xs) && from <= pos < |xs| && delta >= 0
    requires (forall k | 0 <= k < from :: xs[k].t < limit) && limit <= xs[pos].t - delta
    ensures CoversWindow(xs, pos, delta, PushAll(xs[from..pos], delta))
  {
    var part := xs[from..pos];
    assert PushAll([], delta) == [];
    hide PushAll, CoversWindow, Ordered;
    if part == [] {
      NothingCovers(xs, pos, delta, limit);
    } else {
      QueueIsWindow(part, delta);
      assert part[|part| - 1] == xs[pos - 1];
      SuffixCovers(xs, from, pos, delta, limit, |part| - |PushAll(part, delta)|);
    }
  }

  // ---------------------------------------------------------------- while the ring stays in order

  /** Where the ring stands: its slots, first slot and length; or in disorder, after a loop that stopped among zeros. */
  datatype Shape = Shape(n: nat, f: nat, l: nat) | Disorder

  predicate ShapeOk(s: Shape, room: nat) {
    s.Shape? ==> s.f < s.n && 2 <= s.n && s.l <= s.n && s.l <= room
  }

  /** The add of sample p to a ring that holds the last samples before it. */
  function AddShape(s: Shape, xs: seq<Sample>, p: nat, room: nat, delta: int): (s': Shape)
    requires p < |xs| && room <= p && ShapeOk(s, room) && delta >= 0
    ensures ShapeOk(s', room + 1)
  {
    match s
    case Disorder => Disorder
    case Shape(n, f, l) =>
      var full, bound := xs[p - l..p + 1], xs[p].t - delta;
      var e := Evicted(n, f, l == n, full, bound);
      if PastZeros(n, f, l == n, e) then Shape(if l == n then 2 * n else n, NewFront(n, f, l == n, e), l + 1 - e)
      else Disorder
  }

  /** The ring after it was reset at `from`, with n slots, and the samples before pos were added. */
  function ShapeAfter(xs: seq<Sample>, from: nat, pos: nat, delta: int, n: nat): (s: Shape)
    requires from <= pos <= |xs| && delta >= 0 && n >= 2
    ensures ShapeOk(s, pos - from)
    decreases pos - from
  {
    if pos == from then Shape(n, 0, 0)
    else AddShape(ShapeAfter(xs, from, pos - 1, delta, n), xs, pos - 1, pos - 1 - from, delta)
  }

  lemma ShapeStart(xs: seq<Sample>, from: nat, delta: int, n: nat)
    requires from <= |xs| && delta >= 0 && n >= 2
    ensures ShapeAfter(xs, from, from, delta, n) == Shape(n, 0, 0)
  {
  }

  lemma ShapeStep(xs: seq<Sample>, from: nat, pos: nat, delta: int, n: nat)
    requires from < pos <= |xs| && delta >= 0 && n >= 2
    ensures ShapeAfter(xs, from, pos, delta, n)
            == AddShape(ShapeAfter(xs, from, pos - 1, delta, n), xs, pos - 1, pos - 1 - from, delta)
  {
    hide AddShape;
  }

  /** The add of sample p, by the number of samples it drops. */
  lemma AddParts(s: Shape, xs: seq<Sample>, p: nat, room: nat, delta: int)
    requires p < |xs| && room <= p && s.Shape? && ShapeOk(s, room) && delta >= 0
    ensures var full, bound, grow := xs[p - s.l..p + 1], xs[p].t - delta, s.l == s.n;
            && Evictable(s.n, s.f, grow, full, bound) && full[0] == xs[p - s.l]
            && var e := Evicted(s.n, s.f, grow, full, bound);
            && e <= s.l && full[e..] == xs[p - s.l + e..p + 1] && NewFront(s.n, s.f, grow, e) >= 0
            && AddShape(s, xs, p, room, delta)
               == if PastZeros(s.n, s.f, grow, e) then
                    Shape(if grow then 2 * s.n else s.n, NewFront(s.n, s.f, grow, e), s.l + 1 - e)
                  else Disorder
  {
    hide Evicted;
  }

  /** What one add leaves begins in the window, and without growing it drops only what is too old. */
  lemma AddAt(s: Shape, xs: seq<Sample>, p: nat, room: nat, delta: int)
    requires p < |xs| && room <= p && s.Shape? && ShapeOk(s, room) && delta >= 0
    ensures var s', bound := AddShape(s, xs, p, room, delta), xs[p].t - delta;
            && (s'.Shape? ==> 1 <= s'.l <= s.l + 1 && xs[p + 1 - s'.l].t >= bound)
            && (s.l < s.n ==> s'.Shape? && s'.n == s.n && (s'.l <= s.l ==> xs[p - s'.l].t < bound))
  {
    hide AddShape, Evicted, Evictable, NewFront;
    var full, bound := xs[p - s.l..p + 1], xs[p].t - delta;
    AddParts(s, xs, p, room, delta);
    EvictedStops(s.n, s.f, s.l == s.n, full, bound);
    var e := Evicted(s.n, s.f, s.l == s.n, full, bound);
    assert full[e] == xs[p - s.l + e];
    if s.l < s.n && e > 0 {
      assert full[e - 1] == xs[p - s.l + e - 1];
    }
  }

  lemma StillShape(s: Shape, xs: seq<Sample>, p: nat, room: nat, delta: int)
    requires p < |xs| && room <= p && ShapeOk(s, room) && delta >= 0
    ensures AddShape(s, xs, p, room, delta).Shape? ==> s.Shape?
  {
  }

  lemma FromOn(xs: seq<Sample>, a: nat, t: int)
    requires Ordered(xs) && a < |xs| && xs[a].t >= t
    ensures forall k | a <= k < |xs| :: xs[k].t >= t
  {
  }

  /** Without times before 0 there is no disorder. */
  lemma {:induction false} NoDisorder(xs: seq<Sample>, from: nat, pos: nat, delta: int, n: nat)
    requires from <= pos <= |xs| && delta >= 0 && n >= 2 && forall k | 0 <= k < |xs| :: xs[k].t >= 0
    ensures ShapeAfter(xs, from, pos, delta, n).Shape?
    decreases pos - from
  {
    if from < pos {
      NoDisorder(xs, from, pos - 1, delta, n);
      ShapeStep(xs, from, pos, delta, n);
      hide ShapeAfter;
    }
  }

  /** No n consecutive samples lie within delta. */
  ghost predicate Sparse(xs: seq<Sample>, delta: int, n: nat) {
    forall i, j | 0 <= i <= j < |xs| && j == i + n - 1 :: xs[i].t < xs[j].t - delta
  }

  lemma SparseMore(xs: seq<Sample>, delta: int, m: nat, n: nat)
    requires Ordered(xs) && 1 <= m <= n && Sparse(xs, delta, m)
    ensures Sparse(xs, delta, n)
  {
    forall i, j | 0 <= i <= j < |xs| && j == i + n - 1 ensures xs[i].t < xs[j].t - delta {
      assert xs[i].t < xs[i + m - 1].t - delta;
    }
  }

  /** For such a series a ring of n slots never grows, and forgets only what is too old. */
  lemma {:induction false} SparseShape(xs: seq<Sample>, from: nat, pos: nat, delta: int, n: nat)
    requires Ordered(xs) && Sparse(xs, delta, n) && from <= pos <= |xs| && delta >= 0 && n >= 2
    ensures var s := ShapeAfter(xs, from, pos, delta, n);
            && s.Shape? && s.n == n && s.l < n
            && (s.l == pos - from || xs[pos - s.l - 1].t < xs[pos - 1].t - delta)
    decreases pos - from
  {
    hide ShapeAfter, AddShape, Sparse, Ordered;
    if from == pos {
      ShapeStart(xs, from, delta, n);
    } else {
      SparseShape(xs, from, pos - 1, delta, n);
      ShapeStep(xs, from, pos, delta, n);
      SparseAdd(ShapeAfter(xs, from, pos - 1, delta, n), xs, pos - 1, pos - 1 - from, delta);
    }
  }

  lemma SparseAdd(s: Shape, xs: seq<Sample>, p: nat, room: nat, delta: int)
    requires s.Shape? && ShapeOk(s, room) && Ordered(xs) && Sparse(xs, delta, s.n) && p < |xs| && room <= p
             && delta >= 0
    requires s.l < s.n && (s.l == room || xs[p - s.l - 1].t < xs[p - 1].t - delta)
    ensures var s' := AddShape(s, xs, p, room, delta);
            && s'.Shape? && s'.n == s.n && s'.l < s.n
            && (s'.l == room + 1 || xs[p - s'.l].t < xs[p].t - delta)
  {
    AddAt(s, xs, p, room, delta);
    var s' := AddShape(s, xs, p, room, delta);
    hide AddShape;
    if s.n <= p + 1 {
      assert xs[p + 1 - s.n].t < xs[p].t - delta;
    }
    if s'.l == s.l + 1 && s.l < room {
      assert xs[p - 1].t <= xs[p].t;
    }
  }

  /** The add of sample p does what the queue does. */
  predicate SoundAdd(s: Shape, xs: seq<Sample>, p: nat, room: nat, delta: int)
    requires p < |xs| && room <= p && ShapeOk(s, room)
  {
    s.Shape? && AddIsSound(s.n, s.f, s.l == s.n, Stale(xs[p - s.l..p + 1], xs[p].t - delta), xs[p].t - delta)
  }

  predicate AllSound(xs: seq<Sample>, from: nat, pos: nat, delta: int, n: nat)
    requires from <= pos <= |xs| && delta >= 0 && n >= 2
    decreases pos - from
  {
    pos == from
    || (AllSound(xs, from, pos - 1, delta, n)
        && SoundAdd(ShapeAfter(xs, from, pos - 1, delta, n), xs, pos - 1, pos - 1 - from, delta))
  }

  /** The ring holds exactly the queue before position p. */
  predicate IsQueue(s: Shape, xs: seq<Sample>, from: nat, p: nat, delta: int)
    requires from <= p <= |xs| && ShapeOk(s, p - from)
  {
    s.Shape? && xs[p - s.l..p] == PushAll(xs[from..p], delta)
  }

  /** The ring is the queue at every position passed. */
  ghost predicate QueueAlong(xs: seq<Sample>, from: nat, pos: nat, delta: int, n: nat)
    requires from <= pos <= |xs| && delta >= 0 && n >= 2
  {
    forall p | from <= p <= pos :: IsQueue(ShapeAfter(xs, from, p, delta, n), xs, from, p, delta)
  }

  lemma QueueAlongStep(xs: seq<Sample>, from: nat, pos: nat, delta: int, n: nat)
    requires from < pos <= |xs| && delta >= 0 && n >= 2
    ensures QueueAlong(xs, from, pos, delta, n)
            <==> QueueAlong(xs, from, pos - 1, delta, n)
                 && IsQueue(ShapeAfter(xs, from, pos, delta, n), xs, from, pos, delta)
    ensures QueueAlong(xs, from, pos - 1, delta, n) ==>
              IsQueue(ShapeAfter(xs, from, pos - 1, delta, n), xs, from, pos - 1, delta)
  {
    hide ShapeAfter, IsQueue;
  }

  /** That holds if and only if every add was sound. */
  lemma {:induction false} SoundIff(xs: seq<Sample>, from: nat, pos: nat, delta: int, n: nat)
    requires from <= pos <= |xs| && delta >= 0 && n >= 2
    ensures AllSound(xs, from, pos, delta, n) <==> QueueAlong(xs, from, pos, delta, n)
    decreases pos - from
  {
    hide ShapeAfter, AddShape, SoundAdd, IsQueue, QueueAlong;
    if from == pos {
      QueueAlongStart(xs, from, delta, n);
    } else {
      SoundIff(xs, from, pos - 1, delta, n);
      QueueAlongStep(xs, from, pos, delta, n);
      ShapeStep(xs, from, pos, delta, n);
      var s := ShapeAfter(xs, from, pos - 1, delta, n);
      if IsQueue(s, xs, from, pos - 1, delta) {
        QueueStep(s, xs, from, pos - 1, delta);
      }
    }
  }

  lemma QueueAlongStart(xs: seq<Sample>, from: nat, delta: int, n: nat)
    requires from <= |xs| && delta >= 0 && n >= 2
    ensures QueueAlong(xs, from, from, delta, n)
  {
    EmptyQueue(xs, from, delta);
  }

  lemma QueueStep(s: Shape, xs: seq<Sample>, from: nat, p: nat, delta: int)
    requires from <= p < |xs| && delta >= 0 && ShapeOk(s, p - from) && IsQueue(s, xs, from, p, delta)
    ensures IsQueue(AddShape(s, xs, p, p - from, delta), xs, from, p + 1, delta)
            <==> SoundAdd(s, xs, p, p - from, delta)
  {
    hide AddShape, Evicted, Evictable, NewFront, AddIsSound, Stale, PushAll;
    var full, bound, grow := xs[p - s.l..p + 1], xs[p].t - delta, s.l == s.n;
    AddParts(s, xs, p, p - from, delta);
    EvictedSoundly(s.n, s.f, grow, full, bound);
    FullQueue(s, xs, from, p, delta);
    hide PastZeros;
    var s' := AddShape(s, xs, p, p - from, delta);
    if s'.Shape? {
      SameEnd(xs, p + 1, s'.l, s.l + 1 - Stale(full, bound));
    }
  }

  lemma FullQueue(s: Shape, xs: seq<Sample>, from: nat, p: nat, delta: int)
    requires from <= p < |xs| && delta >= 0 && ShapeOk(s, p - from) && IsQueue(s, xs, from, p, delta)
    ensures var full, bound := xs[p - s.l..p + 1], xs[p].t - delta;
            Stale(full, bound) <= s.l + 1 && PushAll(xs[from..p + 1], delta) == full[Stale(full, bound)..]
  {
    hide PushAll, Stale;
    PartStep(xs, p - s.l, p);
    QueueNext(xs, from, p, delta, xs[p - s.l..p + 1]);
  }

  /** Two ends of the same part are equal if they are equally long. */
  lemma SameEnd(xs: seq<Sample>, p: nat, a: nat, b: nat)
    requires a <= p <= |xs| && b <= p
    ensures xs[p - a..p] == xs[p - b..p] <==> a == b
  {
    assert |xs[p - a..p]| == a && |xs[p - b..p]| == b;
  }

  /** The queue with one sample more, for the full queue before anything is dropped. */
  lemma QueueNext(xs: seq<Sample>, from: nat, p: nat, delta: int, full: seq<Sample>)
    requires from <= p < |xs| && full == PushAll(xs[from..p], delta) + [xs[p]]
    ensures Stale(full, xs[p].t - delta) <= |full|
    ensures PushAll(xs[from..p + 1], delta) == full[Stale(full, xs[p].t - delta)..]
  {
    assert PushAll((xs[from..p]) + [(xs[p])], delta) == Pushed(PushAll((xs[from..p]), delta), (xs[p]), delta);
    hide PushAll, Pushed, Stale;
    PartStep(xs, from, p);
    PushedAs(PushAll(xs[from..p], delta), xs[p], delta, full);
  }

  // ---------------------------------------------------------------- in order or not

  /** While the ring stays in order, it holds the last samples of the series. */
  lemma {:induction false} ShapeIsStand(xs: seq<Sample>, from: nat, pos: nat, delta: int, n: nat)
    requires from <= pos <= |xs| && delta >= 0 && n >= 2
    ensures var s := ShapeAfter(xs, from, pos, delta, n);
            s.Shape? ==> StandAfter(xs, from, pos, delta, n) == InOrder(s.n, s.f, xs[pos - s.l..pos], 0)
    decreases pos - from
  {
    hide ShapeAfter, StandAfter, AddShape, AddStand;
    if from == pos {
      ShapeStart(xs, from, delta, n);
      StandStart(xs, from, delta, n);
    } else {
      ShapeIsStand(xs, from, pos - 1, delta, n);
      ShapeStep(xs, from, pos, delta, n);
      StandStep(xs, from, pos, delta, n);
      var s := ShapeAfter(xs, from, pos - 1, delta, n);
      StillShape(s, xs, pos - 1, pos - 1 - from, delta);
      if s.Shape? {
        AddIsStand(s, xs, pos - 1, pos - 1 - from, delta);
      }
    }
  }

  lemma AddIsStand(s: Shape, xs: seq<Sample>, p: nat, room: nat, delta: int)
    requires p < |xs| && room <= p && s.Shape? && ShapeOk(s, room) && delta >= 0
    ensures var s' := AddShape(s, xs, p, room, delta);
            s'.Shape? ==>
              AddStand(InOrder(s.n, s.f, xs[p - s.l..p], 0), xs[p], delta)
              == InOrder(s'.n, s'.f, xs[p + 1 - s'.l..p + 1], 0)
  {
    hide AddShape, Evicted, Evictable, NewFront, PastZeros, Blank;
    PartStep(xs, p - s.l, p);
    AddParts(s, xs, p, room, delta);
  }

  /** The ring is in order, a garbled one left it nothing, and the next window needs no sample that it does not hold. */
  predicate Keeps(s: Stand, xs: seq<Sample>, pos: nat, delta: int)
    requires pos < |xs|
  {
    s.InOrder? && s.mixed == 0 && |s.held| <= pos && Remembers(xs, pos, delta, |s.held|)
  }

  /** The exact condition for the ring to cover the window, whatever was added. */
  lemma KeepsIff(xs: seq<Sample>, from: nat, pos: nat, delta: int, n: nat)
    requires Ordered(xs) && from <= pos < |xs| && delta >= 0 && n >= 2
    ensures var s := StandAfter(xs, from, pos, delta, n);
            CoversWindow(xs, pos, delta, Held(s)) <==> Keeps(s, xs, pos, delta)
  {
    hide StandAfter;
    var s := StandAfter(xs, from, pos, delta, n);
    var held := Held(s);
    OrderedIff(xs, from, pos, delta, n);
    if Ordered(held) {
      StandSound(xs, from, pos, delta, n);
      hide Ordered;
      if from < pos {
        assert held[0] == xs[pos - |held|];
        FromOn(xs, pos - |held|, xs[pos - 1].t - delta);
      }
      CoversIff(xs, pos, delta, |held|);
    }
  }

  /** A ring that is garbled, or has not forgotten all that it held when it was, covers no window. */
  lemma DisorderLoses(xs: seq<Sample>, from: nat, pos: nat, delta: int, n: nat)
    requires Ordered(xs) && from <= pos < |xs| && delta >= 0 && n >= 2
    ensures var s := StandAfter(xs, from, pos, delta, n);
            s.Garbled? || s.mixed > 0 ==> !Ordered(Held(s)) && !CoversWindow(xs, pos, delta, Held(s))
  {
    OrderedIff(xs, from, pos, delta, n);
    KeepsIff(xs, from, pos, delta, n);
  }

  /** So it holds the window of every position. */
  lemma SparseCovers(xs: seq<Sample>, from: nat, pos: nat, delta: int, n: nat, limit: int)
    requires Ordered(xs) && Sparse(xs, delta, n) && from <= pos < |xs| && delta >= 0 && n >= 2
    requires (forall k | 0 <= k < from :: xs[k].t < limit) && limit <= xs[pos].t - delta
    ensures var s := ShapeAfter(xs, from, pos, delta, n);
            s.Shape? && Remembers(xs, pos, delta, s.l) && CoversWindow(xs, pos, delta, xs[pos - s.l..pos])
  {
    hide ShapeAfter, StandAfter, Sparse, CoversWindow, Ordered, Held;
    SparseShape(xs, from, pos, delta, n);
    ShapeIsStand(xs, from, pos, delta, n);
    KeepsIff(xs, from, pos, delta, n);
    InOrderHeld(StandAfter(xs, from, pos, delta, n));
    var s := ShapeAfter(xs, from, pos, delta, n);
    if s.l < pos - from {
      NextIsLater(xs, pos - 1);
    }
    assert |xs[pos - s.l..pos]| == s.l;
  }

  // ---------------------------------------------------------------- the iterator

  const SLOTS := 16

  class BufferedSeriesIterator {
    const it: SeriesIterator
    const ring: Ring
    var lastTime: Int64

    ghost var from: nat  // the ring was last reset at this position
    ghost var limit: int  // every sample before `from` is older than this
    ghost var slots: nat  // the slots it had then

    /** The series can be looked back on: in time order, no window underflows. */
    ghost predicate Usable()
      reads this, it, ring
    {
      && it.Valid() && ring.delta >= 0 && slots >= SLOTS && Ordered(it.xs)
      && (forall k | 0 <= k < |it.xs| :: it.xs[k].t - ring.delta >= -TWO63)
      && (if it.pos == -1 then lastTime == -TWO63 && from == 0
          else lastTime == it.xs[it.pos].t && from <= it.pos && forall k | 0 <= k < from :: it.xs[k].t < limit)
    }

    /** What the adds since the last reset came to. */
    ghost function Stands(): (s: Stand)
      requires Usable()
      reads this, it, ring
      ensures StandOk(s)
    {
      StandAfter(it.xs, from, Max(it.pos, 0), ring.delta, slots)
    }

    /** Between two calls; a call that has run off the end of the series does not restore it. */
    ghost predicate Valid()
      reads this, it, ring, ring.buf
    {
      Usable() && ring.buf.Length >= SLOTS && Fits(ring, Stands())
    }

    /** What was skipped is too old for the window of the current sample. */
    ghost predicate Settled()
      requires it.Valid()
      reads this, it, ring
    {
      it.pos >= 0 && limit <= it.xs[it.pos].t - ring.delta
    }

    /** The ring holds every earlier sample within delta of the current one, in order. */
    ghost predicate Covers()
      requires Valid() && it.pos >= 0
      reads this, it, ring, ring.buf
    {
      FitsHolds(ring, Stands());
      CoversWindow(it.xs, it.pos, ring.delta, ring.Contents())
    }

    /** A ring in order can be read. */
    lemma InOrderNow()
      requires Valid()
      ensures Stands().InOrder? ==> ring.Valid() && ring.Contents() == Stands().held
    {
      hide StandAfter, Ordered, Tidy, Window;
    }

    /** NewBuffer */
    constructor (it: SeriesIterator, delta: Int64)
      requires it.Valid() && it.pos == -1 && delta >= 0 && Ordered(it.xs)
      requires forall k | 0 <= k < |it.xs| :: it.xs[k].t - delta >= -TWO63
      ensures Valid() && this.it == it && ring.delta == delta && fresh(ring) && fresh(ring.buf)
      ensures ring.buf.Length == SLOTS
    {
      this.it := it;
      ring := new Ring(delta, SLOTS);
      lastTime := -TWO63;
      from, limit, slots := 0, -TWO63, SLOTS;
    }

    /** What a caller may rely on at a position. */
    lemma Standing()
      requires Valid() && it.pos >= 0
      ensures Covers() <==> Keeps(Stands(), it.xs, it.pos, ring.delta)
      ensures Settled() && Sparse(it.xs, ring.delta, SLOTS) ==> Covers()
    {
      hide CoversWindow, Ordered, StandAfter, ShapeAfter, Sparse, Keeps, Fits, Held;
      FitsHolds(ring, Stands());
      KeepsIff(it.xs, from, it.pos, ring.delta, slots);
      if Settled() && Sparse(it.xs, ring.delta, SLOTS) {
        SparseMore(it.xs, ring.delta, SLOTS, slots);
        SparseCovers(it.xs, from, it.pos, ring.delta, slots, limit);
        ShapeIsStand(it.xs, from, it.pos, ring.delta, slots);
        InOrderHeld(Stands());
      }
    }

    /**
     Next puts the current sample into the ring and moves on. The ring then covers the window if and only if it is in
     order, has forgotten what a garbled ring left it, and goes back far enough.
     */
    method Next() returns (ok: bool)
      requires Valid() && it.pos >= 0
      modifies this, it, ring, ring.buf
      ensures ring.buf == old(ring.buf) || fresh(ring.buf)
      ensures it.Valid() && (ok <==> old(it.pos) + 1 < |it.xs|) && it.pos == if ok then old(it.pos) + 1 else old(it.pos)
      ensures ok ==> Valid() && (old(Settled()) ==> Settled())
      ensures ok ==> from == old(from) && limit == old(limit) && slots == old(slots)
      ensures ok ==> (Covers() <==> Keeps(Stands(), it.xs, it.pos, ring.delta))
      ensures ok && Settled() && Sparse(it.xs, ring.delta, SLOTS) ==> Covers()
    {
      hide CoversWindow, Ordered, AddStand, StandAfter, Sparse, Keeps, Fits, Held;
      var x := it.At();
      ghost var s, p := Stands(), it.pos;
      AddOne(ring, x, s);
      ok := it.Next();
      if ok {
        var y := it.At();
        lastTime := y.t;
        NextIsLater(it.xs, p);
        StandStep(it.xs, from, p + 1, ring.delta, slots);
        Standing();
      }
    }

    /**
     Seek: the first sample at or after t from where the iterator stands. The ring covers its window exactly as after
     Next, and always in a series without SLOTS consecutive samples within delta.
     */
    method Seek(t: Int64) returns (ok: bool)
      requires Valid() && t - ring.delta > -TWO63 && (it.pos == -1 || Settled())
      modifies this, it, ring, ring.buf
      ensures ring.buf == old(ring.buf) || fresh(ring.buf)
      ensures it.Valid()
      ensures var q := FirstAt(it.xs, Max(old(it.pos), 0), t);
              (ok <==> q < |it.xs|) && (ok ==> Valid() && Settled() && it.pos == q)
      ensures ok ==> if t - ring.delta > old(lastTime) then
                       from == FirstAt(it.xs, Max(old(it.pos), 0), t - ring.delta) && slots == old(ring.buf.Length)
                     else from == old(from) && slots == old(slots)
      ensures ok ==> (Covers() <==> Keeps(Stands(), it.xs, it.pos, ring.delta))
      ensures ok && Sparse(it.xs, ring.delta, SLOTS) ==> Covers()
    {
      hide CoversWindow, Ordered, StandAfter, Sparse, Keeps, Fits, Held;
      ghost var start := Max(it.pos, 0);
      var t0 := t - ring.delta;
      if t0 > lastTime {
        FirstAtLater(it.xs, start, t0, t);
        var found := Jump(t0);
        if !found {
          return false;
        }
      }
      if lastTime >= t {
        Standing();
        return true;
      }
      ok := Advance(t);
      if ok {
        Standing();
      }
    }

    /** The jump of Seek: what lies before t0 is not needed. */
    method Jump(t0: Int64) returns (found: bool)
      requires Valid() && t0 > lastTime
      modifies this, it, ring
      ensures it.Valid() && ring.buf == old(ring.buf)
      ensures var q := FirstAt(it.xs, Max(old(it.pos), 0), t0);
              (found <==> q < |it.xs|)
              && (found ==> Valid() && it.pos == q == from && limit == t0 && slots == ring.buf.Length)
    {
      hide Ordered, Fits, StandAfter, FirstAt, Tidy;
      ring.Reset();
      if it.pos >= 0 {
        BeforeIsOlder(it.xs, it.pos, t0);
      }
      found := it.Seek(t0);
      if found {
        from, limit, slots := it.pos, t0, ring.buf.Length;
        StandStart(it.xs, from, ring.delta, slots);
        ResetFits(ring);
        var y := it.At();
        lastTime := y.t;
      }
    }

    /** The loop of Seek, when the current sample is older than t. */
    method Advance(t: Int64) returns (ok: bool)
      requires Valid() && it.pos >= 0 && it.xs[it.pos].t < t && limit <= t - ring.delta
      modifies this, it, ring, ring.buf
      ensures ring.buf == old(ring.buf) || fresh(ring.buf)
      ensures it.Valid()
      ensures var q := FirstAt(it.xs, old(it.pos), t);
              (ok <==> q < |it.xs|) && (ok ==> Valid() && Settled() && it.pos == q)
      ensures ok ==> from == old(from) && slots == old(slots)
    {
      hide CoversWindow, Ordered, StandAfter, Sparse, Keeps, Fits, Held;
      ok := false;
      var more := true;
      while more
        invariant it.Valid() && it.pos >= 0 && (ring.buf == old(ring.buf) || fresh(ring.buf))
        invariant more ==> Valid() && limit == old(limit) && from == old(from) && slots == old(slots)
        invariant !ok && it.xs[it.pos].t < t && (!more ==> it.pos == |it.xs| - 1)
        invariant FirstAt(it.xs, old(it.pos), t) == FirstAt(it.xs, it.pos, t)
        decreases more, |it.xs| - it.pos
      {
        more := Next();
        if more && lastTime >= t {
          return true;
        }
      }
    }
  }

  lemma ResetFits(ring: Ring)
    requires ring.InRange() && ring.Valid() && ring.f == 0 && ring.l == 0 && ring.buf.Length >= 2
    ensures Fits(ring, InOrder(ring.buf.Length, 0, [], 0))
  {
    hide Tidy;
  }

  /** If every add was sound, the ring covers the window. */
  lemma SoundCovers(xs: seq<Sample>, from: nat, pos: nat, delta: int, n: nat, limit: int)
    requires Ordered(xs) && from <= pos < |xs| && delta >= 0 && n >= 2 && AllSound(xs, from, pos, delta, n)
    requires (forall k | 0 <= k < from :: xs[k].t < limit) && limit <= xs[pos].t - delta
    ensures var s := ShapeAfter(xs, from, pos, delta, n);
            s.Shape? && CoversWindow(xs, pos, delta, xs[pos - s.l..pos])
  {
    SoundIff(xs, from, pos, delta, n);
    assert IsQueue(ShapeAfter(xs, from, pos, delta, n), xs, from, pos, delta);
    hide ShapeAfter, AllSound, QueueAlong, CoversWindow, Ordered;
    QueueCovers(xs, from, pos, delta, limit);
  }

  // ---------------------------------------------------------------- a series that is too dense

  /** The times 1, 2, 3, .. with a window of 15: the seventeenth add drops the sixteen samples before it. */
  method SeekDense() returns (held: seq<Sample>)
    ensures held == [Times(18)[16]] && !CoversWindow(Times(18), 17, 15, held)
  {
    assert Times(18)[16..17] == [Times(18)[16]] && !Keeps(InOrder(32, 0, Times(18)[16..17], 0), Times(18), 17, 15);
    hide CoversWindow, StandAfter, Times, Keeps, BufferedSeriesIterator.Usable, Fits;
    var b := ThreeSeeks();
    DenseShape(17);
    ShapeIsStand(Times(18), 0, 17, 15, SLOTS);
    KeepsIff(Times(18), 0, 17, 15, SLOTS);
    b.InOrderNow();
    hide BufferedSeriesIterator.Valid;
    held := b.ring.Samples();
  }

  method ThreeSeeks() returns (b: BufferedSeriesIterator)
    ensures b.Valid() && b.it.xs == Times(18) && b.it.pos == 17 && b.ring.delta == 15 && b.from == 0 && b.slots == SLOTS
    ensures Ordered(Times(18))
  {
    hide CoversWindow, StandAfter, FirstAt, Times, Sparse, Keeps, Fits, Held;
    var it := new SeriesIterator(Times(18));
    b := new BufferedSeriesIterator(it, 15);
    FirstTime(0, -14);
    FirstTime(0, 1);
    FirstTime(0, 16);
    FirstTime(15, 18);
    var ok := b.Seek(1);
    assert ok && it.pos == 0 && b.from == 0 && b.slots == SLOTS;
    ok := b.Seek(16);
    assert ok && it.pos == 15;
    ok := b.Seek(18);
  }

  lemma FirstTime(p: nat, t: int)
    requires p < 18 && t <= 18
    ensures FirstAt(Times(18), p, t) == Max(p, t - 1)
  {
    hide FirstAt, Times;
    var q := FirstAt(Times(18), p, t);
    assert t - 1 > p ==> Times(18)[t - 1].t == t;
    assert Times(18)[p].t == p + 1;
  }

  lemma {:induction false} DenseShape(p: nat)
    requires p <= 17
    ensures ShapeAfter(Times(18), 0, p, 15, SLOTS) == if p <= 16 then Shape(16, 0, p) else Shape(32, 0, 1)
  {
    if p > 0 {
      DenseShape(p - 1);
      ShapeStep(Times(18), 0, p, 15, SLOTS);
      hide ShapeAfter;
      DenseAdd(p - 1);
    }
  }

  lemma DenseAdd(p: nat)
    requires p <= 16
    ensures AddShape(Shape(16, 0, p), Times(18), p, p, 15) == if p < 16 then Shape(16, 0, p + 1) else Shape(32, 0, 1)
  {
    var full := Times(18)[..p + 1];
    assert Times(18)[0..p + 1] == full;
    AddParts(Shape(16, 0, p), Times(18), p, p, 15);
    hide AddShape, Times, Evicted, Evictable;
  }

  lemma EmptyQueue(xs: seq<Sample>, p: nat, delta: int)
    requires p <= |xs|
    ensures PushAll(xs[p..p], delta) == []
  {
  }

  /** What lies before an earlier time lies before a later one. */
  lemma {:induction false} FirstAtLater(xs: seq<Sample>, p: nat, t0: int, t: int)
    requires p <= |xs| && t0 <= t
    ensures FirstAt(xs, p, t) == FirstAt(xs, FirstAt(xs, p, t0), t)
    decreases |xs| - p
  {
    if p < |xs| && xs[p].t < t0 {
      FirstAtLater(xs, p + 1, t0, t);
    }
  }
}
