/**
 What any number of adds makes of a sampleRing, in every case: the samples it holds and where it stands, as a function
 of the samples added. A ring left in disorder is followed until it grows again.
 */
module RingStand {
  import opened Bits
  import opened SampleRing

  /**
   How a ring stands. In order it has n slots, starts at f and holds `held`; the first `mixed` samples of that are left
   from a garbled ring that grew. Garbled it has 2n slots: `lap` is all of them in the order they were written, and it
   holds the g newest samples followed by the n oldest.
   */
  datatype Stand =
    | InOrder(n: nat, f: nat, held: seq<Sample>, mixed: nat)
    | Garbled(n: nat, f: nat, lap: seq<Sample>, g: nat)

  predicate StandOk(s: Stand) {
    match s
    case InOrder(n, f, held, mixed) => f < n && 2 <= n && mixed <= |held| <= n
    case Garbled(n, f, lap, g) => f < 2 * n && 2 <= n && |lap| == 2 * n && g <= n
  }

  /** What the ring holds. */
  function Held(s: Stand): seq<Sample>
    requires StandOk(s)
  {
    match s
    case InOrder(_, _, held, _) => held
    case Garbled(n, f, lap, g) => lap[2 * n - g..] + lap[..n]
  }

  /** An add to a ring in order, or to a full one. */
  function AddInOrder(n: nat, f: nat, held: seq<Sample>, mixed: nat, x: Sample, delta: int): (s: Stand)
    requires f < n && 2 <= n && mixed <= |held| <= n && delta >= 0
    ensures StandOk(s)
  {
    var full, bound, grow := held + [x], x.t - delta, |held| == n;
    var e := Evicted(n, f, grow, full, bound);
    if PastZeros(n, f, grow, e) then
      InOrder(if grow then 2 * n else n, NewFront(n, f, grow, e), full[e..], if e < mixed then mixed - e else 0)
    else
      EvictedStops(n, f, grow, full, bound);
      Garbled(n, NewFront(n, f, grow, e), Blank(n - 1) + full, 0)
  }

  function AddStand(s: Stand, x: Sample, delta: int): (s': Stand)
    requires StandOk(s) && delta >= 0
    ensures StandOk(s')
  {
    match s
    case InOrder(n, f, held, mixed) => AddInOrder(n, f, held, mixed, x, delta)
    case Garbled(n, f, lap, g) =>
      if g == n then AddInOrder(2 * n, f, Held(s), 2 * n, x, delta)
      else
        var lap' := lap[1..] + [x];
        var e := Stale(lap'[2 * n - 1 - g..], x.t - delta);
        StaleBeforeLast(lap'[2 * n - 1 - g..], x.t - delta);
        Garbled(n, Slot(f, e, 2 * n), lap', g + 1 - e)
  }

  lemma StaleBeforeLast(s: seq<Sample>, bound: int)
    requires s != [] && s[|s| - 1].t >= bound
    ensures Stale(s, bound) < |s|
  {
  }

  /** The ring after it was reset, with n slots, and the samples from `from` up to pos were added. */
  function StandAfter(xs: seq<Sample>, from: nat, pos: nat, delta: int, n: nat): (s: Stand)
    requires from <= pos <= |xs| && delta >= 0 && n >= 2
    ensures StandOk(s)
    decreases pos - from
  {
    if pos == from then InOrder(n, 0, [], 0)
    else AddStand(StandAfter(xs, from, pos - 1, delta, n), xs[pos - 1], delta)
  }

  lemma StandStart(xs: seq<Sample>, from: nat, delta: int, n: nat)
    requires from <= |xs| && delta >= 0 && n >= 2
    ensures StandAfter(xs, from, from, delta, n) == InOrder(n, 0, [], 0)
  {
  }

  lemma StandStep(xs: seq<Sample>, from: nat, pos: nat, delta: int, n: nat)
    requires from < pos <= |xs| && delta >= 0 && n >= 2
    ensures StandAfter(xs, from, pos, delta, n) == AddStand(StandAfter(xs, from, pos - 1, delta, n), xs[pos - 1], delta)
  {
    hide AddStand;
  }

  /** Disorder happens: a full ring with the times -16 to -1 and a window of 15, when a sample at time 0 is added. */
  lemma DisorderHappens(f: nat, held: seq<Sample>, mixed: nat, x: Sample)
    requires f < 16 && mixed <= 16 && |held| == 16 && x.t == 0 && forall k | 0 <= k < 16 :: held[k].t == k - 16
    ensures var s := AddInOrder(16, f, held, mixed, x, 15);
            s.Garbled? && Held(s) == Blank(15) + [held[0]]
  {
    StaleIs(held + [x], -15, 1);
    hide Stale, Front;
  }

  // ---------------------------------------------------------------- the ring stands so

  ghost predicate Fits(ring: Ring, s: Stand)
    requires StandOk(s)
    reads ring, ring.buf
  {
    ring.InRange()
    && match s
       case InOrder(n, f, held, _) =>
         ring.Valid() && ring.buf.Length == n && ring.f == f && 0 <= ring.l && ring.Contents() == held
       case Garbled(n, f, lap, g) => GarbledFits(s, ring.buf[..], ring.i, ring.f, ring.l)
  }

  /** The newest sample is in slot i, and ends the first g from the start of the ring. */
  ghost predicate GarbledFits(s: Stand, b: seq<Sample>, i: int, f: nat, l: int)
    requires s.Garbled?
  {
    && |b| == 2 * s.n && 0 <= i < |b| && f == s.f && l == s.g + s.n
    && Lap(b, i) == s.lap && After(i, |b|) == Slot(f, s.g, |b|)
  }

  /** The ring holds what the stand says. */
  lemma GarbledHolds(s: Stand, b: seq<Sample>, i: int, f: nat, l: int)
    requires s.Garbled? && StandOk(s) && GarbledFits(s, b, i, f, l)
    ensures f < |b| && 0 <= l <= |b| && Window(b, f, l) == Held(s)
  {
    hide Window, Lap, Slot;
    CircleFrom(b, i, f, s.g);
    WindowPrefix(b, f, l);
    assert (s.lap[2 * s.n - s.g..] + s.lap[..2 * s.n - s.g])[..s.g + s.n] == s.lap[2 * s.n - s.g..] + s.lap[..s.n];
  }

  lemma FitsHolds(ring: Ring, s: Stand)
    requires StandOk(s) && Fits(ring, s)
    ensures ring.f < ring.buf.Length && 0 <= ring.l <= ring.buf.Length && ring.Contents() == Held(s)
  {
    hide Window, Tidy, Lap, GarbledFits;
    if s.Garbled? {
      GarbledHolds(s, ring.buf[..], ring.i, ring.f, ring.l);
    }
  }

  /** An add to a ring in order, or to a full one, by what add says of it. */
  lemma InOrderFits(n: nat, f: nat, held: seq<Sample>, mixed: nat, x: Sample, delta: int, tidy: bool,
                    after: seq<Sample>, b: seq<Sample>, i: int, f': nat, l': int)
    requires f < n && 2 <= n && mixed <= |held| <= n && delta >= 0
    requires AddResult(n, f, |held| == n, held + [x], x.t - delta, tidy, after, f')
    requires |after| == l' && |b| == if |held| == n then 2 * n else n
    requires |held| == n ==> i == f && Lap(b, i) == Blank(n - 1) + (held + [x])
    ensures var s := AddInOrder(n, f, held, mixed, x, delta);
            if s.InOrder? then tidy && |b| == s.n && f' == s.f && after == s.held
            else GarbledFits(s, b, i, f', l')
  {
    hide Evicted, Evictable, Lap, Blind;
    EvictedStops(n, f, |held| == n, held + [x], x.t - delta);
  }

  /** An add to a garbled ring that does not grow. */
  lemma GarbledStep(s: Stand, x: Sample, delta: int, b: seq<Sample>, i: int, f: nat, l: int, b': seq<Sample>, i': int,
                    f': nat, l': int)
    requires s.Garbled? && StandOk(s) && s.g < s.n && delta >= 0 && GarbledFits(s, b, i, f, l)
    requires i' == After(i, |b|) && 0 <= i' < |b| && b' == b[i' := x] && InPlace(b', f, l, x.t - delta, f', l')
    ensures var s' := AddStand(s, x, delta); s'.Garbled? && GarbledFits(s', b', i', f', l')
  {
    hide Window, Lap, Slot, After, Stale, InPlace, AddInOrder;
    var g, bound := s.g, x.t - delta;
    var lap' := s.lap[1..] + [x];
    var newest := lap'[|b| - 1 - g..];
    StaleBeforeLast(newest, bound);
    GarbledCircle(s, x, b, i, f, l, b', i');
    StaleInFirst(newest, lap'[..|b| - 1 - g], bound);
    InPlaceIs(b', f, l, bound, f', l', Stale(newest, bound));
    SlotSplit(f, Stale(newest, bound), g + 1, |b|);
  }

  lemma InPlaceIs(b: seq<Sample>, f0: nat, l0: int, bound: int, f: nat, l: int, e: nat)
    requires InPlace(b, f0, l0, bound, f, l) && f0 < |b| && e == Stale(Window(b, f0, |b|), bound)
    ensures e < |b| && f == Slot(f0, e, |b|) && l == l0 + 1 - e
  {
    hide Window, Stale, Slot;
  }

  /** The circle after the write: the newest samples first, then the oldest. */
  lemma GarbledCircle(s: Stand, x: Sample, b: seq<Sample>, i: int, f: nat, l: int, b': seq<Sample>, i': int)
    requires s.Garbled? && StandOk(s) && s.g < s.n && GarbledFits(s, b, i, f, l)
    requires i' == After(i, |b|) && 0 <= i' < |b| && b' == b[i' := x]
    ensures var lap' := s.lap[1..] + [x];
            && Lap(b', i') == lap' && After(i', |b|) == Slot(f, s.g + 1, |b|)
            && Window(b', f, |b|) == lap'[|b| - 1 - s.g..] + lap'[..|b| - 1 - s.g]
  {
    hide Window, Lap;
    LapWritten(b, i, x);
    CircleFrom(b', i', f, s.g + 1);
  }

  lemma StaleInFirst(a: seq<Sample>, b: seq<Sample>, bound: int)
    requires a != [] && a[|a| - 1].t >= bound
    ensures Stale(a + b, bound) == Stale(a, bound)
  {
    StaleBeforeLast(a, bound);
    StaleIs(a + b, bound, Stale(a, bound));
  }

  lemma SlotSplit(f: nat, e: nat, g: nat, n: nat)
    requires f < n && e <= g < n
    ensures 0 <= Slot(f, e, n) < n && Slot(Slot(f, e, n), g - e, n) == Slot(f, g, n)
  {
  }

  /** What add says of a ring is what the next stand says. */
  lemma AddedFits(s: Stand, x: Sample, delta: int, b: seq<Sample>, i: int, f: nat, l: int, tidy: bool,
                  after: seq<Sample>, b': seq<Sample>, i': int, f': nat, l': int)
    requires StandOk(s) && delta >= 0 && -1 <= i < |b|
    requires match s
             case InOrder(n, f0, held, _) => |b| == n && f == f0 && l == |held|
             case Garbled(_, _, _, _) => GarbledFits(s, b, i, f, l)
    requires s.InOrder? || l == |b| ==>
               && AddResult(|b|, f, l == |b|, Held(s) + [x], x.t - delta, tidy, after, f') && |after| == l'
    requires l == |b| ==> i' == f && |b'| == 2 * |b| && Lap(b', i') == Blank(|b| - 1) + (Held(s) + [x])
    requires l < |b| ==>
               && |b'| == |b| && i' == After(i, |b|) && 0 <= i' < |b|
               && b' == b[i' := x] && InPlace(b', f, l, x.t - delta, f', l')
    ensures var s' := AddStand(s, x, delta);
            if s'.InOrder? then (s.InOrder? || l == |b|) && tidy && |b'| == s'.n && f' == s'.f && after == s'.held
            else GarbledFits(s', b', i', f', l')
  {
    hide AddInOrder, AddResult, Lap, InPlace, Held;
    match s
    case InOrder(n, f0, held, mixed) =>
      InOrderHeld(s);
      InOrderFits(n, f, held, mixed, x, delta, tidy, after, b', i', f', l');
    case Garbled(n, f0, lap, g) =>
      if g == n {
        InOrderFits(2 * n, f, Held(s), 2 * n, x, delta, tidy, after, b', i', f', l');
      } else {
        GarbledStep(s, x, delta, b, i, f, l, b', i', f', l');
      }
  }

  lemma InOrderHeld(s: Stand)
    requires StandOk(s)
    ensures s.InOrder? ==> Held(s) == s.held
    ensures s.Garbled? ==> |Held(s)| == s.g + s.n
  {
  }

  lemma FitsLength(ring: Ring, s: Stand)
    requires StandOk(s) && Fits(ring, s)
    ensures -1 <= ring.i < ring.buf.Length && ring.l <= ring.buf.Length && ring.buf.Length >= 2
    ensures match s
            case InOrder(n, f, held, _) => ring.Valid() && ring.buf.Length == n && ring.f == f && ring.l == |held|
            case Garbled(_, _, _, _) => GarbledFits(s, ring.buf[..], ring.i, ring.f, ring.l)
  {
    hide Window, Tidy, Lap, Slot;
  }

  /** add, on any ring whose stand is known. */
  method AddOne(ring: Ring, x: Sample, ghost s: Stand)
    requires StandOk(s) && Fits(ring, s) && ring.delta >= 0 && x.t - ring.delta >= -TWO63
    modifies ring, ring.buf
    ensures ring.buf == old(ring.buf) || fresh(ring.buf)
    ensures ring.buf.Length >= old(ring.buf.Length)
    ensures Fits(ring, AddStand(s, x, ring.delta))
  {
    hide Window, Tidy, AddResult, Lap, InPlace, GarbledFits, AddStand, Held;
    ghost var b, i, f, l := ring.buf[..], ring.i, ring.f, ring.l;
    FitsHolds(ring, s);
    FitsLength(ring, s);
    ring.Add(x);
    AddedFits(s, x, ring.delta, b, i, f, l, ring.Valid(), if 0 <= ring.l then ring.Contents() else [], ring.buf[..],
              ring.i, ring.f, ring.l);
  }
}
