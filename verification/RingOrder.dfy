/**
 Which rings hold their samples in time order, when the samples were added in time order: those that are in order and
 have forgotten all that a garbled ring left them. They hold the last samples added, and the others are never in order.
 */
module RingOrder {
  import opened Bits
  import opened SampleRing
  import opened RingStand

  // ---------------------------------------------------------------- what a garbled ring leaves

  /**
   The first `mixed` samples are a new ones, in time order, and then older ones; the two parts do not meet in order.
   */
  ghost predicate MixedAt(held: seq<Sample>, mixed: nat, a: nat) {
    && 0 < a < mixed <= |held|
    && (forall i, j | 0 <= i < j < a :: held[i].t <= held[j].t)
    && (forall j | a <= j < mixed :: held[j].t <= held[0].t)
    && held[a].t < held[a - 1].t
  }

  /** What a ring in order holds before position pos: mixed samples, and then the last ones of the series. */
  ghost predicate HeldSound(held: seq<Sample>, mixed: nat, xs: seq<Sample>, from: nat, pos: nat)
    requires from <= pos <= |xs|
  {
    && mixed <= |held| && |held| - mixed <= pos - from
    && held[mixed..] == xs[pos - (|held| - mixed)..pos]
    && (held != [] ==> 0 < pos && NoneAfter(held, xs[pos - 1]))
    && (mixed > 0 ==> IsMixed(held, mixed))
  }

  ghost predicate IsMixed(held: seq<Sample>, mixed: nat) {
    exists a: nat :: MixedAt(held, mixed, a)
  }

  ghost predicate NoneAfter(held: seq<Sample>, x: Sample) {
    forall k | 0 <= k < |held| :: held[k].t <= x.t
  }

  /** The last k + 1 samples written are the last ones of the series. */
  ghost predicate Newest(lap: seq<Sample>, xs: seq<Sample>, pos: nat, k: nat) {
    k < |lap| && k < pos <= |xs| && lap[|lap| - 1 - k..] == xs[pos - 1 - k..pos]
  }

  /**
   The samples written before the newest k + 1, of which y is the first, are older. As long as k < n, the one at which
   the disorder began is among the n oldest, stale already for y; right after the disorder only zeros come before it.
   */
  ghost predicate Older(lap: seq<Sample>, n: nat, k: nat, y: Sample, delta: int)
    requires |lap| == 2 * n && 2 <= n && k <= n + 1
  {
    && (forall j | 0 <= j < 2 * n - 1 - k && n - k <= j :: lap[j].t < y.t || (n < k && lap[j].t == y.t))
    && (k < n ==> lap[n - 1 - k].t < y.t - delta)
    && (k == 0 ==> lap[n - 1].t < lap[0].t)
  }

  /**
   A garbled ring k adds after the disorder; more than n + 1 adds are not counted. None of the newest samples is
   forgotten while a newer one has the same time.
   */
  ghost predicate GarbledSince(s: Stand, xs: seq<Sample>, from: nat, pos: nat, delta: int, k: nat)
    requires s.Garbled? && StandOk(s) && from <= pos <= |xs|
  {
    && s.g <= k <= s.n + 1 && k < pos - from
    && Newest(s.lap, xs, pos, k) && Older(s.lap, s.n, k, xs[pos - 1 - k], delta)
    && (s.g < k ==> xs[pos - 1 - s.g].t < xs[pos - 1].t)
  }

  ghost predicate Sound(s: Stand, xs: seq<Sample>, from: nat, pos: nat, delta: int)
    requires StandOk(s) && from <= pos <= |xs|
  {
    match s
    case InOrder(_, _, held, mixed) => HeldSound(held, mixed, xs, from, pos)
    case Garbled(_, _, _, _) => exists k :: GarbledSince(s, xs, from, pos, delta, k)
  }

  // ---------------------------------------------------------------- one add

  /** The first sample held is never older than the window of the last one added. */
  lemma StandFront(s: Stand, x: Sample, delta: int)
    requires StandOk(s) && delta >= 0
    ensures var held := Held(AddStand(s, x, delta)); held != [] && held[0].t >= x.t - delta
  {
    match s
    case InOrder(n, f, held, mixed) => InOrderFront(n, f, held, mixed, x, delta);
    case Garbled(n, f, lap, g) =>
      if g == n {
        InOrderFront(2 * n, f, Held(s), 2 * n, x, delta);
      } else {
        var newest := (lap[1..] + [x])[2 * n - 1 - g..];
        StaleBeforeLast(newest, x.t - delta);
        var e := Stale(newest, x.t - delta);
        hide Stale, Slot;
        assert newest[e] == (lap[1..] + [x])[2 * n - 1 - g + e];
      }
  }

  lemma InOrderFront(n: nat, f: nat, held: seq<Sample>, mixed: nat, x: Sample, delta: int)
    requires f < n && 2 <= n && mixed <= |held| <= n && delta >= 0
    ensures var h := Held(AddInOrder(n, f, held, mixed, x, delta)); h != [] && h[0].t >= x.t - delta
  {
    hide Evicted, Slot, Front, Blind;
    EvictedStops(n, f, |held| == n, held + [x], x.t - delta);
  }

  /** What the eviction loop leaves of the mixed samples is mixed: it never stops among the older ones. */
  lemma MixedStep(held: seq<Sample>, mixed: nat, a: nat, x: Sample, bound: int, e: nat)
    requires MixedAt(held, mixed, a) && e < mixed
    requires (held + [x])[e].t >= bound && (held[0].t >= bound ==> e == 0)
    ensures IsMixed((held + [x])[e..], mixed - e)
  {
    var rest := (held + [x])[e..];
    assert forall j | 0 <= j < mixed - e :: rest[j] == held[e + j];
    assert MixedAt(rest, mixed - e, a - e);
  }

  /** An add to a ring in order, or to a full one. */
  lemma InOrderAdd(n: nat, f: nat, held: seq<Sample>, mixed: nat, xs: seq<Sample>, from: nat, pos: nat, delta: int)
    requires f < n && 2 <= n && mixed <= |held| <= n && delta >= 0 && Ordered(xs) && from <= pos < |xs|
    requires HeldSound(held, mixed, xs, from, pos)
    requires held != [] ==> held[0].t >= xs[pos - 1].t - delta
    ensures Sound(AddInOrder(n, f, held, mixed, xs[pos], delta), xs, from, pos + 1, delta)
  {
    hide Evicted, NewFront, HeldSound, Newest, Older;
    var x, grow := xs[pos], |held| == n;
    var full, bound := held + [x], x.t - delta;
    var e := Evicted(n, f, grow, full, bound);
    EvictedStops(n, f, grow, full, bound);
    NotStale(n, f, grow, full, bound);
    if PastZeros(n, f, grow, e) {
      HeldStep(held, mixed, xs, from, pos, bound, e);
    } else {
      GarbledStart(n, held, mixed, xs, from, pos, delta, Blank(n - 1) + full);
      assert GarbledSince(AddInOrder(n, f, held, mixed, x, delta), xs, from, pos + 1, delta, 0);
    }
  }

  lemma NotStale(n: nat, f: nat, grow: bool, full: seq<Sample>, bound: int)
    requires Evictable(n, f, grow, full, bound)
    ensures full[0].t >= bound ==> Evicted(n, f, grow, full, bound) == 0
  {
  }

  /** What the loop leaves of a ring in order. */
  lemma HeldStep(held: seq<Sample>, mixed: nat, xs: seq<Sample>, from: nat, pos: nat, bound: int, e: nat)
    requires Ordered(xs) && from <= pos < |xs| && HeldSound(held, mixed, xs, from, pos) && e <= |held|
    requires var full := held + [xs[pos]]; full[e].t >= bound && (full[0].t >= bound ==> e == 0)
    ensures HeldSound((held + [xs[pos]])[e..], if e < mixed then mixed - e else 0, xs, from, pos + 1)
  {
    if held != [] {
      NextIsLater(xs, pos - 1);
      assert NoneAfter(held, xs[pos - 1]) && xs[pos - 1].t <= xs[pos].t;
    }
    assert NoneAfter(held, xs[pos]);
    HeldBelow(held, xs[pos], e);
    hide Ordered, NoneAfter, MixedAt;
    if e < mixed {
      var a: nat :| MixedAt(held, mixed, a);
      MixedStep(held, mixed, a, xs[pos], bound, e);
      MixedEnd(held, mixed, xs, pos, e);
    } else {
      WholeEnd(held, mixed, xs, pos, e);
    }
    hide IsMixed;
  }

  /** The part that is not mixed ends the series, if something mixed is left. */
  lemma MixedEnd(held: seq<Sample>, mixed: nat, xs: seq<Sample>, pos: nat, e: nat)
    requires e < mixed <= |held| && |held| - mixed <= pos < |xs| && held[mixed..] == xs[pos - (|held| - mixed)..pos]
    ensures (held + [xs[pos]])[e..][mixed - e..] == xs[pos - (|held| - mixed)..pos + 1]
  {
    TailStep(held, e, xs[pos]);
    TailStep(held, mixed, xs[pos]);
    PartStep(xs, pos - (|held| - mixed), pos);
    assert (held + [xs[pos]])[e..][mixed - e..] == (held + [xs[pos]])[mixed..];
  }

  lemma TailStep(s: seq<Sample>, e: nat, x: Sample)
    requires e <= |s|
    ensures (s + [x])[e..] == s[e..] + [x]
  {
  }

  lemma PartStep(xs: seq<Sample>, from: nat, p: nat)
    requires from <= p < |xs|
    ensures xs[from..p + 1] == xs[from..p] + [xs[p]]
  {
  }

  /** And if nothing is. */
  lemma WholeEnd(held: seq<Sample>, mixed: nat, xs: seq<Sample>, pos: nat, e: nat)
    requires mixed <= e <= |held| && |held| - mixed <= pos < |xs| && held[mixed..] == xs[pos - (|held| - mixed)..pos]
    ensures (held + [xs[pos]])[e..] == (held + [xs[pos]])[e..][0..] == xs[pos - (|held| - e)..pos + 1]
  {
    var q := pos - (|held| - e);
    assert held[mixed..][e - mixed..] == held[e..];
    assert held[mixed..][e - mixed..] == xs[q..pos];
    TailStep(held, e, xs[pos]);
    PartStep(xs, q, pos);
  }

  lemma HeldBelow(held: seq<Sample>, x: Sample, e: nat)
    requires e <= |held| && NoneAfter(held, x)
    ensures NoneAfter((held + [x])[e..], x)
  {
    var rest := (held + [x])[e..];
    assert forall k | 0 <= k < |rest| - 1 :: rest[k] == held[e + k];
  }

  lemma NextIsLater(xs: seq<Sample>, k: nat)
    requires Ordered(xs) && k + 1 < |xs|
    ensures xs[k].t <= xs[k + 1].t
  {
  }

  /** Right after the disorder. */
  lemma GarbledStart(n: nat, held: seq<Sample>, mixed: nat, xs: seq<Sample>, from: nat, pos: nat, delta: int,
                     lap: seq<Sample>)
    requires 2 <= n && mixed <= |held| == n && delta >= 0 && from <= pos < |xs| && HeldSound(held, mixed, xs, from, pos)
    requires held[0].t < xs[pos].t - delta <= 0 && held[0].t >= xs[pos - 1].t - delta
             && lap == Blank(n - 1) + (held + [xs[pos]])
    ensures |lap| == 2 * n && Newest(lap, xs, pos + 1, 0) && Older(lap, n, 0, xs[pos], delta)
  {
    assert NoneAfter(held, xs[pos - 1]);
    hide HeldSound;
    assert forall j | n <= j < 2 * n - 1 :: lap[j] == held[j - n + 1];
    assert lap[n - 1] == held[0] && lap[0] == Blank(n - 1)[0];
  }

  /** From the n-th add on the oldest samples are older than the newest ones. */
  lemma OldestIsOlder(s: Stand, xs: seq<Sample>, from: nat, pos: nat, delta: int, k: nat)
    requires s.Garbled? && StandOk(s) && Ordered(xs) && from <= pos <= |xs| && delta >= 0
    requires GarbledSince(s, xs, from, pos, delta, k) && s.n <= k
    ensures s.lap[0].t < xs[pos - 1].t && forall j | 0 <= j < s.n :: s.lap[j].t <= xs[pos - s.n].t
  {
    assert xs[pos - 1 - k].t <= xs[pos - s.n].t && xs[pos - 1 - k].t <= xs[pos - 1 - s.g].t;
    forall j | 0 <= j < s.n ensures s.lap[j].t <= xs[pos - s.n].t {
      if 2 * s.n - 1 - k <= j {
        NewestAt(s.lap, xs, pos, k, j);
      }
    }
    if 2 * s.n - 1 - k == 0 {
      NewestAt(s.lap, xs, pos, k, 0);
    }
    hide Ordered, Newest;
  }

  lemma NewestAt(lap: seq<Sample>, xs: seq<Sample>, pos: nat, k: nat, j: nat)
    requires Newest(lap, xs, pos, k) && |lap| - 1 - k <= j < |lap|
    ensures pos - |lap| + j >= 0 && lap[j] == xs[pos - |lap| + j]
  {
    assert lap[|lap| - 1 - k..][j - (|lap| - 1 - k)] == lap[j];
  }

  /** A garbled ring that is full holds its newest samples first and then older ones. */
  lemma GarbledFull(s: Stand, xs: seq<Sample>, from: nat, pos: nat, delta: int, k: nat)
    requires s.Garbled? && StandOk(s) && s.g == s.n && Ordered(xs) && from <= pos <= |xs| && delta >= 0
    requires GarbledSince(s, xs, from, pos, delta, k)
    ensures HeldSound(Held(s), 2 * s.n, xs, from, pos)
  {
    hide Older, Newest, Ordered, HeldSound, Held;
    OldestIsOlder(s, xs, from, pos, delta, k);
    NewestPart(s.lap, xs, pos - 1, k, s.n - 1);
    HeldFull(s);
    FullMixed(Held(s), s.lap, s.n, xs, from, pos);
  }

  lemma HeldFull(s: Stand)
    requires s.Garbled? && StandOk(s) && s.g == s.n
    ensures Held(s) == s.lap[s.n..] + s.lap[..s.n]
  {
  }

  lemma FullMixed(held: seq<Sample>, lap: seq<Sample>, n: nat, xs: seq<Sample>, from: nat, pos: nat)
    requires 2 <= n <= pos <= |xs| && from <= pos && Ordered(xs) && |lap| == 2 * n
             && held == xs[pos - n..pos] + lap[..n]
    requires lap[0].t < xs[pos - 1].t && forall j | 0 <= j < n :: lap[j].t <= xs[pos - n].t
    ensures HeldSound(held, 2 * n, xs, from, pos)
  {
    PartOrdered(xs, pos - n, pos);
    var new', old' := xs[pos - n..pos], lap[..n];
    assert new'[0] == xs[pos - n] && new'[n - 1] == xs[pos - 1];
    assert forall k | 0 <= k < n :: held[k] == new'[k];
    assert forall k | n <= k < 2 * n :: held[k] == old'[k - n] == lap[k - n];
    assert MixedAt(held, 2 * n, n);
  }

  /** An add to a garbled ring that does not grow. */
  lemma GarbledAdd(s: Stand, xs: seq<Sample>, from: nat, pos: nat, delta: int, k: nat)
    requires s.Garbled? && StandOk(s) && s.g < s.n && Ordered(xs) && from <= pos < |xs| && delta >= 0
    requires GarbledSince(s, xs, from, pos, delta, k)
    ensures var s' := AddStand(s, xs[pos], delta);
            s'.Garbled? && GarbledSince(s', xs, from, pos + 1, delta, Counted(s.n, k))
  {
    hide Newest, Older, Ordered, AddStand;
    GarbledLap(s, xs, pos, delta, k);
    NextIsLater(xs, pos - 1);
    GarbledCount(s, xs, pos, delta, k);
  }

  lemma GarbledLap(s: Stand, xs: seq<Sample>, pos: nat, delta: int, k: nat)
    requires s.Garbled? && StandOk(s) && s.g < s.n && k <= s.n + 1 && Ordered(xs) && k < pos < |xs| && delta >= 0
    requires Newest(s.lap, xs, pos, k) && Older(s.lap, s.n, k, xs[pos - 1 - k], delta)
    ensures var s', k' := AddStand(s, xs[pos], delta), Counted(s.n, k);
            && s'.Garbled? && s'.n == s.n && k' <= pos
            && Newest(s'.lap, xs, pos + 1, k') && Older(s'.lap, s.n, k', xs[pos - k'], delta)
  {
    hide Newest, Older, Ordered, Stale, AddStand;
    NewestStep(s.lap, s.n, xs, pos, k);
    OlderStep(s.lap, s.n, xs, pos, delta, k);
    GarbledNext(s, xs[pos], delta);
  }

  lemma GarbledCount(s: Stand, xs: seq<Sample>, pos: nat, delta: int, k: nat)
    requires s.Garbled? && StandOk(s) && s.g < s.n && s.g <= k <= s.n + 1 && k < pos < |xs| && delta >= 0
    requires Newest(s.lap, xs, pos, k) && (s.g < k ==> xs[pos - 1 - s.g].t < xs[pos].t)
    ensures var s' := AddStand(s, xs[pos], delta);
            s'.Garbled? && s'.g <= s.g + 1 && (s'.g <= k ==> xs[pos - s'.g].t < xs[pos].t)
  {
    hide AddStand, Newest, Stale;
    NewestHeld(s, xs, pos, delta, k);
    Forgets(xs, s.g, pos, delta, k);
  }

  lemma NewestHeld(s: Stand, xs: seq<Sample>, pos: nat, delta: int, k: nat)
    requires s.Garbled? && StandOk(s) && s.g < s.n && s.g <= k <= s.n + 1 && k < pos < |xs| && delta >= 0
    requires Newest(s.lap, xs, pos, k)
    ensures var s' := AddStand(s, xs[pos], delta);
            s'.Garbled? && s'.g == s.g + 1 - Stale(xs[pos - s.g..pos + 1], xs[pos].t - delta)
  {
    hide AddStand, Newest, Stale;
    NewestStep(s.lap, s.n, xs, pos, k);
    NewestPart(s.lap[1..] + [xs[pos]], xs, pos, Counted(s.n, k), s.g);
    GarbledNext(s, xs[pos], delta);
  }

  lemma GarbledNext(s: Stand, x: Sample, delta: int)
    requires s.Garbled? && StandOk(s) && s.g < s.n && delta >= 0
    ensures var s', e := AddStand(s, x, delta), Stale((s.lap[1..] + [x])[2 * s.n - 1 - s.g..], x.t - delta);
            s'.Garbled? && s'.n == s.n && s'.lap == s.lap[1..] + [x] && s'.g == s.g + 1 - e
  {
    hide Stale, Slot;
  }

  /** The adds since the disorder, after one more. */
  function Counted(n: nat, k: nat): nat {
    if k <= n then k + 1 else k
  }

  /** What a garbled ring forgets of its newest samples is older than the new one. */
  lemma Forgets(xs: seq<Sample>, g: nat, pos: nat, delta: int, k: nat)
    requires g <= pos < |xs| && delta >= 0
    requires g < k ==> g < pos && xs[pos - 1 - g].t < xs[pos].t
    ensures var g' := g + 1 - Stale(xs[pos - g..pos + 1], xs[pos].t - delta);
            1 <= g' && (g' <= k ==> g' <= pos && xs[pos - g'].t < xs[pos].t)
  {
    var newest := xs[pos - g..pos + 1];
    StaleBeforeLast(newest, xs[pos].t - delta);
    var e := Stale(newest, xs[pos].t - delta);
    hide Stale;
    if e > 0 {
      assert newest[e - 1] == xs[pos - 1 - (g - e)];
    }
  }

  lemma NewestPart(lap: seq<Sample>, xs: seq<Sample>, pos: nat, k: nat, g: nat)
    requires Newest(lap, xs, pos + 1, k) && g < k
    ensures g < pos && lap[|lap| - 1 - g..] == xs[pos - g..pos + 1]
  {
    assert lap[|lap| - 1 - g..] == lap[|lap| - 1 - k..][k - g..];
  }

  lemma NewestStep(lap: seq<Sample>, n: nat, xs: seq<Sample>, pos: nat, k: nat)
    requires |lap| == 2 * n && 2 <= n && k <= n + 1 && pos < |xs| && Newest(lap, xs, pos, k)
    ensures Newest(lap[1..] + [xs[pos]], xs, pos + 1, Counted(n, k))
  {
    if k <= n {
      Shifted(lap, 2 * n - 1 - k, xs, pos);
    } else {
      assert lap[n - 1..] == lap[n - 2..][1..] == xs[pos - 1 - n..pos];
      Shifted(lap, n - 1, xs, pos);
    }
  }

  lemma Shifted(lap: seq<Sample>, m: nat, xs: seq<Sample>, pos: nat)
    requires 1 <= m <= |lap| && pos < |xs| && |lap| - m <= pos && lap[m..] == xs[pos - (|lap| - m)..pos]
    ensures (lap[1..] + [xs[pos]])[m - 1..] == xs[pos - (|lap| - m)..pos + 1]
  {
    assert (lap[1..] + [xs[pos]])[m - 1..] == lap[m..] + [xs[pos]];
  }

  lemma OlderStep(lap: seq<Sample>, n: nat, xs: seq<Sample>, pos: nat, delta: int, k: nat)
    requires |lap| == 2 * n && 2 <= n && k <= n + 1 && Ordered(xs) && pos < |xs| && delta >= 0
    requires Newest(lap, xs, pos, k) && Older(lap, n, k, xs[pos - 1 - k], delta)
    ensures var k' := Counted(n, k); k' <= pos && Older(lap[1..] + [xs[pos]], n, k', xs[pos - k'], delta)
  {
    var lap' := lap[1..] + [xs[pos]];
    assert forall j | 0 <= j < 2 * n - 1 :: lap'[j] == lap[j + 1];
    NewestAt(lap, xs, pos, k, 2 * n - 1 - k);
    NextIsLater(xs, pos - 1 - k);
    hide Newest, Ordered;
  }

  // ---------------------------------------------------------------- any number of adds

  lemma {:induction false} StandSound(xs: seq<Sample>, from: nat, pos: nat, delta: int, n: nat)
    requires Ordered(xs) && from <= pos <= |xs| && delta >= 0 && n >= 2
    ensures Sound(StandAfter(xs, from, pos, delta, n), xs, from, pos, delta)
    ensures var held := Held(StandAfter(xs, from, pos, delta, n));
            if from == pos then held == [] else held != [] && held[0].t >= xs[pos - 1].t - delta
    decreases pos - from
  {
    hide AddStand, Held, HeldSound, GarbledSince;
    if from == pos {
      StandStart(xs, from, delta, n);
      EmptySound(xs, from, n, delta);
    } else {
      hide StandAfter;
      var s := StandAfter(xs, from, pos - 1, delta, n);
      StandSound(xs, from, pos - 1, delta, n);
      StandStep(xs, from, pos, delta, n);
      StandFront(s, xs[pos - 1], delta);
      AddSound(s, xs, from, pos - 1, delta);
    }
  }

  lemma EmptySound(xs: seq<Sample>, pos: nat, n: nat, delta: int)
    requires pos <= |xs| && n >= 2
    ensures Sound(InOrder(n, 0, [], 0), xs, pos, pos, delta) && Held(InOrder(n, 0, [], 0)) == []
  {
  }

  lemma AddSound(s: Stand, xs: seq<Sample>, from: nat, pos: nat, delta: int)
    requires StandOk(s) && Ordered(xs) && from <= pos < |xs| && delta >= 0 && Sound(s, xs, from, pos, delta)
    requires Held(s) != [] ==> from < pos && Held(s)[0].t >= xs[pos - 1].t - delta
    ensures Sound(AddStand(s, xs[pos], delta), xs, from, pos + 1, delta)
  {
    hide AddInOrder, HeldSound, GarbledSince;
    match s
    case InOrder(n, f, held, mixed) => InOrderAdd(n, f, held, mixed, xs, from, pos, delta);
    case Garbled(n, f, lap, g) =>
      var k :| GarbledSince(s, xs, from, pos, delta, k);
      if g == n {
        GarbledFull(s, xs, from, pos, delta, k);
        InOrderAdd(2 * n, f, Held(s), 2 * n, xs, from, pos, delta);
      } else {
        GarbledAdd(s, xs, from, pos, delta, k);
      }
  }

  lemma GarbledUnordered(s: Stand, xs: seq<Sample>, from: nat, pos: nat, delta: int, k: nat)
    requires s.Garbled? && StandOk(s) && Ordered(xs) && from <= pos <= |xs| && delta >= 0
    requires GarbledSince(s, xs, from, pos, delta, k) && Held(s)[0].t >= xs[pos - 1].t - delta
    ensures !Ordered(Held(s))
  {
    hide Ordered, GarbledSince, Held;
    GarbledParts(s, xs, from, pos, delta, k);
    if s.n <= k {
      OldestLast(s, xs[pos - 1]);
    } else if s.g == 0 {
      ZeroFirst(s);
    } else {
      StaleLater(s, s.n - 1 - k, xs[pos - 1], delta);
    }
  }

  lemma OldestLast(s: Stand, x: Sample)
    requires s.Garbled? && StandOk(s) && 0 < s.g && s.lap[0].t < x.t && s.lap[2 * s.n - 1] == x
    ensures !Ordered(Held(s))
  {
    HeldOldest(s, 0);
    HeldNewest(s);
    hide Held, Ordered;
    NotOrdered(Held(s), s.g - 1, s.g);
  }

  lemma StaleLater(s: Stand, j: nat, x: Sample, delta: int)
    requires s.Garbled? && StandOk(s) && j < s.n && 0 < s.g && s.lap[j].t < x.t - delta <= Held(s)[0].t
    ensures !Ordered(Held(s))
  {
    HeldOldest(s, j);
    hide Held, Ordered, StandOk;
    NotOrdered(Held(s), 0, s.g + j);
  }

  lemma ZeroFirst(s: Stand)
    requires s.Garbled? && StandOk(s) && s.g == 0 && s.lap[s.n - 1].t < s.lap[0].t
    ensures !Ordered(Held(s))
  {
    HeldOldest(s, 0);
    HeldOldest(s, s.n - 1);
    hide Held, Ordered;
    NotOrdered(Held(s), 0, s.n - 1);
  }

  /** The stale sample of the disorder is older than all that is held in front of it; later the oldest one is. */
  lemma GarbledParts(s: Stand, xs: seq<Sample>, from: nat, pos: nat, delta: int, k: nat)
    requires s.Garbled? && StandOk(s) && Ordered(xs) && from <= pos <= |xs| && delta >= 0
    requires GarbledSince(s, xs, from, pos, delta, k)
    ensures s.g <= k < pos && (k < s.n ==> s.lap[s.n - 1 - k].t < xs[pos - 1].t - delta)
    ensures s.g == 0 ==> s.lap[s.n - 1].t < s.lap[0].t
    ensures s.n <= k ==> 0 < s.g && s.lap[0].t < xs[pos - 1].t && s.lap[2 * s.n - 1] == xs[pos - 1]
  {
    assert xs[pos - 1 - k].t <= xs[pos - 1].t;
    if s.n <= k {
      OldestIsOlder(s, xs, from, pos, delta, k);
      NewestAt(s.lap, xs, pos, k, 2 * s.n - 1);
    }
    hide Ordered, Newest;
  }

  lemma HeldOldest(s: Stand, j: nat)
    requires s.Garbled? && StandOk(s) && j < s.n
    ensures |Held(s)| == s.g + s.n && Held(s)[s.g + j] == s.lap[j]
  {
  }

  lemma HeldNewest(s: Stand)
    requires s.Garbled? && StandOk(s) && s.g > 0
    ensures |Held(s)| == s.g + s.n && Held(s)[s.g - 1] == s.lap[2 * s.n - 1]
  {
  }

  lemma NotOrdered(s: seq<Sample>, i: nat, j: nat)
    requires i < j < |s| && s[j].t < s[i].t
    ensures !Ordered(s)
  {
  }

  lemma PartOrdered(xs: seq<Sample>, a: nat, b: nat)
    requires Ordered(xs) && a <= b <= |xs|
    ensures Ordered(xs[a..b])
  {
  }

  lemma OrderedWhole(held: seq<Sample>, mixed: nat, xs: seq<Sample>, from: nat, pos: nat)
    requires Ordered(xs) && from <= pos <= |xs| && HeldSound(held, mixed, xs, from, pos)
    ensures Ordered(held) <==> mixed == 0
    ensures mixed == 0 ==> |held| <= pos - from && held == xs[pos - |held|..pos]
  {
    hide Ordered, NoneAfter;
    if mixed > 0 {
      var a: nat :| MixedAt(held, mixed, a);
      NotOrdered(held, a - 1, a);
    } else {
      assert held[0..] == held;
      PartOrdered(xs, pos - |held|, pos);
    }
  }

  /**
   What a ring holds is in time order if and only if the ring is in order and holds nothing that a garbled ring left;
   then it is the last samples of the series.
   */
  lemma OrderedIff(xs: seq<Sample>, from: nat, pos: nat, delta: int, n: nat)
    requires Ordered(xs) && from <= pos <= |xs| && delta >= 0 && n >= 2
    ensures var s := StandAfter(xs, from, pos, delta, n);
            && (Ordered(Held(s)) <==> s.InOrder? && s.mixed == 0)
            && (Ordered(Held(s)) ==> |Held(s)| <= pos - from && Held(s) == xs[pos - |Held(s)|..pos])
  {
    hide StandAfter, GarbledSince, HeldSound, Ordered;
    StandSound(xs, from, pos, delta, n);
    var s := StandAfter(xs, from, pos, delta, n);
    match s
    case InOrder(_, _, held, mixed) => OrderedWhole(held, mixed, xs, from, pos);
    case Garbled(_, _, _, _) =>
      var k :| GarbledSince(s, xs, from, pos, delta, k);
      GarbledUnordered(s, xs, from, pos, delta, k);
  }
}
