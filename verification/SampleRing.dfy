/**
 sampleRing of pkg/tsdb/tsdbutil/buffer.go: a ring buffer that grows, and forgets what is older than the newest time
 minus delta.
 */
module SampleRing {
  import opened Bits
  import Codec = XorCodec

  type Sample = Codec.Sample

  const ZERO: Sample := Codec.Sample(0, 0)

  // ---------------------------------------------------------------- the queue it should be

  /** How many samples at the front are older than the bound. */
  function Stale(s: seq<Sample>, bound: int): (n: nat)
    ensures n <= |s|
    ensures forall k | 0 <= k < n :: s[k].t < bound
    ensures n < |s| ==> s[n].t >= bound
  {
    if s == [] || s[0].t >= bound then 0 else 1 + Stale(s[1..], bound)
  }

  /** The queue after an add: the sample at the end, the stale ones gone from the front. */
  function Pushed(s: seq<Sample>, x: Sample, delta: int): seq<Sample> {
    (s + [x])[Stale(s + [x], x.t - delta)..]
  }

  /** The queue after any number of adds since the last reset. */
  function PushAll(xs: seq<Sample>, delta: int): seq<Sample> {
    if xs == [] then [] else Pushed(PushAll(xs[..|xs| - 1], delta), xs[|xs| - 1], delta)
  }

  ghost predicate Ordered(xs: seq<Sample>) {
    forall i, j | 0 <= i < j < |xs| :: xs[i].t <= xs[j].t
  }

  /** Dropping what an earlier bound made stale does not change what a later bound leaves. */
  lemma {:induction false} StaleSuffix(s: seq<Sample>, a: nat, bound: int)
    requires a <= |s| && forall k | 0 <= k < a :: s[k].t < bound
    ensures Stale(s, bound) == a + Stale(s[a..], bound)
  {
    if a > 0 {
      StaleSuffix(s[1..], a - 1, bound);
      assert s[1..][a - 1..] == s[a..];
    }
  }

  lemma {:induction false} QueueIsSuffix(xs: seq<Sample>, delta: int)
    requires Ordered(xs) && xs != []
    ensures PushAll(xs, delta) == xs[Stale(xs, xs[|xs| - 1].t - delta)..]
  {
    var before, x := xs[..|xs| - 1], xs[|xs| - 1];
    if before != [] {
      QueueIsSuffix(before, delta);
      PushedOntoSuffix(xs, Stale(before, before[|before| - 1].t - delta), delta);
    } else {
      assert PushAll(before, delta) == [];
      assert [] + [x] == xs;
    }
  }

  lemma PushedOntoSuffix(xs: seq<Sample>, a: nat, delta: int)
    requires xs != [] && a < |xs|
    requires forall k | 0 <= k < a :: xs[k].t < xs[|xs| - 1].t - delta
    ensures Pushed(xs[..|xs| - 1][a..], xs[|xs| - 1], delta) == xs[Stale(xs, xs[|xs| - 1].t - delta)..]
  {
    hide Stale, Pushed;
    var x, bound := xs[|xs| - 1], xs[|xs| - 1].t - delta;
    StaleSuffix(xs, a, bound);
    PushedAs(xs[..|xs| - 1][a..], x, delta, xs[a..]);
  }

  lemma PushedAs(s: seq<Sample>, x: Sample, delta: int, full: seq<Sample>)
    requires s + [x] == full
    ensures Stale(full, x.t - delta) <= |full| && Pushed(s, x, delta) == full[Stale(full, x.t - delta)..]
  {
  }

  /** For samples added in time order, the queue holds exactly the samples of the window that ends with the newest. */
  lemma QueueIsWindow(xs: seq<Sample>, delta: int)
    requires Ordered(xs) && xs != []
    ensures var kept := |xs| - |PushAll(xs, delta)|;
            && 0 <= kept && PushAll(xs, delta) == xs[kept..]
            && forall k | 0 <= k < |xs| :: k >= kept <==> xs[k].t >= xs[|xs| - 1].t - delta
  {
    QueueIsSuffix(xs, delta);
    hide PushAll;
    var kept := Stale(xs, xs[|xs| - 1].t - delta);
    forall k | kept <= k < |xs| ensures xs[k].t >= xs[|xs| - 1].t - delta {
      assert xs[kept].t <= xs[k].t;
    }
  }

  // ---------------------------------------------------------------- the ring

  /** Position k of a ring that starts at f, in a buffer of n slots. */
  function Slot(f: nat, k: nat, n: nat): int {
    if f + k >= n then f + k - n else f + k
  }

  /** The l samples from f on, around the end of the buffer. */
  ghost function Window(b: seq<Sample>, f: nat, l: nat): (s: seq<Sample>)
    requires f < |b| && l <= |b|
    ensures |s| == l
  {
    seq(l, k requires 0 <= k < l => b[Slot(f, k, |b|)])
  }

  /** The buffer after growing: the old part from f on moves to the end, the zero value of Go fills the middle. */
  ghost function Grown(b: seq<Sample>, f: nat): (g: seq<Sample>)
    requires f < |b|
    ensures |g| == 2 * |b|
  {
    b[..f] + seq(|b|, k => ZERO) + b[f..]
  }

  /**
   Where the eviction loop stands after e steps when the call has grown the ring from n slots: the loop wraps
   around at the old length.
   */
  function Front(n: nat, f: nat, e: nat): int {
    if e == 0 then n + f
    else if f == n - 1 && e == 1 then n
    else Slot(f, e, n)
  }

  /** The steps the loop takes over zeros before it reaches samples again. */
  function Blind(n: nat, f: nat): int {
    if f == n - 1 then 2 else n - f
  }

  /** The calls of add that do what they should: e is the number of stale samples, `grow` whether the ring was full. */
  predicate AddIsSound(n: nat, f: nat, grow: bool, e: nat, bound: int) {
    !grow || e == 0 || (bound > 0 && e >= Blind(n, f))
  }

  lemma StepFront(n: nat, f: nat, e: nat)
    requires f < n && 2 <= n && e < n
    ensures Front(n, f, e + 1) == if Front(n, f, e) + 1 >= n then Front(n, f, e) + 1 - n else Front(n, f, e) + 1
    ensures 0 <= Front(n, f, e) < 2 * n
  {
  }

  lemma SlotIsModulo(f: nat, k: nat, n: nat)
    requires f < n && k < n
    ensures (f + k) % n == Slot(f, k, n)
  {
    if f + k >= n {
      DivModUnique(1, f + k - n, n);
    } else {
      DivModUnique(0, f + k, n);
    }
  }

  /** Growing keeps the samples in order. */
  lemma GrownWindow(b: seq<Sample>, f: nat, x: Sample)
    requires f < |b|
    ensures var g := Grown(b, f)[f := x]; Window(g, |b| + f, |b| + 1) == Window(b, f, |b|) + [x]
  {
  }

  /** What the loop sees after e steps, with `full` the queue before eviction. */
  lemma SampleAtFront(b: seq<Sample>, f: nat, x: Sample, e: nat)
    requires f < |b| && e <= |b| && (e > 0 ==> |b| >= 2)
    ensures var n := |b|;
            var g := Grown(b, f)[f := x];
            var full := Window(b, f, n) + [x];
            && 0 <= Front(n, f, e) < 2 * n
            && g[Front(n, f, e)] == (if 0 < e < Blind(n, f) then ZERO else full[e])
            && (e == n ==> g[Front(n, f, e)] == x)
  {
  }

  lemma WindowAfter(b: seq<Sample>, f: nat, x: Sample, e: nat)
    requires f < |b| && e <= |b| && (e > 0 ==> |b| >= 2) && (e == 0 || e >= Blind(|b|, f))
    ensures var n := |b|;
            var g := Grown(b, f)[f := x];
            && 0 <= Front(n, f, e) < 2 * n
            && Window(g, Front(n, f, e), n + 1 - e) == (Window(b, f, n) + [x])[e..]
  {
  }

  /** What the loop of add may be run on: it stops at the newest sample at the latest. */
  predicate Evictable(n: nat, f: nat, grow: bool, full: seq<Sample>, bound: int) {
    && f < n && full != [] && full[|full| - 1].t >= bound
    && if grow then |full| == n + 1 && (n >= 2 || full[0].t >= bound) else |full| <= n
  }

  /**
   How many samples the eviction loop of add drops from the queue `full` that ends with the new one. In a ring that has
   just grown it goes on over the zeros if the bound is positive, and else stops at the first of them.
   */
  function Evicted(n: nat, f: nat, grow: bool, full: seq<Sample>, bound: int): (e: nat)
    requires Evictable(n, f, grow, full, bound)
    ensures e < |full|
  {
    var stale := Stale(full, bound);
    if !grow || stale == 0 then stale
    else if bound <= 0 then 1
    else Blind(n, f) + Stale(full[Blind(n, f)..], bound)
  }

  /** Where the ring starts after the loop. */
  function NewFront(n: nat, f: nat, grow: bool, e: nat): int {
    if grow then Front(n, f, e) else Slot(f, e, n)
  }

  /** The loop did not stop among the zeros. */
  predicate PastZeros(n: nat, f: nat, grow: bool, e: nat) {
    !grow || e == 0 || e >= Blind(n, f)
  }

  /**
   What add makes of the queue `full` that ends with the new sample: where the ring starts, how long it is, and the rest
   of the queue; or a ring in disorder, if the loop stopped among the zeros.
   */
  ghost predicate AddResult(n: nat, f: nat, grow: bool, full: seq<Sample>, bound: int, tidy: bool, after: seq<Sample>,
                            front: int) {
    && Evictable(n, f, grow, full, bound)
    && var e := Evicted(n, f, grow, full, bound);
    && |after| == |full| - e && front == NewFront(n, f, grow, e)
    && if PastZeros(n, f, grow, e) then tidy && after == full[e..] else !tidy && after[|after| - 1] == full[0]
  }

  /** An add does what the queue does if and only if it is sound. */
  lemma AddIff(n: nat, f: nat, grow: bool, before: seq<Sample>, x: Sample, delta: int, tidy: bool, after: seq<Sample>,
               front: int)
    requires AddResult(n, f, grow, before + [x], x.t - delta, tidy, after, front)
    ensures AddIsSound(n, f, grow, Stale(before + [x], x.t - delta), x.t - delta)
            <==> tidy && after == Pushed(before, x, delta)
  {
    var full := before + [x];
    var e := Evicted(n, f, grow, full, x.t - delta);
    EvictedSoundly(n, f, grow, full, x.t - delta);
    PushedAs(before, x, delta, full);
    hide Stale, AddIsSound, Evicted, Evictable, Pushed, Front, Slot, PastZeros;
    assert |full[e..]| == |full| - e;
  }

  /**
   Sound calls drop exactly the stale samples; the others drop more if the bound is positive, and else stop at a zero.
   */
  lemma EvictedSoundly(n: nat, f: nat, grow: bool, full: seq<Sample>, bound: int)
    requires Evictable(n, f, grow, full, bound)
    ensures var e, stale := Evicted(n, f, grow, full, bound), Stale(full, bound);
            if AddIsSound(n, f, grow, stale, bound) then e == stale && PastZeros(n, f, grow, e)
            else if bound > 0 then e > stale && PastZeros(n, f, grow, e)
            else !PastZeros(n, f, grow, e)
  {
    var stale := Stale(full, bound);
    if grow && stale > 0 && stale >= Blind(n, f) {
      StaleSuffix(full, Blind(n, f), bound);
    }
  }

  /** Past the zeros the loop stops at a sample that is not stale, and else at the first zero. */
  lemma EvictedStops(n: nat, f: nat, grow: bool, full: seq<Sample>, bound: int)
    requires Evictable(n, f, grow, full, bound)
    ensures var e := Evicted(n, f, grow, full, bound);
            if PastZeros(n, f, grow, e) then full[e].t >= bound else e == 1 && full[0].t < bound <= 0
    ensures !grow ==> Evicted(n, f, grow, full, bound) == Stale(full, bound)
  {
    var e := Evicted(n, f, grow, full, bound);
    if grow && Stale(full, bound) > 0 && bound > 0 {
      assert full[Blind(n, f)..][e - Blind(n, f)] == full[e];
    }
  }

  /** The newest sample is the last of the window. */
  predicate Tidy(n: nat, i: int, f: nat, l: int) {
    && f < n && 0 <= l <= n && -1 <= i < n
    && if l == 0 then (if i + 1 == n then 0 else i + 1) == f else i == Slot(f, l - 1, n)
  }

  /** Where the loop stops in a ring that has grown. */
  lemma GrownOutcome(b: seq<Sample>, f: nat, x: Sample, bound: int, e: nat)
    requires f < |b| && e <= |b| && (e >= 1 ==> |b| >= 2) && x.t >= bound
    requires var full := Window(b, f, |b|) + [x];
             && (e >= 1 ==> full[0].t < bound) && (e >= 2 ==> bound > 0)
             && (forall k | Blind(|b|, f) <= k < e :: full[k].t < bound)
    requires 0 <= Front(|b|, f, e) < 2 * |b| && Grown(b, f)[f := x][Front(|b|, f, e)].t >= bound
    ensures var full := Window(b, f, |b|) + [x];
            Evictable(|b|, f, true, full, bound) && e == Evicted(|b|, f, true, full, bound)
  {
    SampleAtFront(b, f, x, e);
    var full, blind := Window(b, f, |b|) + [x], Blind(|b|, f);
    hide Grown, Window, Front, Slot;
    if e >= 1 && bound > 0 {
      assert e >= blind;
      hide Blind;
    }
  }

  /** The newest sample is at the end of the window, or the ring is in disorder. */
  lemma TidyAfterGrowing(n: nat, f: nat, e: nat)
    requires f < n && e <= n && (e >= 1 ==> n >= 2)
    ensures 0 <= Front(n, f, e) < 2 * n
    ensures Tidy(2 * n, f, Front(n, f, e), n + 1 - e) <==> e == 0 || e >= Blind(n, f)
  {
  }

  /** One turn of the loop in a ring that has not grown. */
  lemma WindowStep(b: seq<Sample>, f: nat, l: nat)
    requires f < |b| && 1 <= l <= |b|
    ensures 0 <= Slot(f, 1, |b|) < |b| && Window(b, Slot(f, 1, |b|), l - 1) == Window(b, f, l)[1..]
    ensures Window(b, f, l)[0] == b[f]
  {
  }

  lemma PlaceInWindow(b: seq<Sample>, f: nat, l: nat, x: Sample)
    requires f < |b| && l < |b|
    ensures 0 <= Slot(f, l, |b|) < |b| && Window(b[Slot(f, l, |b|) := x], f, l + 1) == Window(b, f, l) + [x]
  {
  }

  /** The number of stale samples is where the loop stops. */
  lemma StaleIs(s: seq<Sample>, bound: int, n: nat)
    requires n <= |s| && (forall k | 0 <= k < n :: s[k].t < bound) && (n < |s| ==> s[n].t >= bound)
    ensures Stale(s, bound) == n
  {
  }

  /**
   The eviction loop of an add of x to the ring b0, f0, l0, after e turns: the buffer is b, and the ring stands at f
   with l samples.
   */
  ghost predicate Evicting(b0: seq<Sample>, f0: nat, l0: nat, x: Sample, bound: int, b: seq<Sample>, f: nat, l: nat,
                           e: nat)
    requires f0 < |b0| && l0 <= |b0|
  {
    var n, full := |b0|, Window(b0, f0, l0) + [x];
    && f < |b| && e + l == l0 + 1 && 1 <= l <= |b|
    && if l0 < n then
         && |b| == n && f == Slot(f0, e, n) && Window(b, f, l) == full[e..]
         && forall k | 0 <= k < e :: full[k].t < bound
       else
         && b == Grown(b0, f0)[f0 := x] && f == Front(n, f0, e)
         && (e >= 1 ==> n >= 2 && full[0].t < bound)
         && (e >= 2 ==> bound > 0)
         && forall k | Blind(n, f0) <= k < e :: full[k].t < bound
  }

  lemma EvictingStep(b0: seq<Sample>, f0: nat, l0: nat, x: Sample, bound: int, b: seq<Sample>, f: nat, l: nat, e: nat)
    requires f0 < |b0| && l0 <= |b0| && Evicting(b0, f0, l0, x, bound, b, f, l, e)
    requires b[f].t < bound <= x.t && (|b0| > 1 || l0 != 1 || b0[f0].t >= bound)
    ensures var f' := if f + 1 >= |b0| then f + 1 - |b0| else f + 1;
            l >= 2 && f' >= 0 && Evicting(b0, f0, l0, x, bound, b, f', l - 1, e + 1)
  {
    hide Window, Grown, Front;
    if l0 < |b0| {
      WindowStep(b, f, l);
    } else {
      WindowFirst(b0, f0, l0);
      SampleAtFront(b0, f0, x, e);
      StepFront(|b0|, f0, e);
    }
  }

  /** The turns left until the loop meets the new sample at i. */
  function TurnsLeft(n: nat, grow: bool, i: int, f: int, e: int): int {
    if grow then n - e else if f <= i then i - f else i - f + n
  }

  /** What holds of the loop in any ring, in order or not: it runs towards the new sample. */
  ghost predicate Drifting(b0: seq<Sample>, f0: nat, l0: int, x: Sample, b: seq<Sample>, i: int, f: nat, l: int,
                           e: nat) {
    var n := |b0|;
    && f0 < n && l0 <= n && f < |b| && l == l0 + 1 - e && l <= |b| && 0 <= i < |b| && b[i] == x
    && if l0 < n then |b| == n
       else b == Grown(b0, f0)[f0 := x] && i == f0 && f == Front(n, f0, e) && e <= n && (e >= 1 ==> n >= 2)
  }

  lemma DriftingInRange(b0: seq<Sample>, f0: nat, l0: int, x: Sample, b: seq<Sample>, i: int, f: nat, l: int, e: nat)
    requires Drifting(b0, f0, l0, x, b, i, f, l, e)
    ensures f < |b| && 0 <= i < |b| && l <= |b| && |b| == if l0 < |b0| then |b0| else 2 * |b0|
  {
  }

  lemma DriftingNewest(b0: seq<Sample>, f0: nat, l0: int, x: Sample, b: seq<Sample>, i: int, f: nat, l: int, e: nat)
    requires Drifting(b0, f0, l0, x, b, i, f, l, e)
    ensures 0 <= i < |b| && b[i] == x && l == l0 + 1 - e
  {
  }

  lemma DriftingStep(b0: seq<Sample>, f0: nat, l0: int, x: Sample, bound: int, b: seq<Sample>, i: int, f: nat, l: int,
                     e: nat)
    requires Drifting(b0, f0, l0, x, b, i, f, l, e)
    requires b[f].t < bound <= x.t && (|b0| > 1 || l0 != 1 || b0[f0].t >= bound)
    ensures var f' := if f + 1 >= |b0| then f + 1 - |b0| else f + 1;
            && f' >= 0 && Drifting(b0, f0, l0, x, b, i, f', l - 1, e + 1)
            && 0 <= TurnsLeft(|b0|, l0 == |b0|, i, f', e + 1) < TurnsLeft(|b0|, l0 == |b0|, i, f, e)
  {
    hide Window, Grown, Front;
    if l0 == |b0| {
      WindowFirst(b0, f0, l0);
      SampleAtFront(b0, f0, x, e);
      StepFront(|b0|, f0, e);
    }
  }

  lemma EvictingEnd(b0: seq<Sample>, f0: nat, l0: nat, x: Sample, bound: int, b: seq<Sample>, f: nat, l: nat, e: nat)
    requires f0 < |b0| && l0 <= |b0| && Evicting(b0, f0, l0, x, bound, b, f, l, e)
    requires f < |b| && l <= |b| && b[f].t >= bound && x.t >= bound
    ensures var full := Window(b0, f0, l0) + [x];
            var tidy := Tidy(|b|, if l0 < |b0| then Slot(f0, l0, |b0|) else f0, f, l);
            AddResult(|b0|, f0, l0 == |b0|, full, bound, tidy, Window(b, f, l), f)
  {
    hide AddResult, Evicting;
    if l0 < |b0| {
      EvictingEndInPlace(b0, f0, l0, x, bound, b, f, l, e);
    } else {
      EvictingEndGrown(b0, f0, x, bound, b, f, l, e);
    }
  }

  lemma AddEnd(b0: seq<Sample>, f0: nat, l0: nat, x: Sample, bound: int, b: seq<Sample>, i: int, f: nat, l: nat, e: nat)
    requires f0 < |b0| && l0 <= |b0| && Evicting(b0, f0, l0, x, bound, b, f, l, e)
    requires f < |b| && l <= |b| && b[f].t >= bound && x.t >= bound
    requires i == if l0 < |b0| then Slot(f0, l0, |b0|) else f0
    ensures AddResult(|b0|, f0, l0 == |b0|, Window(b0, f0, l0) + [x], bound, Tidy(|b|, i, f, l), Window(b, f, l), f)
  {
    hide AddResult, Evicting, Tidy, Window;
    EvictingEnd(b0, f0, l0, x, bound, b, f, l, e);
  }

  lemma EvictingEndInPlace(b0: seq<Sample>, f0: nat, l0: nat, x: Sample, bound: int, b: seq<Sample>, f: nat, l: nat,
                           e: nat)
    requires f0 < |b0| && l0 < |b0| && Evicting(b0, f0, l0, x, bound, b, f, l, e)
    requires f < |b| && l <= |b| && b[f].t >= bound && x.t >= bound
    ensures 0 <= Slot(f0, l0, |b0|)
    ensures AddResult(|b0|, f0, false, Window(b0, f0, l0) + [x], bound, Tidy(|b|, Slot(f0, l0, |b0|), f, l),
                      Window(b, f, l), f)
  {
    var full := Window(b0, f0, l0) + [x];
    hide Window, Slot, Stale, AddIsSound, Tidy;
    WindowFirst(b, f, l);
    StaleIs(full, bound, e);
  }

  lemma EvictingEndGrown(b0: seq<Sample>, f0: nat, x: Sample, bound: int, b: seq<Sample>, f: nat, l: nat, e: nat)
    requires f0 < |b0| && Evicting(b0, f0, |b0|, x, bound, b, f, l, e)
    requires f < |b| && l <= |b| && b[f].t >= bound && x.t >= bound
    ensures AddResult(|b0|, f0, true, Window(b0, f0, |b0|) + [x], bound, Tidy(|b|, f0, f, l), Window(b, f, l), f)
  {
    hide Window, Grown, Front, Blind, Stale, AddIsSound, Tidy, Evicted;
    GrownOutcome(b0, f0, x, bound, e);
    EvictedStops(|b0|, f0, true, Window(b0, f0, |b0|) + [x], bound);
    TidyAfterGrowing(|b0|, f0, e);
    if e == 0 || e >= Blind(|b0|, f0) {
      WindowAfter(b0, f0, x, e);
    } else {
      WindowAmongZeros(b0, f0, x);
    }
  }

  /** A loop that stops at the first zero leaves the sample it just dropped at the end of the ring. */
  lemma WindowAmongZeros(b: seq<Sample>, f: nat, x: Sample)
    requires f < |b| && |b| >= 2
    ensures var g := Grown(b, f)[f := x];
            && 0 <= Front(|b|, f, 1) < 2 * |b|
            && Window(g, Front(|b|, f, 1), |b|)[|b| - 1] == Window(b, f, |b|)[0] == (Window(b, f, |b|) + [x])[0]
  {
  }

  lemma WindowFirst(b: seq<Sample>, f: nat, l: nat)
    requires f < |b| && 1 <= l <= |b|
    ensures Window(b, f, l)[0] == b[f]
  {
  }

  // ---------------------------------------------------------------- the whole circle

  /** The slot after i. */
  function After(i: int, n: nat): int {
    if i + 1 >= n then i + 1 - n else i + 1
  }

  /** All slots in the order in which they were written, the newest sample in slot i at the end. */
  ghost function Lap(b: seq<Sample>, i: int): (s: seq<Sample>)
    requires -1 <= i < |b| && b != []
    ensures |s| == |b|
  {
    Window(b, After(i, |b|), |b|)
  }

  function Blank(n: nat): (s: seq<Sample>)
    ensures |s| == n && forall k | 0 <= k < n :: s[k] == ZERO
  {
    seq(n, k => ZERO)
  }

  /** A write that does not grow the ring takes the place of the oldest one. */
  lemma LapWritten(b: seq<Sample>, i: int, x: Sample)
    requires -1 <= i < |b| && b != []
    ensures var i' := After(i, |b|);
            0 <= i' < |b| && Lap(b[i' := x], i') == Lap(b, i)[1..] + [x]
  {
  }

  /** Growing writes the zeros first, and then the queue in order. */
  lemma LapGrown(b: seq<Sample>, f: nat, x: Sample)
    requires f < |b|
    ensures Lap(Grown(b, f)[f := x], f) == Blank(|b| - 1) + (Window(b, f, |b|) + [x])
  {
  }

  /** The circle from f on, when the newest sample ends the first g of it. */
  lemma CircleFrom(b: seq<Sample>, i: int, f: nat, g: nat)
    requires -1 <= i < |b| && f < |b| && g < |b| && After(i, |b|) == Slot(f, g, |b|)
    ensures Window(b, f, |b|) == Lap(b, i)[|b| - g..] + Lap(b, i)[..|b| - g]
  {
  }

  lemma WindowPrefix(b: seq<Sample>, f: nat, l: nat)
    requires f < |b| && l <= |b|
    ensures Window(b, f, l) == Window(b, f, |b|)[..l]
  {
  }

  /** Where the loop of an add that does not grow the ring stops, in order or not. */
  ghost predicate InPlace(b: seq<Sample>, f0: nat, l0: int, bound: int, f: nat, l: int) {
    && f0 < |b|
    && var e := Stale(Window(b, f0, |b|), bound);
    e < |b| && f == Slot(f0, e, |b|) && l == l0 + 1 - e
  }

  /** The turns of that loop so far. */
  ghost predicate Circling(b: seq<Sample>, f0: nat, bound: int, f: nat, e: nat) {
    && f0 < |b| && e < |b| && f == Slot(f0, e, |b|)
    && forall k | 0 <= k < e :: Window(b, f0, |b|)[k].t < bound
  }

  lemma CirclingStep(b: seq<Sample>, f0: nat, bound: int, f: nat, e: nat, i: nat)
    requires Circling(b, f0, bound, f, e) && f < |b| && i < |b| && b[f].t < bound <= b[i].t
    ensures var f' := After(f, |b|); f' >= 0 && Circling(b, f0, bound, f', e + 1)
  {
    var r := if i >= f0 then i - f0 else i - f0 + |b|;
    assert Window(b, f0, |b|)[r] == b[i];
    assert Window(b, f0, |b|)[e] == b[f];
  }

  lemma CirclingEnd(b: seq<Sample>, f0: nat, l0: int, bound: int, f: nat, l: int, e: nat)
    requires Circling(b, f0, bound, f, e) && f < |b| && b[f].t >= bound && l == l0 + 1 - e
    ensures InPlace(b, f0, l0, bound, f, l)
  {
    assert Window(b, f0, |b|)[e] == b[f];
    StaleIs(Window(b, f0, |b|), bound, e);
  }

  /**
   The loop of an add after e turns: in any ring, in one that is in order or has grown, and in one that has not grown.
   */
  ghost predicate Turning(b0: seq<Sample>, f0: nat, l0: int, x: Sample, bound: int, b: seq<Sample>, i: int, f: nat,
                          l: int, e: nat, tidy: bool) {
    && Drifting(b0, f0, l0, x, b, i, f, l, e)
    && (tidy ==> 0 <= l0 <= |b0| && f0 < |b0| && l >= 0 && Evicting(b0, f0, l0, x, bound, b, f, l, e))
    && (tidy ==> i == if l0 < |b0| then Slot(f0, l0, |b0|) else f0)
    && (l0 < |b0| ==> Circling(b, f0, bound, f, e))
  }

  lemma TurningStart(b0: seq<Sample>, f0: nat, l0: int, x: Sample, bound: int, b: seq<Sample>, i: int, f: nat, l: int,
                     tidy: bool)
    requires Drifting(b0, f0, l0, x, b, i, f, l, 0)
    requires tidy ==> 0 <= l0 <= |b0| && f0 < |b0| && l >= 0 && Evicting(b0, f0, l0, x, bound, b, f, l, 0)
    requires tidy ==> i == if l0 < |b0| then Slot(f0, l0, |b0|) else f0
    requires l0 < |b0| ==> f == f0
    ensures f < |b| && Turning(b0, f0, l0, x, bound, b, i, f, l, 0, tidy)
  {
    assert f < |b| ==> (Circling(b, f, bound, f, 0));
    hide Evicting, Window, Circling;
    if l0 < |b0| {
    }
  }

  lemma TurningStep(b0: seq<Sample>, f0: nat, l0: int, x: Sample, bound: int, b: seq<Sample>, i: int, f: nat, l: int,
                    e: nat, tidy: bool)
    requires Turning(b0, f0, l0, x, bound, b, i, f, l, e, tidy) && f < |b|
    requires b[f].t < bound <= x.t && (|b0| > 1 || l0 != 1 || b0[f0].t >= bound)
    ensures var f' := if f + 1 >= |b0| then f + 1 - |b0| else f + 1;
            && 0 <= f' < |b| && Turning(b0, f0, l0, x, bound, b, i, f', l - 1, e + 1, tidy)
            && 0 <= TurnsLeft(|b0|, l0 == |b0|, i, f', e + 1) < TurnsLeft(|b0|, l0 == |b0|, i, f, e)
  {
    hide Evicting, Drifting, Circling, Window, TurnsLeft, Slot;
    DriftingStep(b0, f0, l0, x, bound, b, i, f, l, e);
    var f' := if f + 1 >= |b0| then f + 1 - |b0| else f + 1;
    DriftingInRange(b0, f0, l0, x, b, i, f, l, e);
    DriftingInRange(b0, f0, l0, x, b, i, f', l - 1, e + 1);
    if tidy {
      EvictingStep(b0, f0, l0, x, bound, b, f, l, e);
    }
    if l0 < |b0| {
      DriftingNewest(b0, f0, l0, x, b, i, f, l, e);
      CirclingStep(b, f0, bound, f, e, i);
    }
  }

  lemma TurningEnd(b0: seq<Sample>, f0: nat, l0: int, x: Sample, bound: int, b: seq<Sample>, i: int, f: nat, l: int,
                   e: nat, tidy: bool)
    requires Turning(b0, f0, l0, x, bound, b, i, f, l, e, tidy) && f < |b| && b[f].t >= bound && x.t >= bound
    ensures f < |b| && l <= |b| && 0 <= i < |b|
    ensures tidy ==>
              && 0 <= l0 && 0 <= l && f0 < |b0| && l0 <= |b0|
              && AddResult(|b0|, f0, l0 == |b0|, Window(b0, f0, l0) + [x], bound, Tidy(|b|, i, f, l), Window(b, f, l),
                           f)
    ensures l0 < |b0| ==> InPlace(b, f0, l0, bound, f, l)
  {
    hide Evicting, Drifting, Circling, Window, InPlace, AddResult, Tidy;
    DriftingInRange(b0, f0, l0, x, b, i, f, l, e);
    DriftingNewest(b0, f0, l0, x, b, i, f, l, e);
    if tidy {
      AddEnd(b0, f0, l0, x, bound, b, i, f, l, e);
    }
    if l0 < |b0| {
      CirclingEnd(b, f0, l0, bound, f, l, e);
    }
  }

  class Ring {
    const delta: Int64
    var buf: array<Sample>  // lookback buffer
    var i: int  // position of the most recent element
    var f: nat  // position of the first element
    var l: int  // number of elements

    /** What every call keeps. */
    ghost predicate InRange()
      reads this
    {
      f < buf.Length && l <= buf.Length && -1 <= i < buf.Length
    }

    ghost predicate Valid()
      reads this
    {
      Tidy(buf.Length, i, f, l)
    }

    ghost function Contents(): seq<Sample>
      requires f < buf.Length && 0 <= l <= buf.Length
      reads this, buf
    {
      Window(buf[..], f, l)
    }

    /** newSampleRing */
    constructor (delta: Int64, size: nat)
      requires size >= 1
      ensures Valid() && Contents() == [] && this.delta == delta && buf.Length == size && fresh(buf) && f == 0 && l == 0
    {
      this.delta := delta;
      buf := new Sample[size](k => ZERO);
      l, i, f := 0, -1, 0;
    }

    method Reset()
      requires buf.Length >= 1
      modifies this`l, this`i, this`f
      ensures InRange() && Valid() && Contents() == [] && f == 0 && l == 0
    {
      l := 0;
      i := -1;
      f := 0;
    }

    method At(k: nat) returns (x: Sample)
      requires Valid() && k < l
      ensures x == Contents()[k]
    {
      SlotIsModulo(f, k, buf.Length);
      x := buf[(f + k) % buf.Length];
    }

    method Last() returns (x: Sample, ok: bool)
      requires Valid()
      ensures ok <==> Contents() != []
      ensures ok ==> x == Contents()[l - 1]
    {
      if l == 0 {
        return ZERO, false;
      }
      return buf[i], true;
    }

    /** samples: the part up to the end of the buffer, then the part from its start. */
    method Samples() returns (res: seq<Sample>)
      requires Valid()
      ensures res == Contents()
    {
      var k := f + l;
      var j := 0;
      if k > buf.Length {
        k := buf.Length;
        j := l - k + f;
      }
      res := buf[f..k] + buf[..j];
    }

    /**
     add. AddIff says when this is what the queue does: exactly if the call does not both grow the ring and forget, or
     the samples forgotten reach past the zeros of the grown buffer. A full ring of one slot would never return from
     forgetting its sample.
     */
    method Add(x: Sample)
      requires InRange() && delta >= 0 && x.t - delta >= -TWO63
      requires buf.Length > 1 || l != 1 || buf[f].t >= x.t - delta
      modifies this, buf
      ensures buf.Length == if old(l == buf.Length) then 2 * old(buf.Length) else old(buf.Length)
      ensures old(l == buf.Length) ==> fresh(buf)
      ensures !old(l == buf.Length) ==> buf == old(buf)
      ensures InRange()
      ensures old(Valid() || l == buf.Length) ==>
                && 0 <= l
                && AddResult(old(buf.Length), old(f), old(l == buf.Length), old(Contents()) + [x], x.t - delta,
                             Valid(), Contents(), f)
      ensures old(l == buf.Length) ==>
                i == old(f) && Lap(buf[..], i) == Blank(old(buf.Length) - 1) + (old(Contents()) + [x])
      ensures old(l < buf.Length) ==>
                && i == After(old(i), buf.Length) && buf[..] == old(buf[..])[i := x]
                && InPlace(buf[..], old(f), old(l), x.t - delta, f, l)
    {
      hide Window, Tidy, AddResult, InPlace, Lap;
      AddTo(x, buf[..], f, i, l, Valid() || l == buf.Length);
    }

    /** The two halves of add, on a ring that stands at b0, f0 and l0. */
    method AddTo(x: Sample, ghost b0: seq<Sample>, ghost f0: nat, ghost i0: int, ghost l0: int, ghost tidy: bool)
      requires InRange() && delta >= 0 && x.t - delta >= -TWO63
      requires buf.Length > 1 || l != 1 || buf[f].t >= x.t - delta
      requires b0 == buf[..] && f0 == f && i0 == i && l0 == l && tidy == (Valid() || l == buf.Length)
      modifies this, buf
      ensures buf.Length == if l0 == |b0| then 2 * |b0| else |b0|
      ensures if l0 == |b0| then fresh(buf) else buf == old(buf)
      ensures InRange()
      ensures tidy ==>
                && 0 <= l0 && 0 <= l
                && AddResult(|b0|, f0, l0 == |b0|, Window(b0, f0, l0) + [x], x.t - delta, Valid(), Contents(), f)
      ensures l0 == |b0| ==> i == f0 && Lap(buf[..], i) == Blank(|b0| - 1) + (Window(b0, f0, l0) + [x])
      ensures l0 < |b0| ==>
                && i == After(i0, |b0|) && buf[..] == b0[i := x] && InPlace(buf[..], f0, l0, x.t - delta, f, l)
    {
      hide Lap, InPlace, Circling;
      hide Window, Evicting, Drifting, Tidy, AddResult, Slot, Grown, Front, Stale, TurnsLeft, Blind;
      var n := buf.Length;
      Place(x, x.t - delta);
      Evict(n, x.t - delta, b0, f0, l0, x, tidy);
      if l0 == |b0| {
        LapGrown(b0, f0, x);
      }
    }

    /** The eviction loop of add; it wraps around at n, the length of the buffer before the call. */
    method Evict(n: nat, bound: int, ghost b0: seq<Sample>, ghost f0: nat, ghost l0: int, ghost x: Sample,
                 ghost tidy: bool)
      requires n == |b0| && f0 < n && l0 <= n && bound <= x.t
      requires n > 1 || l0 != 1 || b0[f0].t >= bound
      requires Drifting(b0, f0, l0, x, buf[..], i, f, l, 0)
      requires tidy ==> 0 <= l0 && l >= 0 && Evicting(b0, f0, l0, x, bound, buf[..], f, l, 0)
      requires tidy ==> i == if l0 < n then Slot(f0, l0, n) else f0
      requires l0 < n ==> f == f0
      modifies `f, `l
      ensures f < buf.Length && l <= buf.Length && 0 <= i < buf.Length
      ensures tidy ==>
                && 0 <= l0 && 0 <= l
                && AddResult(n, f0, l0 == n, Window(b0, f0, l0) + [x], bound, Tidy(buf.Length, i, f, l),
                             Window(buf[..], f, l), f)
      ensures l0 < n ==> InPlace(buf[..], f0, l0, bound, f, l)
    {
      hide Turning, Tidy, AddResult, InPlace, Window;
      TurningStart(b0, f0, l0, x, bound, buf[..], i, f, l, tidy);
      ghost var e := 0;
      while buf[f].t < bound
        invariant f < buf.Length && Turning(b0, f0, l0, x, bound, buf[..], i, f, l, e, tidy)
        decreases TurnsLeft(n, l0 == n, i, f, e)
      {
        TurningStep(b0, f0, l0, x, bound, buf[..], i, f, l, e, tidy);
        f := f + 1;
        if f >= n {
          f := f - n;
        }
        l := l - 1;
        e := e + 1;
      }
      TurningEnd(b0, f0, l0, x, bound, buf[..], i, f, l, e, tidy);
    }

    /** The first half of add: where the new sample goes. */
    method Place(x: Sample, ghost bound: int)
      requires InRange()
      modifies this, buf
      ensures buf.Length == if old(l == buf.Length) then 2 * old(buf.Length) else old(buf.Length)
      ensures if old(l == buf.Length) then fresh(buf) else buf == old(buf)
      ensures Drifting(old(buf[..]), old(f), old(l), x, buf[..], i, f, l, 0)
      ensures if old(l == buf.Length) then i == old(f) && buf[..] == Grown(old(buf[..]), old(f))[old(f) := x]
              else i == After(old(i), buf.Length) && buf[..] == old(buf[..])[i := x] && f == old(f)
      ensures old(Valid() || l == buf.Length) ==>
                && 0 <= old(l) <= old(buf.Length) && old(f) < old(buf.Length) && 0 <= l
                && i == (if old(l < buf.Length) then Slot(old(f), old(l), old(buf.Length)) else old(f))
                && Evicting(old(buf[..]), old(f), old(l), x, bound, buf[..], f, l, 0)
    {
      ghost var b0, f0, l0, tidy := buf[..], f, l, Valid() || l == buf.Length;
      hide Evicting, Window, Grown;
      if buf.Length == l {
        GrownWindow(b0, f, x);
        PlaceGrowing(x);
      } else {
        if tidy {
          PlaceInWindow(b0, f, l, x);
        }
        PlaceNext(x);
      }
      if tidy {
        assert Evicting(b0, f0, l0, x, bound, (buf[..]), f, l, 0);
      }
    }

    /** In a full ring the new sample takes the first slot, and the ring starts at the moved part. */
    method PlaceGrowing(x: Sample)
      requires InRange() && l == buf.Length
      modifies this
      ensures fresh(buf) && buf[..] == Grown(old(buf[..]), old(f))[old(f) := x]
      ensures i == old(f) && f == old(f) + old(buf.Length) && l == old(l) + 1
    {
      hide Grown;
      var n := buf.Length;
      Grow();
      i := f;
      f := f + n;
      buf[i] := x;
      l := l + 1;
    }

    /** Otherwise it takes the slot after the newest one. */
    method PlaceNext(x: Sample)
      requires InRange() && l < buf.Length
      modifies `i, `l, buf
      ensures i == After(old(i), buf.Length)
      ensures l == old(l) + 1 && 0 <= i < buf.Length && buf[..] == old(buf[..])[i := x]
    {
      i := i + 1;
      if i >= buf.Length {
        i := i - buf.Length;
      }
      buf[i] := x;
      l := l + 1;
    }

    /** The copies of growing: the old part from f on goes to the end of a buffer of double size. */
    method Grow()
      requires 1 <= buf.Length && f < buf.Length
      modifies this`buf
      ensures fresh(buf) && buf[..] == Grown(old(buf[..]), f)
    {
      var n := buf.Length;
      var bigger := new Sample[2 * n](k => ZERO);
      forall k | f <= k < n {
        bigger[n + k] := buf[k];
      }
      forall k | 0 <= k < f {
        bigger[k] := buf[k];
      }
      ghost var g := Grown(buf[..], f);
      forall k | 0 <= k < 2 * n ensures bigger[k] == g[k] {
      }
      buf := bigger;
    }
  }

  // ---------------------------------------------------------------- an add that goes wrong

  /** Samples with the times 1 to n. */
  function Times(n: nat): (s: seq<Sample>)
    requires n <= 100
    ensures |s| == n && forall k | 0 <= k < n :: s[k] == Codec.Sample(k + 1, 0)
  {
    seq(n, k requires 0 <= k < n => Codec.Sample(k + 1, 0))
  }

  /**
   The ring that buffer.go makes, of 16 slots, full with the times 1 to 16 from any slot on, and a window of 15: an add
   at time 17 should forget the first sample, and forgets all up to where the old buffer ended.
   */
  lemma SixteenSlots(f: nat, tidy: bool, after: seq<Sample>, front: int)
    requires f < 16 && AddResult(16, f, true, Times(16) + [Codec.Sample(17, 0)], 2, tidy, after, front)
    ensures |Pushed(Times(16), Codec.Sample(17, 0), 15)| == 16 && |after| == 17 - Blind(16, f) < 16
  {
    var full := Times(16) + [Codec.Sample(17, 0)];
    StaleIs(full, 2, 1);
    StaleIs(full[Blind(16, f)..], 2, 0);
    hide Stale;
  }
}
