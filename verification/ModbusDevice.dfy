/**
 A whole device: the frames that NewBroker builds for all function codes, asked by a concurrent poll, give the readings
 of all variables of the device read alone.
 */
module ModbusDevice {
  import opened Bits
  import opened ByteLayout
  import opened ModbusSlave
  import opened ModbusFrame
  import opened ModbusPacking
  import opened ModbusRead
  import opened ModbusBroker
  import opened ModbusMeaning
  import opened Sequences
  import opened Wrappers
  import opened ModbusPool
  import Poll = ModbusPoll

  /** What a user can check about the variables of a device before it is created. */
  ghost predicate DeviceOk(c: Config, variables: seq<Variable>) {
    && c.slave < 0x100
    && (forall v | v in variables :: v.End() <= ADDRESSES && c.position <= v.address)
    && (forall v, w | v in variables && w in variables && v.functionCode == w.functionCode && v.address <= w.address ::
          v.End() <= w.End())
    && (forall v | v in variables && IsFirst(v, variables) ::
          c.position + (v.End() - v.address) <= WindowSize(v.functionCode))
  }

  /** No variable of the same function code has a smaller address. */
  ghost predicate IsFirst(v: Variable, variables: seq<Variable>) {
    forall w | w in variables && w.functionCode == v.functionCode :: v.address <= w.address
  }

  /** Then the variables of each function code are placed as the packing needs them. */
  lemma DevicePlaced(c: Config, variables: seq<Variable>, code: ReadCode, vs: seq<Variable>)
    requires DeviceOk(c, variables) && vs != [] && InRange(vs, code) && SortedByAddress(vs)
    requires multiset(vs) == multiset(VariablesOf(variables, code))
    ensures WellPlaced(c, code, vs)
  {
    hide WellPlaced, VariablesOf, SortedByAddress;
    VariablesOfIn(variables, code);
    SameMembers(vs, VariablesOf(variables, code));
    FirstIsFirst(vs, variables, code);
    SortedEnds(c, variables, vs);
    InDevice(c, variables, code, vs);
  }

  lemma SameMembers(a: seq<Variable>, b: seq<Variable>)
    requires multiset(a) == multiset(b)
    ensures forall v :: v in a <==> v in b
  {
    forall v ensures v in a <==> v in b {
      assert v in a <==> v in multiset(a);
      assert v in b <==> v in multiset(b);
    }
  }

  lemma FirstIsFirst(vs: seq<Variable>, variables: seq<Variable>, code: ReadCode)
    requires vs != [] && SortedByAddress(vs) && forall v :: v in vs <==> v in variables && v.functionCode == code
    ensures vs[0] in variables && vs[0].functionCode == code && IsFirst(vs[0], variables)
  {
    assert vs[0] in vs;
    forall w | w in variables && w.functionCode == code ensures vs[0].address <= w.address {
      var i :| 0 <= i < |vs| && vs[i] == w;
    }
  }

  lemma SortedEnds(c: Config, variables: seq<Variable>, vs: seq<Variable>)
    requires DeviceOk(c, variables) && SortedByAddress(vs)
    requires forall v, w | v in vs && w in vs :: v in variables && v.functionCode == w.functionCode
    ensures SortedByEnd(vs)
  {
    forall i, j | 0 <= i < j < |vs| ensures vs[i].End() <= vs[j].End() {
      assert vs[i] in vs && vs[j] in vs;
    }
  }

  lemma InDevice(c: Config, variables: seq<Variable>, code: ReadCode, vs: seq<Variable>)
    requires DeviceOk(c, variables) && vs != [] && InRange(vs, code) && SortedByAddress(vs) && SortedByEnd(vs)
    requires (forall v | v in vs :: v in variables) && vs[0].functionCode == code && IsFirst(vs[0], variables)
    ensures WellPlaced(c, code, vs)
  {
    hide SortedByAddress, SortedByEnd, InRange, IsFirst;
    assert vs[0] in vs;
  }

  /** Any three attempts at frame k of a function code are made over nets(code)(k). */
  ghost predicate DeviceReachable(nets: ReadCode -> nat -> Net, reconnect: nat -> bool, framing: Framing, mem: Memory,
                                  slave: nat) {
    forall code :: AllReachable(nets(code), reconnect, framing, mem, slave)
  }

  /** So it is if no connection ever breaks; also if every first attempt does, and the second one does not. */
  lemma ReachableDevice(framing: Framing, mem: Memory, slave: Byte)
    ensures var net: Net := (i, req) => Serve(framing, mem, slave, req);
            DeviceReachable(code => k => net, i => true, framing, mem, slave)
    ensures var net: Net := (i, req) => if i == 0 then [] else Serve(framing, mem, slave, req);
            DeviceReachable(code => k => net, i => true, framing, mem, slave)
  {
    hide Serve;
    var net: Net := (i, req) => Serve(framing, mem, slave, req);
    NeverBroken(framing, mem, slave, 0);
    assert Connected(net, framing, mem, slave, 0);
    var net': Net := (i, req) => if i == 0 then [] else Serve(framing, mem, slave, req);
    assert Connected(net', framing, mem, slave, 1);
  }

  // ---------------------------------------------------------------- every variable, once

  /** The variables of some function codes. */
  function VariablesIn(variables: seq<Variable>, codes: set<ReadCode>): seq<Variable> {
    if variables == [] then []
    else
      var n := |variables| - 1;
      VariablesIn(variables[..n], codes) + if variables[n].functionCode in codes then [variables[n]] else []
  }

  lemma {:induction false} VariablesInMore(variables: seq<Variable>, codes: set<ReadCode>, code: ReadCode)
    requires code !in codes
    ensures multiset(VariablesIn(variables, codes + {code}))
         == multiset(VariablesIn(variables, codes)) + multiset(VariablesOf(variables, code))
  {
    if variables != [] {
      VariablesInMore(variables[..|variables| - 1], codes, code);
    }
  }

  lemma {:induction false} VariablesInAll(variables: seq<Variable>, codes: set<ReadCode>)
    requires forall v | v in variables :: v.functionCode in codes
    ensures VariablesIn(variables, codes) == variables
  {
    if variables != [] {
      var n := |variables| - 1;
      VariablesInAll(variables[..n], codes);
      assert variables == variables[..n] + [variables[n]];
    }
  }

  lemma {:induction false} VariablesInNone(variables: seq<Variable>)
    ensures VariablesIn(variables, {}) == []
  {
    if variables != [] {
      VariablesInNone(variables[..|variables| - 1]);
    }
  }

  lemma {:induction false} ConcatAppend<T>(a: seq<seq<T>>, b: seq<seq<T>>)
    ensures Concat(a + b) == Concat(a) + Concat(b)
    decreases |b|
  {
    if b == [] {
      assert a + b == a;
    } else {
      var n := |b| - 1;
      assert (a + b)[..|a| + n] == a + b[..n];
      ConcatAppend(a, b[..n]);
    }
  }

  /** Every variable has its function code among those in use. */
  lemma CodesInUse(variables: seq<Variable>, v: Variable)
    requires v in variables
    ensures VariablesOf(variables, v.functionCode) != []
  {
    VariablesOfIn(variables, v.functionCode);
  }

  /** The readings of the same variables in another order are the same readings in another order. */
  lemma {:induction false} DirectPermuted(mem: Memory, layout: MemoryLayout, scale: Scale, a: seq<Variable>,
                                          b: seq<Variable>)
    requires multiset(a) == multiset(b)
    ensures multiset(DirectReadings(mem, layout, scale, a)) == multiset(DirectReadings(mem, layout, scale, b))
    decreases |a|
  {
    if a == [] {
      assert |multiset(b)| == 0;
    } else {
      var n, x := |a| - 1, a[|a| - 1];
      assert x in multiset(b);
      var j :| 0 <= j < |b| && b[j] == x;
      var b' := b[..j] + b[j + 1..];
      OneOut(a, n);
      OneOut(b, j);
      assert a[..n] + a[n + 1..] == a[..n];
      CancelOne(multiset(a[..n]), multiset(b'), x);
      DirectPermuted(mem, layout, scale, a[..n], b');
      DirectOneOut(mem, layout, scale, a, n);
      DirectOneOut(mem, layout, scale, b, j);
    }
  }

  lemma CancelOne<T>(a: multiset<T>, b: multiset<T>, x: T)
    requires a + multiset{x} == b + multiset{x}
    ensures a == b
  {
    forall y ensures a[y] == b[y] {
      assert (a + multiset{x})[y] == (b + multiset{x})[y];
    }
  }

  lemma OneOut<T>(s: seq<T>, j: nat)
    requires j < |s|
    ensures multiset(s) == multiset(s[..j] + s[j + 1..]) + multiset{s[j]}
  {
    assert s == s[..j] + [s[j]] + s[j + 1..];
  }

  lemma DirectOneOut(mem: Memory, layout: MemoryLayout, scale: Scale, s: seq<Variable>, j: nat)
    requires j < |s|
    ensures multiset(DirectReadings(mem, layout, scale, s))
         == multiset(DirectReadings(mem, layout, scale, s[..j] + s[j + 1..]))
            + multiset{ReadingOf(s[j], Direct(mem, layout, scale, s[j]))}
  {
    hide Direct;
    var rs := DirectReadings(mem, layout, scale, s);
    OneOut(rs, j);
    assert DirectReadings(mem, layout, scale, s[..j] + s[j + 1..]) == rs[..j] + rs[j + 1..];
  }

  // ---------------------------------------------------------------- asking all frames

  function AllFrames(frames: map<ReadCode, seq<ModBusDataFrame>>): (all: set<ModBusDataFrame>)
    ensures forall code, df | code in frames && df in frames[code] :: df in all
  {
    set code, df | code in frames && df in frames[code] :: df
  }

  /** The frames of a device and how they were packed. */
  ghost predicate Built(frames: map<ReadCode, seq<ModBusDataFrame>>, packings: map<ReadCode, Packing>, c: Config,
                        variables: seq<Variable>)
    reads AllFrames(frames)
  {
    && packings.Keys == frames.Keys
    && forall code | code in frames :: Batched(frames[code], packings[code], c, code, variables)
  }

  /** The outcomes of all frames, in the order in which poll takes the function codes from the map. */
  method AskDevice(frames: map<ReadCode, seq<ModBusDataFrame>>, c: Config, nets: ReadCode -> nat -> Net,
                   reconnect: nat -> bool, scale: Scale, ghost packings: map<ReadCode, Packing>,
                   ghost variables: seq<Variable>, ghost mem: Memory)
    returns (os: seq<Outcome>, ghost groups: seq<seq<Variable>>)
    requires Built(frames, packings, c, variables)
    modifies AllFrames(frames)
    modifies (set v | v in variables)`value
    ensures multiset(Concat(groups)) == multiset(VariablesIn(variables, frames.Keys))
    ensures DeviceOk(c, variables) && DeviceReachable(nets, reconnect, c.framing, mem, c.slave) ==>
              AllDirect(os, mem, c.layout, scale, groups)
  {
    hide DeviceOk, DeviceReachable, Batched, Concat, VariablesIn, DirectReadings, AllDirect;
    os, groups := [], [];
    var codes := frames.Keys;
    NothingAsked(variables, mem, c.layout, scale);
    assert frames.Keys - codes == {};
    while codes != {}
      invariant codes <= frames.Keys && Built(frames, packings, c, variables)
      invariant multiset(Concat(groups)) == multiset(VariablesIn(variables, frames.Keys - codes))
      invariant DeviceOk(c, variables) && DeviceReachable(nets, reconnect, c.framing, mem, c.slave) ==>
                  AllDirect(os, mem, c.layout, scale, groups)
      decreases codes
    {
      var code :| code in codes;
      ghost var p, done := packings[code], frames.Keys - codes;
      var more := AskCode(frames, code, c, nets, reconnect, scale, packings, variables, mem);
      CodeAsked(variables, done, code, groups, p, os, more, mem, c.layout, scale);
      os, groups := os + more, groups + p.groups;
      codes := codes - {code};
      assert frames.Keys - codes == done + {code};
    }
    assert frames.Keys - codes == frames.Keys;
  }

  lemma NothingAsked(variables: seq<Variable>, mem: Memory, layout: MemoryLayout, scale: Scale)
    ensures multiset(Concat<Variable>([])) == multiset(VariablesIn(variables, {}))
    ensures AllDirect([], mem, layout, scale, [])
  {
    VariablesInNone(variables);
  }

  lemma CodeAsked(variables: seq<Variable>, done: set<ReadCode>, code: ReadCode, groups: seq<seq<Variable>>, p: Packing,
                  os: seq<Outcome>, more: seq<Outcome>, mem: Memory, layout: MemoryLayout, scale: Scale)
    requires code !in done && Concat(p.groups) == p.vs && multiset(p.vs) == multiset(VariablesOf(variables, code))
    requires multiset(Concat(groups)) == multiset(VariablesIn(variables, done))
    ensures multiset(Concat(groups + p.groups)) == multiset(VariablesIn(variables, done + {code}))
    ensures AllDirect(os, mem, layout, scale, groups) && AllDirect(more, mem, layout, scale, p.groups) ==>
              AllDirect(os + more, mem, layout, scale, groups + p.groups)
  {
    hide Concat, VariablesIn, VariablesOf, DirectReadings;
    VariablesInMore(variables, done, code);
    ConcatAppend(groups, p.groups);
  }

  /** The variables of the frames are those of the device. */
  lemma FrameVariables(dfs: seq<ModBusDataFrame>, p: Packing, c: Config, code: ReadCode, variables: seq<Variable>)
    requires Batched(dfs, p, c, code, variables)
    ensures forall df, vp | df in dfs && vp in df.variables :: vp.variable in variables
    ensures forall df | df in dfs :: df.functionCode == code
  {
    VariablesOfIn(variables, code);
    hide Concat, VariablesOf, Greedy, StartOf, SortedByAddress, InRange, SizeOf;
    forall df, vp | df in dfs && vp in df.variables ensures vp.variable in variables {
      var k :| 0 <= k < |dfs| && dfs[k] == df;
      ConcatMembers(p.groups, vp.variable);
      assert vp.variable in p.groups[k];
      assert vp.variable in multiset(p.vs) && vp.variable in multiset(VariablesOf(variables, code));
    }
  }

  /** The outcomes of one function code. */
  method AskCode(frames: map<ReadCode, seq<ModBusDataFrame>>, code: ReadCode, c: Config, nets: ReadCode -> nat -> Net,
                 reconnect: nat -> bool, scale: Scale, ghost packings: map<ReadCode, Packing>,
                 ghost variables: seq<Variable>, ghost mem: Memory)
    returns (os: seq<Outcome>)
    requires Built(frames, packings, c, variables) && code in frames
    modifies frames[code], (set v | v in variables)`value
    ensures Built(frames, packings, c, variables)
    ensures Concat(packings[code].groups) == packings[code].vs
    ensures multiset(packings[code].vs) == multiset(VariablesOf(variables, code))
    ensures DeviceOk(c, variables) && DeviceReachable(nets, reconnect, c.framing, mem, c.slave) ==>
              AllDirect(os, mem, c.layout, scale, packings[code].groups)
  {
    hide DeviceOk, DirectReadings, WellPlaced, AllReachable, AllDirect, Greedy, SortedByAddress, InRange, VariablesOf,
         Concat;
    ghost var p := packings[code];
    forall other | other in frames {
      FrameVariables(frames[other], packings[other], c, other, variables);
    }
    hide Batched, FramesOf;
    os := FrameOutcomes(frames[code], c, code, nets(code), reconnect, scale, p.vs, p.groups, mem);
    if DeviceOk(c, variables) {
      DevicePlaced(c, variables, code, p.vs);
    }
  }

  // ---------------------------------------------------------------- polling the device

  /** The poll's one result: what every variable means in the memory, as often as the device lists it, and no error. */
  ghost predicate DeviceResult(run: seq<Poll.State>, mem: Memory, layout: MemoryLayout, scale: Scale,
                               variables: seq<Variable>) {
    && run != []
    && var out := run[|run| - 1].out;
    && |out| == 1 && out[0].errs == []
    && exists rs :: AllTell(mem, layout, scale, variables, rs) && multiset(out[0].rvs) == multiset(rs)
  }

  /** A finished poll, in any interleaving, with any actions beside it. */
  ghost predicate PollOf(run: seq<Poll.State>, messengers: seq<Messenger>, jobs: seq<Option<Outcome>>,
                         os: seq<Outcome>) {
    Poll.IsRun(run, messengers, jobs) && messengers != [] && Poll.Frames(jobs) == os && Poll.Final(run[|run| - 1])
  }

  lemma DevicePoll(run: seq<Poll.State>, messengers: seq<Messenger>, jobs: seq<Option<Outcome>>, os: seq<Outcome>,
                   mem: Memory, layout: MemoryLayout, scale: Scale, groups: seq<seq<Variable>>,
                   variables: seq<Variable>)
    requires PollOf(run, messengers, jobs, os) && AllDirect(os, mem, layout, scale, groups)
    requires multiset(Concat(groups)) == multiset(variables)
    ensures DeviceResult(run, mem, layout, scale, variables)
  {
    assert run != [];
    hide Poll.IsRun, Poll.Final, Poll.Frames, AllDirect, DirectReadings, Concat, AllTell;
    DirectReadingsTell(mem, layout, scale, variables);
    Poll.PollReads(run, messengers, jobs, mem, layout, scale, groups);
    DirectPermuted(mem, layout, scale, Concat(groups), variables);
  }

  /**
   NewBroker and a poll of the device it makes. Against a device that follows the standard and answers one of three
   attempts at each frame, every finished poll has read each variable as it would be read alone.
   */
  method PollDevice(c: Config, variables: seq<Variable>, nets: ReadCode -> nat -> Net, reconnect: nat -> bool,
                    scale: Scale, ghost mem: Memory)
    returns (os: seq<Outcome>)
    requires forall v | v in variables :: v.address + 0x1_0000 < TWO64
    modifies (set v | v in variables)`value
    ensures DeviceOk(c, variables) && DeviceReachable(nets, reconnect, c.framing, mem, c.slave) ==>
              forall run, messengers, jobs | PollOf(run, messengers, jobs, os) ::
                DeviceResult(run, mem, c.layout, scale, variables)
  {
    hide DeviceOk, DeviceReachable, Batched, Concat, VariablesIn, AllDirect, DeviceResult, PollOf;
    var frames, frameCount, packings := NewBroker(c, variables);
    ghost var groups;
    os, groups := AskDevice(frames, c, nets, reconnect, scale, packings, variables, mem);
    forall v | v in variables ensures v.functionCode in frames {
      CodesInUse(variables, v);
    }
    VariablesInAll(variables, frames.Keys);
    if DeviceOk(c, variables) && DeviceReachable(nets, reconnect, c.framing, mem, c.slave) {
      forall run, messengers, jobs | PollOf(run, messengers, jobs, os)
        ensures DeviceResult(run, mem, c.layout, scale, variables)
      {
        DevicePoll(run, messengers, jobs, os, mem, c.layout, scale, groups, variables);
      }
    }
  }
}
