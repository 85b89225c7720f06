/**
 NewBroker of pkg/protocol/modbus/modbusbroker.go: the variables of a function code are sorted by
 address and packed greedily into frames that each ask for one bounded range of addresses.
 */
module ModbusPacking {
  import opened Bits
  import opened ByteLayout
  import opened ModbusSlave
  import opened ModbusFrame
  import opened Sequences

  // ---------------------------------------------------------------- sorting

  ghost predicate SortedByAddress(vs: seq<Variable>) {
    forall i, j | 0 <= i < j < |vs| :: vs[i].address <= vs[j].address
  }

  /** sort.Sort(VariableSlice): some permutation in address order; variables of equal address in any order. */
  method SortVariables(vs: seq<Variable>) returns (r: seq<Variable>)
    ensures SortedByAddress(r) && multiset(r) == multiset(vs)
  {
    r := [];
    for n := 0 to |vs|
      invariant |r| == n && SortedByAddress(r) && multiset(r) == multiset(vs[..n])
    {
      assert vs[..n + 1] == vs[..n] + [vs[n]];
      r := InsertSorted(r, vs[n]);
    }
    assert vs[..|vs|] == vs;
  }

  method InsertSorted(vs: seq<Variable>, v: Variable) returns (r: seq<Variable>)
    requires SortedByAddress(vs)
    ensures SortedByAddress(r) && multiset(r) == multiset(vs) + multiset{v} && |r| == |vs| + 1
  {
    var i := |vs|;
    while i > 0 && vs[i - 1].address > v.address
      invariant 0 <= i <= |vs|
      invariant forall j | i <= j < |vs| :: vs[j].address > v.address
    {
      i := i - 1;
    }
    r := vs[..i] + [v] + vs[i..];
    InsertAt(vs, v, i);
  }

  lemma InsertAt(vs: seq<Variable>, v: Variable, i: nat)
    requires i <= |vs| && SortedByAddress(vs)
    requires i > 0 ==> vs[i - 1].address <= v.address
    requires forall j | i <= j < |vs| :: vs[j].address > v.address
    ensures var r := vs[..i] + [v] + vs[i..]; SortedByAddress(r) && multiset(r) == multiset(vs) + multiset{v}
  {
    InsertedMembers(vs, v, i);
    var r := vs[..i] + [v] + vs[i..];
    forall j, k | 0 <= j < k < |r| ensures r[j].address <= r[k].address {
      assert (var r := vs[..i] + [v] + vs[i..]; r[j].address <= r[k].address);
    }
  }

  lemma InsertedMembers(vs: seq<Variable>, v: Variable, i: nat)
    requires i <= |vs|
    ensures multiset(vs[..i] + [v] + vs[i..]) == multiset(vs) + multiset{v}
  {
    var a, b := vs[..i], vs[i..];
    assert vs == a + b;
  }

  // ---------------------------------------------------------------- packing

  /** Subtraction of two uint values, which wraps around. */
  function Sub64(x: nat, y: nat): UInt64 {
    (x - y) % TWO64
  }

  function Offset(code: ReadCode, start: nat, address: nat): nat {
    if code.IsBits() then Sub64(address, start) else (Sub64(address, start) * 2) % TWO64
  }

  function Parses(code: ReadCode, start: nat, vs: seq<Variable>): (ps: seq<VariableParse>)
    ensures |ps| == |vs|
  {
    seq(|vs|, i requires 0 <= i < |vs| => VariableParse(vs[i], Offset(code, start, vs[i].address)))
  }

  /** The size of a request that ends with the last of these variables. */
  function SizeOf(start: nat, vs: seq<Variable>): nat {
    if vs == [] then 0 else Sub64(vs[|vs| - 1].End(), start)
  }

  /** What a device tells the packing. */
  datatype Config = Config(framing: Framing, client: Client, slave: nat, layout: MemoryLayout, position: nat)

  ghost predicate FrameOf(df: ModBusDataFrame, c: Config, code: ReadCode, start: nat, vs: seq<Variable>)
    reads df
  {
    && df.Holds(c.framing) && df.slave == c.slave && df.memoryLayout == c.layout && df.functionCode == code
    && df.startAddress == start && df.maxDataSize == SizeOf(start, vs) && df.variables == Parses(code, start, vs)
  }

  /** The first frame starts position addresses before the first variable, every other one at its first variable. */
  function StartOf(position: nat, first: Variable, groups: seq<seq<Variable>>, k: nat): nat
    requires k < |groups|
  {
    if k == 0 || groups[k] == [] then Sub64(first.address, position) else groups[k][0].address
  }

  predicate Within(code: ReadCode, start: nat, vs: seq<Variable>) {
    forall v | v in vs :: v.End() <= start + WindowSize(code)
  }

  predicate Beyond(code: ReadCode, start: nat, v: Variable) {
    v.End() > start + WindowSize(code)
  }

  /** The groups are all in their frame's window, the first of the next group is not; only the first can be empty. */
  ghost predicate Greedy(code: ReadCode, position: nat, first: Variable, groups: seq<seq<Variable>>) {
    && (forall k | 1 <= k < |groups| :: groups[k] != [])
    && (forall k | 0 <= k < |groups| :: Within(code, StartOf(position, first, groups, k), groups[k]))
    && (forall k | 1 <= k < |groups| ::
          groups[k] != [] && Beyond(code, StartOf(position, first, groups, k - 1), groups[k][0]))
  }

  ghost predicate FramesOf(dfs: seq<ModBusDataFrame>, c: Config, code: ReadCode, first: Variable,
                           groups: seq<seq<Variable>>)
    reads dfs
  {
    |dfs| == |groups| && forall k | 0 <= k < |dfs| ::
        FrameOf(dfs[k], c, code, StartOf(c.position, first, groups, k), groups[k])
  }

  /** Addresses far from the end of the uint range, so that a window never wraps around. */
  predicate InRange(vs: seq<Variable>, code: ReadCode) {
    forall v | v in vs :: v.functionCode == code && v.address + 0x1_0000 < TWO64
  }

  /** How far a frame's variables may go: the last coil address, or the end of the last register. */
  function Limit(code: ReadCode, startAddress: nat): nat {
    (startAddress + if code.IsBits() then MAX_COIL else MAX_REGISTER) % TWO64
  }

  predicate Fits(v: Variable, limit: nat) {
    (if v.functionCode.IsBits() then v.address else v.address + Words(v.dataType)) <= limit
  }

  method PackVariables(c: Config, code: ReadCode, vs: seq<Variable>)
    returns (dfs: seq<ModBusDataFrame>, ghost groups: seq<seq<Variable>>)
    requires vs != [] && InRange(vs, code)
    ensures fresh(set df | df in dfs)
    ensures Concat(groups) == vs && FramesOf(dfs, c, code, vs[0], groups)
    ensures c.position <= vs[0].address ==> Greedy(code, c.position, vs[0], groups)
  {
    hide Concat, Parses, SizeOf, FramesOf, GreedySoFar, Greedy, Fits, Limit;
    dfs, groups := [], [];
    var startAddress := Sub64(vs[0].address, c.position);
    var maxDataSize: nat := 0;
    var vps: seq<VariableParse> := [];
    var limit := Limit(code, startAddress);
    ghost var group: seq<Variable> := [];
    var i := 0;
    NothingPacked(c, code, vs);
    while i < |vs|
      invariant 0 <= i <= |vs| && (i == |vs| ==> group != [])
      invariant Concat(groups) + group == vs[..i] && (group != [] ==> group[0] in vs)
      invariant FramesOf(dfs, c, code, vs[0], groups) && fresh(set df | df in dfs)
      invariant vps == Parses(code, startAddress, group) && maxDataSize == SizeOf(startAddress, group)
      invariant limit == Limit(code, startAddress) && startAddress == NextStart(c.position, vs, groups, group, i)
      invariant c.position <= vs[0].address ==> GreedySoFar(code, c.position, vs, groups, group, i)
      decreases |vs| - i, if groups != [] && group == [] then 0 else 1
    {
      var v := vs[i];
      assert vs[..i + 1] == vs[..i] + [v];
      if Fits(v, limit) {
        Place(c, code, vs, groups, group, i);
        vps := vps + [VariableParse(v, Offset(code, startAddress, v.address))];
        maxDataSize := Sub64(v.End(), startAddress);
        i := i + 1;
        group := group + [v];
      } else {
        Close(c, code, vs, groups, group, i);
        var df := GenerateReadMessage(c.framing, c.slave, code, startAddress, maxDataSize, vps, c.layout);
        CloseFrame(dfs, c, code, vs[0], groups, df, startAddress, group);
        dfs := dfs + [df];
        groups := groups + [group];
        vps := [];
        maxDataSize := 0;
        startAddress := v.address;
        limit := Limit(code, startAddress);
        group := [];
      }
    }
    assert vs[..i] == vs;
    if |vps| > 0 {
      CloseLast(c, code, vs, groups, group);
      var df := GenerateReadMessage(c.framing, c.slave, code, startAddress, maxDataSize, vps, c.layout);
      CloseFrame(dfs, c, code, vs[0], groups, df, startAddress, group);
      dfs := dfs + [df];
      groups := groups + [group];
    }
  }

  /** The variable the current frame starts with: already in its group, or the next one to place. */
  function Lead(vs: seq<Variable>, group: seq<Variable>, i: nat): Variable
    requires i <= |vs| && (i == |vs| ==> group != [])
  {
    if group != [] then group[0] else vs[i]
  }

  function NextStart(position: nat, vs: seq<Variable>, groups: seq<seq<Variable>>, group: seq<Variable>, i: nat): nat
    requires vs != [] && i <= |vs| && (i == |vs| ==> group != [])
  {
    if groups == [] then Sub64(vs[0].address, position) else Lead(vs, group, i).address
  }

  ghost predicate GreedySoFar(code: ReadCode, position: nat, vs: seq<Variable>, groups: seq<seq<Variable>>,
                              group: seq<Variable>, i: nat)
    requires vs != [] && i <= |vs| && (i == |vs| ==> group != [])
  {
    && Greedy(code, position, vs[0], groups)
    && Within(code, NextStart(position, vs, groups, group, i), group)
    && (groups != [] ==>
          Beyond(code, StartOf(position, vs[0], groups, |groups| - 1), Lead(vs, group, i)))
  }

  lemma NothingPacked(c: Config, code: ReadCode, vs: seq<Variable>)
    requires vs != []
    ensures Concat<Variable>([]) == [] && FramesOf([], c, code, vs[0], [])
            && GreedySoFar(code, c.position, vs, [], [], 0)
    ensures forall start :: Parses(code, start, []) == [] && SizeOf(start, []) == 0
  {
  }

  /** Placing a variable that fits into the current frame. */
  lemma Place(c: Config, code: ReadCode, vs: seq<Variable>, groups: seq<seq<Variable>>, group: seq<Variable>, i: nat)
    requires i < |vs| && InRange(vs, code) && (group != [] ==> group[0] in vs)
    requires Fits(vs[i], Limit(code, NextStart(c.position, vs, groups, group, i)))
    ensures var start := NextStart(c.position, vs, groups, group, i);
            && NextStart(c.position, vs, groups, group + [vs[i]], i + 1) == start
            && Parses(code, start, group + [vs[i]])
              == Parses(code, start, group) + [VariableParse(vs[i], Offset(code, start, vs[i].address))]
            && SizeOf(start, group + [vs[i]]) == Sub64(vs[i].End(), start)
    ensures c.position <= vs[0].address && GreedySoFar(code, c.position, vs, groups, group, i) ==>
              GreedySoFar(code, c.position, vs, groups, group + [vs[i]], i + 1)
  {
    hide Greedy;
    var v, start := vs[i], NextStart(c.position, vs, groups, group, i);
    assert Lead(vs, group + [v], i + 1) == Lead(vs, group, i);
    if c.position <= vs[0].address {
      assert v.End() <= start + WindowSize(code);
    }
  }

  /** Starting the next frame with a variable that does not fit. */
  lemma Close(c: Config, code: ReadCode, vs: seq<Variable>, groups: seq<seq<Variable>>, group: seq<Variable>, i: nat)
    requires i < |vs| && InRange(vs, code) && (group != [] ==> group[0] in vs)
    requires !Fits(vs[i], Limit(code, NextStart(c.position, vs, groups, group, i)))
    ensures groups != [] ==> group != []
    ensures StartOf(c.position, vs[0], groups + [group], |groups|) == NextStart(c.position, vs, groups, group, i)
    ensures c.position <= vs[0].address && GreedySoFar(code, c.position, vs, groups, group, i) ==>
              GreedySoFar(code, c.position, vs, groups + [group], [], i)
  {
    hide Greedy, Limit, Fits;
    var start := NextStart(c.position, vs, groups, group, i);
    FitsFirst(code, vs[i]);
    if c.position <= vs[0].address && GreedySoFar(code, c.position, vs, groups, group, i) {
      DoesNotFit(code, start, vs[i]);
      GreedyAppend(code, c.position, vs[0], groups, group);
    }
  }

  lemma FitsFirst(code: ReadCode, v: Variable)
    requires v.functionCode == code && v.address + 0x1_0000 < TWO64
    ensures Fits(v, Limit(code, v.address))
  {
  }

  lemma DoesNotFit(code: ReadCode, start: nat, v: Variable)
    requires v.functionCode == code && start + 0x1_0000 < TWO64 && !Fits(v, Limit(code, start))
    ensures Beyond(code, start, v)
  {
  }

  lemma CloseLast(c: Config, code: ReadCode, vs: seq<Variable>, groups: seq<seq<Variable>>, group: seq<Variable>)
    requires vs != [] && group != []
    ensures StartOf(c.position, vs[0], groups + [group], |groups|) == NextStart(c.position, vs, groups, group, |vs|)
    ensures GreedySoFar(code, c.position, vs, groups, group, |vs|) ==> Greedy(code, c.position, vs[0], groups + [group])
  {
    if GreedySoFar(code, c.position, vs, groups, group, |vs|) {
      GreedyAppend(code, c.position, vs[0], groups, group);
    }
  }

  lemma GreedyAppend(code: ReadCode, position: nat, first: Variable, groups: seq<seq<Variable>>, group: seq<Variable>)
    requires Greedy(code, position, first, groups) && (groups != [] ==> group != [])
    requires Within(code, StartOf(position, first, groups + [group], |groups|), group)
    requires groups != [] ==> Beyond(code, StartOf(position, first, groups, |groups| - 1), group[0])
    ensures Greedy(code, position, first, groups + [group])
  {
    hide Within, Beyond, StartOf;
    var groups' := groups + [group];
    forall k | 0 <= k < |groups|
      ensures groups'[k] == groups[k]
      ensures StartOf(position, first, groups', k) == StartOf(position, first, groups, k)
    {
      StartKept(position, first, groups, group, k);
    }
  }

  lemma StartKept(position: nat, first: Variable, groups: seq<seq<Variable>>, group: seq<Variable>, k: nat)
    requires k < |groups|
    ensures StartOf(position, first, groups + [group], k) == StartOf(position, first, groups, k)
  {
  }

  lemma CloseFrame(dfs: seq<ModBusDataFrame>, c: Config, code: ReadCode, first: Variable, groups: seq<seq<Variable>>,
                   df: ModBusDataFrame, start: nat, group: seq<Variable>)
    requires FramesOf(dfs, c, code, first, groups) && FrameOf(df, c, code, start, group)
    requires start == StartOf(c.position, first, groups + [group], |groups|)
    ensures FramesOf(dfs + [df], c, code, first, groups + [group])
    ensures Concat(groups + [group]) == Concat(groups) + group
  {
    hide FrameOf;
    assert (groups + [group])[..|groups|] == groups;
    forall k | 0 <= k < |groups|
      ensures StartOf(c.position, first, groups + [group], k) == StartOf(c.position, first, groups, k)
    {
    }
  }

  // ---------------------------------------------------------------- what packing achieves

  /** The position of group k in the concatenation. */
  function At(groups: seq<seq<Variable>>, k: nat): nat
    requires k <= |groups|
  {
    |Concat(groups[..k])|
  }

  lemma {:induction false} ConcatAt(groups: seq<seq<Variable>>, k: nat)
    requires k < |groups|
    ensures At(groups, k) + |groups[k]| <= |Concat(groups)|
    ensures Concat(groups)[At(groups, k)..At(groups, k) + |groups[k]|] == groups[k]
    decreases |groups|
  {
    var n := |groups| - 1;
    if k < n {
      ConcatAt(groups[..n], k);
      assert groups[..n][..k] == groups[..k];
      var vs := Concat(groups[..n]);
      assert Concat(groups)[At(groups, k)..At(groups, k) + |groups[k]|]
             == vs[At(groups, k)..At(groups, k) + |groups[k]|];
    }
  }

  lemma AtMonotonic(groups: seq<seq<Variable>>, j: nat, k: nat)
    requires j <= k <= |groups|
    ensures At(groups, j) <= At(groups, k)
    decreases k
  {
    if j < k {
      assert groups[..k][..k - 1] == groups[..k - 1];
      AtMonotonic(groups, j, k - 1);
    }
  }

  /** Every variable is in a group and every group's variables are the given ones. */
  lemma {:induction false} ConcatMembers(groups: seq<seq<Variable>>, v: Variable)
    ensures v in Concat(groups) <==> exists k :: 0 <= k < |groups| && v in groups[k]
    decreases |groups|
  {
    if groups != [] {
      var n := |groups| - 1;
      ConcatMembers(groups[..n], v);
      assert forall k | 0 <= k < n :: groups[..n][k] == groups[k];
    }
  }

  /**
   With a position the first frame asks for nothing exactly when the first variable is out of its reach;
   all other frames hold at least one variable.
   */
  lemma FirstFrameEmpty(code: ReadCode, position: nat, vs: seq<Variable>, groups: seq<seq<Variable>>)
    requires vs != [] && InRange(vs, code) && position <= vs[0].address
    requires Concat(groups) == vs && Greedy(code, position, vs[0], groups)
    ensures groups != []
    ensures groups[0] == [] <==> position + (vs[0].End() - vs[0].address) > WindowSize(code)
  {
    assert forall k | 1 <= k < |groups| :: groups[k] != [];
    hide Greedy;
    FirstVariable(groups);
    FirstWindow(code, position, vs, groups);
  }

  lemma FirstVariable(groups: seq<seq<Variable>>)
    requires Concat(groups) != [] && forall k | 1 <= k < |groups| :: groups[k] != []
    ensures groups != []
    ensures groups[0] != [] ==> Concat(groups)[0] == groups[0][0]
    ensures groups[0] == [] ==> |groups| > 1 && Concat(groups)[0] == groups[1][0]
  {
    ConcatAt(groups, 0);
    assert groups[..0] == [];
    if groups[0] == [] {
      if |groups| > 1 {
        ConcatAt(groups, 1);
        assert groups[..1][..0] == [] && groups[..1] == [groups[0]];
      }
    }
  }

  lemma FirstWindow(code: ReadCode, position: nat, vs: seq<Variable>, groups: seq<seq<Variable>>)
    requires vs != [] && groups != [] && Greedy(code, position, vs[0], groups)
    requires position <= vs[0].address < TWO64
    requires groups[0] != [] ==> vs[0] == groups[0][0]
    requires groups[0] == [] ==> |groups| > 1 && vs[0] == groups[1][0]
    ensures groups[0] == [] <==> position + (vs[0].End() - vs[0].address) > WindowSize(code)
  {
    assert StartOf(position, vs[0], groups, 0) == vs[0].address - position;
    if groups[0] == [] {
      assert Beyond(code, StartOf(position, vs[0], groups, 0), groups[1][0]);
    } else {
      assert Within(code, StartOf(position, vs[0], groups, 0), groups[0]);
    }
  }

  /** Variables that one request could read together. */
  ghost predicate OneRequest(code: ReadCode, vs: seq<Variable>) {
    exists start: nat :: InWindow(code, start, vs)
  }

  predicate InWindow(code: ReadCode, start: nat, vs: seq<Variable>) {
    forall v | v in vs :: start <= v.address && v.End() <= start + WindowSize(code)
  }

  predicate SortedByEnd(vs: seq<Variable>) {
    forall i, j | 0 <= i < j < |vs| :: vs[i].End() <= vs[j].End()
  }

  /** No request can read the first variables of two different frames. */
  lemma FirstsApart(code: ReadCode, vs: seq<Variable>, groups: seq<seq<Variable>>, j: nat, k: nat, other: seq<Variable>)
    requires vs != [] && SortedByEnd(vs) && Concat(groups) == vs
    requires j < k < |groups| && groups[k] != [] && groups[j + 1] != []
    requires groups[j] != [] && Beyond(code, groups[j][0].address, groups[j + 1][0])
    requires OneRequest(code, other) && groups[j][0] in other
    ensures groups[k][0] !in other
  {
    var start: nat :| InWindow(code, start, other);
    LaterEnds(vs, groups, j + 1, k);
  }

  lemma LaterEnds(vs: seq<Variable>, groups: seq<seq<Variable>>, j: nat, k: nat)
    requires SortedByEnd(vs) && Concat(groups) == vs
    requires j <= k < |groups| && groups[j] != [] && groups[k] != []
    ensures groups[j][0].End() <= groups[k][0].End()
  {
    hide Concat;
    ConcatAt(groups, j);
    ConcatAt(groups, k);
    AtMonotonic(groups, j, k);
    assert groups[k][0] == vs[At(groups, k)] && groups[j][0] == vs[At(groups, j)];
  }

  lemma NextBeyond(code: ReadCode, vs: seq<Variable>, groups: seq<seq<Variable>>, j: nat)
    requires vs != [] && Greedy(code, 0, vs[0], groups) && j + 1 < |groups|
    requires groups[j] != [] && groups[j + 1] != []
    requires j == 0 ==> groups[0][0] == vs[0] && vs[0].address < TWO64
    ensures Beyond(code, groups[j][0].address, groups[j + 1][0])
  {
    assert StartOf(0, vs[0], groups, j) == groups[j][0].address;
    assert Beyond(code, StartOf(0, vs[0], groups, j + 1 - 1), groups[j + 1][0]);
  }

  ghost function Chosen(others: seq<seq<Variable>>, v: Variable): (g: nat)
    requires exists g :: 0 <= g < |others| && v in others[g]
    ensures g < |others| && v in others[g]
  {
    var g :| 0 <= g < |others| && v in others[g];
    g
  }

  lemma Pigeonhole(f: seq<nat>, m: nat)
    requires forall i | 0 <= i < |f| :: f[i] < m
    requires forall i, j | 0 <= i < j < |f| :: f[i] != f[j]
    ensures |f| <= m
    decreases |f|
  {
    if f != [] {
      var n := |f| - 1;
      var last := f[n];
      // Renaming the largest value to the one used last keeps the values distinct and below m - 1.
      var g := seq(n, i requires 0 <= i < n => if f[i] == m - 1 then last else f[i]);
      Pigeonhole(g, m - 1);
    }
  }

  /**
   The greedy packing is optimal: when no position is set and ends do not decrease, no other way of
   grouping the variables into single requests needs fewer of them.
   */
  lemma GreedyOptimal(code: ReadCode, vs: seq<Variable>, groups: seq<seq<Variable>>, others: seq<seq<Variable>>)
    requires vs != [] && InRange(vs, code) && SortedByEnd(vs)
    requires Concat(groups) == vs && Greedy(code, 0, vs[0], groups)
    requires forall g | 0 <= g < |others| :: OneRequest(code, others[g])
    requires forall v | v in vs :: exists g :: 0 <= g < |others| && v in others[g]
    ensures |groups| <= |others|
  {
    hide Greedy, OneRequest, InRange;
    GroupsNonEmpty(code, vs, groups);
    forall k | 0 <= k < |groups|
      ensures groups[k][0] in vs
    {
      assert groups[k][0] in groups[k];
      ConcatMembers(groups, groups[k][0]);
    }
    var f := seq(|groups|, k requires 0 <= k < |groups| => Chosen(others, groups[k][0]));
    forall j, k | 0 <= j < k < |f|
      ensures f[j] != f[k]
    {
      NextBeyond(code, vs, groups, j);
      FirstsApart(code, vs, groups, j, k, others[f[j]]);
    }
    Pigeonhole(f, |others|);
  }

  lemma OneConcat(groups: seq<seq<Variable>>)
    requires |groups| == 1
    ensures groups == [Concat(groups)]
  {
    assert groups[..0] == [] && [] + groups[0] == groups[0];
  }

  /** Variables that all fit into one window make one frame. */
  lemma OneGroup(code: ReadCode, vs: seq<Variable>, groups: seq<seq<Variable>>)
    requires vs != [] && InRange(vs, code) && Concat(groups) == vs && Greedy(code, 0, vs[0], groups)
    requires Within(code, vs[0].address, vs)
    ensures groups == [vs]
  {
    hide Concat, InRange, Greedy;
    GroupsNonEmpty(code, vs, groups);
    if |groups| > 1 {
      assert groups[1][0] in groups[1];
      NextBeyond(code, vs, groups, 0);
      ConcatMembers(groups, groups[1][0]);
    } else {
      OneConcat(groups);
    }
  }

  lemma GroupsNonEmpty(code: ReadCode, vs: seq<Variable>, groups: seq<seq<Variable>>)
    requires vs != [] && InRange(vs, code) && Concat(groups) == vs && Greedy(code, 0, vs[0], groups)
    ensures forall k | 0 <= k < |groups| :: groups[k] != []
    ensures groups != [] && groups[0] != [] && groups[0][0] == vs[0] && vs[0].address < TWO64
  {
    FirstFrameEmpty(code, 0, vs, groups);
    ConcatAt(groups, 0);
    assert groups[..0] == [];
  }
}
