/**
 Batching is invisible: what NewBroker, message and ParseVariableValue make of a device's variables is
 what reading each variable alone from the device would give.
 */
module ModbusBroker {
  import opened Bits
  import opened ByteLayout
  import opened ModbusSlave
  import opened ModbusFrame
  import opened Sequences
  import opened ModbusPacking
  import opened ModbusRead
  import opened ModbusMeaning

  // ---------------------------------------------------------------- one variable in a frame

  lemma {:induction false} WordBytesConcat(a: seq<Word>, b: seq<Word>)
    ensures WordBytes(a + b) == WordBytes(a) + WordBytes(b)
  {
    if a == [] {
      assert a + b == b;
    } else {
      var ab := a + b;
      assert ab[0] == a[0] && ab[1..] == a[1..] + b;
      WordBytesConcat(a[1..], b);
      var head: seq<Byte> := [HighByte(a[0]), LowByte(a[0])];
      assert WordBytes(a) == head + WordBytes(a[1..]) && WordBytes(ab) == head + WordBytes(ab[1..]);
    }
  }

  lemma WordBytesSlice(ws: seq<Word>, i: nat, j: nat)
    requires i <= j <= |ws|
    ensures WordBytes(ws)[2 * i..2 * j] == WordBytes(ws[i..j])
  {
    hide WordBytes;
    var a, b, c := ws[..i], ws[i..j], ws[j..];
    ThreeParts(ws, i, j);
    WordBytesConcat(a + b, c);
    WordBytesConcat(a, b);
  }

  /** A register variable within the frame is parsed from its own registers. */
  lemma RegisterValue(mem: Memory, layout: MemoryLayout, scale: Scale, v: Variable, start: nat, n: nat,
                      trailer: seq<Byte>)
    requires !v.functionCode.IsBits() && start <= v.address && v.End() <= start + n
    ensures var data := ReadData(mem, v.functionCode, start, n) + trailer;
            var vp := VariableParse(v, 2 * (v.address - start));
            Readable(v.functionCode, vp, |data|)
            && ParseValue(v.functionCode, layout, scale, vp, data) == Direct(mem, layout, scale, v)
  {
    hide WordBytes, Typed, ParseWords, WordsValue;
    var code, i, w := v.functionCode, v.address - start, Words(v.dataType);
    var ws := WordsAt(mem, code, start, n);
    var data := ReadData(mem, code, start, n) + trailer;
    WordBytesSlice(ws, i, i + w);
    assert ws[i..i + w] == WordsAt(mem, code, v.address, w);
    assert data[2 * i..][..2 * w] == WordBytes(ws)[2 * i..2 * (i + w)];
    if v.dataType !in {NUMBER, STRING} {
      ParseIsWordsValue(layout, WordsAt(mem, code, v.address, w), data[2 * i..]);
    }
  }

  /** A coil variable within the frame is parsed from its own coil. */
  lemma CoilVariable(mem: Memory, layout: MemoryLayout, scale: Scale, v: Variable, start: nat, n: nat)
    requires v.functionCode.IsBits() && start <= v.address && v.End() <= start + n
    ensures var packed := ReadData(mem, v.functionCode, start, n);
            var data := ExpandedBits(packed, |packed|);
            var vp := VariableParse(v, v.address - start);
            Readable(v.functionCode, vp, |data|)
            && ParseValue(v.functionCode, layout, scale, vp, data) == Direct(mem, layout, scale, v)
  {
    hide PackBits, TestBit;
    var code, i := v.functionCode, v.address - start;
    var bits := BitsAt(mem, code, start, n);
    PackBitsAt(bits, i);
    TestBitIs(PackBits(bits)[i / 8], i % 8);
  }

  lemma TestBitIs(x: nat, k: nat)
    ensures TestBit(x, k) <==> Shr(x, k) % 2 == 1
  {
  }

  // ---------------------------------------------------------------- one frame

  /** The variables of a frame are in order, and the last one ends last. */
  predicate LastEndsLast(start: nat, vs: seq<Variable>) {
    && vs != []
    && (forall v | v in vs :: start <= v.address && v.End() <= ADDRESSES)
    && forall v | v in vs :: v.End() <= vs[|vs| - 1].End()
  }

  /** Every variable of a frame is read as if it were read alone. */
  lemma FrameTransparent(df: ModBusDataFrame, c: Config, code: ReadCode, start: nat, vs: seq<Variable>, mem: Memory,
                         scale: Scale, k: nat)
    requires FrameOf(df, c, code, start, vs) && c.slave < 0x100
    requires LastEndsLast(start, vs) && Within(code, start, vs)
    requires k < |vs| && vs[k].functionCode == code
    ensures LegalRequest(df)
    ensures var data := FrameData(c.framing, mem, df);
            Readable(code, df.variables[k], |data|)
            && ParseValue(code, c.layout, scale, df.variables[k], data) == Direct(mem, c.layout, scale, vs[k])
  {
    FrameVariable(df, c, code, start, vs, k);
    hide FrameOf, LastEndsLast, Within, Readable, ParseValue, Direct, FrameData, LegalRequest;
    VariableTransparent(c.framing, mem, c.layout, scale, df, vs[k], start);
  }

  lemma FrameVariable(df: ModBusDataFrame, c: Config, code: ReadCode, start: nat, vs: seq<Variable>, k: nat)
    requires FrameOf(df, c, code, start, vs) && LastEndsLast(start, vs) && k < |vs|
             && df.maxDataSize == vs[|vs| - 1].End() - start
    ensures var v := vs[k];
            && k < |df.variables| && df.variables[k] == VariableParse(v, Offset(code, start, v.address))
            && df.startAddress == start && df.functionCode == code
            && start <= v.address && v.End() <= start + df.maxDataSize
  {
    assert vs[k] in vs;
  }

  /** A variable that a legal request covers is read as if it were read alone. */
  lemma VariableTransparent(framing: Framing, mem: Memory, layout: MemoryLayout, scale: Scale, df: ModBusDataFrame,
                            v: Variable, start: nat)
    requires LegalRequest(df) && df.startAddress == start && df.functionCode == v.functionCode
    requires start <= v.address && v.End() <= start + df.maxDataSize
    ensures var data, vp := FrameData(framing, mem, df), VariableParse(v, Offset(v.functionCode, start, v.address));
            && Readable(v.functionCode, vp, |data|)
            && ParseValue(v.functionCode, layout, scale, vp, data) == Direct(mem, layout, scale, v)
  {
    OffsetIs(v.functionCode, start, v.address);
    FrameDataIs(framing, mem, df);
    hide Offset, FrameData, ParseValue, Direct, Readable, LegalRequest, ReadData, ExpandedBits, CrcOf, ReadAnswer;
    var n := df.maxDataSize;
    if v.functionCode.IsBits() {
      CoilVariable(mem, layout, scale, v, start, n);
    } else {
      var data := FrameData(framing, mem, df);
      var trailer := data[|ReadData(mem, v.functionCode, start, n)|..];
      assert data == ReadData(mem, v.functionCode, start, n) + trailer;
      RegisterValue(mem, layout, scale, v, start, n, trailer);
    }
  }

  lemma OffsetIs(code: ReadCode, start: nat, address: nat)
    requires start <= address < ADDRESSES
    ensures Offset(code, start, address) == (if code.IsBits() then 1 else 2) * (address - start)
  {
  }

  lemma FrameDataIs(framing: Framing, mem: Memory, df: ModBusDataFrame)
    requires LegalRequest(df)
    ensures var packed, data := ReadData(mem, df.functionCode, df.startAddress, df.maxDataSize),
            FrameData(framing, mem, df);
            if df.functionCode.IsBits() then data == ExpandedBits(packed, |packed|) else packed <= data
  {
  }

  /** The readings of some variables, each read alone. */
  function DirectReadings(mem: Memory, layout: MemoryLayout, scale: Scale, vs: seq<Variable>): (rs: seq<Reading>)
    ensures |rs| == |vs|
  {
    seq(|vs|, i requires 0 <= i < |vs| => ReadingOf(vs[i], Direct(mem, layout, scale, vs[i])))
  }

  /** They carry what the variables are, and what their values must be. */
  lemma DirectReadingsTell(mem: Memory, layout: MemoryLayout, scale: Scale, vs: seq<Variable>)
    ensures AllTell(mem, layout, scale, vs, DirectReadings(mem, layout, scale, vs))
  {
    hide Means, Direct;
    forall k | 0 <= k < |vs|
      ensures Tells(mem, layout, scale, vs[k], ReadingOf(vs[k], Direct(mem, layout, scale, vs[k])))
    {
      DirectMeans(mem, layout, scale, vs[k]);
    }
  }

  /** message: ask, with retries, and parse the answer. */
  method ReadFrame(df: ModBusDataFrame, framing: Framing, client: Client, net: Net, reconnect: nat -> bool,
                   scale: Scale)
    returns (o: Outcome, ghost tries: seq<Attempt>)
    requires df.Holds(framing)
    modifies df, (set vp | vp in df.variables :: vp.variable)`value
    ensures df.Holds(framing)
    ensures Attempts(df, framing, client, net, reconnect, old(df.transactionId), old(df.responseDataFrame), tries)
    ensures FrameOutcome(df, framing, reconnect, scale, tries, o)
    ensures forall mem | Honest(net, framing, mem, df.slave) && LegalRequest(df) ::
              && ((forall i :: reconnect(i)) && (exists i | 0 <= i < 3 :: Connected(net, framing, mem, df.slave, i)) ==>
                    !o.Failed?)
              && (!o.Failed? ==>
                   var data := FrameData(framing, mem, df);
                   if forall vp | vp in df.variables :: Readable(df.functionCode, vp, |data|) then
                     && o.Parsed? && |o.readings| == |df.variables|
                     && forall k | 0 <= k < |df.variables| ::
                          && Readable(df.functionCode, df.variables[k], |data|)
                          && o.readings[k] == ReadingOf(df.variables[k].variable,
                               ParseValue(df.functionCode, df.memoryLayout, scale, df.variables[k], data))
                   else o.Panic?)
  {
    hide FrameData, Extract, Honest, LegalRequest, Readable, ParseValue, RequestAdu, Attempts;
    var buf, err;
    buf, err, tries := Retry(df, framing, client, net, reconnect);
    if err == Overrun {
      return Panic, tries;
    } else if err != NoError {
      return Failed(err), tries;
    }
    o := ParseVariableValue(df, buf, scale);
  }

  /** What message makes of its attempts: their error, a panic, or the values in the data of the last one. */
  ghost predicate FrameOutcome(df: ModBusDataFrame, framing: Framing, reconnect: nat -> bool, scale: Scale,
                               tries: seq<Attempt>, o: Outcome)
  {
    && tries != []
    && var last := tries[|tries| - 1];
    && (o.Failed? <==> last.err in {BadConn, ServerBadResp})
    && (o.Failed? ==> EndsWith(tries, reconnect, o.error))
    && (last.err == Overrun ==> o == Panic)
    && (last.err == NoError ==>
          && |last.after| >= (if framing.Tcp? then 9 else 5)
          && Extract(framing, last.tid, df.slave, last.after).Data?
          && var data := Extract(framing, last.tid, df.slave, last.after).bytes;
             && (o.Parsed? <==> forall vp | vp in df.variables :: Readable(df.functionCode, vp, |data|))
             && (o.Parsed? ==>
                   && |o.readings| == |df.variables|
                   && forall k | 0 <= k < |df.variables| ::
                        && Readable(df.functionCode, df.variables[k], |data|)
                        && o.readings[k] == ReadingOf(df.variables[k].variable,
                             ParseValue(df.functionCode, df.memoryLayout, scale, df.variables[k], data))))
  }

  // ---------------------------------------------------------------- all frames of a function code

  /** What a user can check about the variables of a function code, in the order of their addresses. */
  ghost predicate WellPlaced(c: Config, code: ReadCode, vs: seq<Variable>) {
    && vs != [] && InRange(vs, code) && SortedByAddress(vs) && SortedByEnd(vs)
    && c.slave < 0x100 && c.position <= vs[0].address
    && c.position + (vs[0].End() - vs[0].address) <= WindowSize(code)
    && forall v | v in vs :: v.End() <= ADDRESSES
  }

  lemma GroupPlaced(c: Config, code: ReadCode, vs: seq<Variable>, groups: seq<seq<Variable>>, k: nat)
    requires WellPlaced(c, code, vs) && Concat(groups) == vs && Greedy(code, c.position, vs[0], groups)
    requires k < |groups|
    ensures LastEndsLast(StartOf(c.position, vs[0], groups, k), groups[k])
    ensures Within(code, StartOf(c.position, vs[0], groups, k), groups[k])
    ensures forall v | v in groups[k] :: v.functionCode == code
  {
    hide Within, Beyond, Concat, InRange, SortedByAddress, SortedByEnd, Greedy, LastEndsLast, At, StartOf;
    GreedyAt(code, c.position, vs[0], groups, k);
    FirstFrameEmpty(code, c.position, vs, groups);
    ConcatAt(groups, k);
    assert groups[k] != [];
    var at := At(groups, k);
    assert groups[k] == vs[at..at + |groups[k]|];
    StartIs(c.position, vs[0], groups, k);
    if k == 0 {
      AtZero(groups);
    }
    SlicePlaced(code, vs, at, groups[k], StartOf(c.position, vs[0], groups, k));
  }

  lemma StartIs(position: nat, first: Variable, groups: seq<seq<Variable>>, k: nat)
    requires k < |groups| && groups[k] != [] && position <= first.address < ADDRESSES
    ensures StartOf(position, first, groups, k) == if k == 0 then first.address - position else groups[k][0].address
  {
  }

  lemma AtZero(groups: seq<seq<Variable>>)
    ensures At(groups, 0) == 0
  {
    assert groups[..0] == [];
  }

  lemma GreedyAt(code: ReadCode, position: nat, first: Variable, groups: seq<seq<Variable>>, k: nat)
    requires Greedy(code, position, first, groups) && k < |groups|
    ensures Within(code, StartOf(position, first, groups, k), groups[k]) && (k > 0 ==> groups[k] != [])
  {
  }

  lemma SlicePlaced(code: ReadCode, vs: seq<Variable>, at: nat, g: seq<Variable>, start: nat)
    requires InRange(vs, code) && SortedByAddress(vs) && SortedByEnd(vs) && forall v | v in vs :: v.End() <= ADDRESSES
    requires at + |g| <= |vs| && g == vs[at..at + |g|] && g != [] && start <= g[0].address
    ensures LastEndsLast(start, g) && forall v | v in g :: v.functionCode == code
  {
    forall i | 0 <= i < |g|
      ensures start <= g[i].address && g[i].End() <= g[|g| - 1].End() && g[i] in vs
    {
      assert g[i] == vs[at + i] && g[0] == vs[at] && g[|g| - 1] == vs[at + |g| - 1];
    }
  }

  /** Any three attempts at frame k are made over nets(k). */
  ghost predicate AllReachable(nets: nat -> Net, reconnect: nat -> bool, framing: Framing, mem: Memory, slave: nat) {
    && (forall i :: reconnect(i))
    && forall k ::
         Honest(nets(k), framing, mem, slave) && exists i | 0 <= i < 3 :: Connected(nets(k), framing, mem, slave, i)
  }

  /** Every frame came out as reading each of its variables alone would. */
  ghost predicate AllDirect(os: seq<Outcome>, mem: Memory, layout: MemoryLayout, scale: Scale,
                            groups: seq<seq<Variable>>) {
    |os| == |groups| && forall k | 0 <= k < |groups| :: os[k] == Parsed(DirectReadings(mem, layout, scale, groups[k]))
  }

  /**
   The outcomes of the frames of a function code. Against a device that follows the standard and answers one of three
   attempts at each frame, they are the readings of the frames' variables read alone.
   */
  method FrameOutcomes(dfs: seq<ModBusDataFrame>, c: Config, code: ReadCode, nets: nat -> Net, reconnect: nat -> bool,
                       scale: Scale, ghost vs: seq<Variable>, ghost groups: seq<seq<Variable>>, ghost mem: Memory)
    returns (os: seq<Outcome>)
    requires vs != [] && FramesOf(dfs, c, code, vs[0], groups) && Concat(groups) == vs
    requires c.position <= vs[0].address ==> Greedy(code, c.position, vs[0], groups)
    modifies dfs, (set df, vp | df in dfs && vp in df.variables :: vp.variable)`value
    ensures FramesOf(dfs, c, code, vs[0], groups) && |os| == |groups|
    ensures WellPlaced(c, code, vs) && AllReachable(nets, reconnect, c.framing, mem, c.slave) ==>
              AllDirect(os, mem, c.layout, scale, groups)
  {
    hide Greedy, DirectReadings, AllReachable, WellPlaced, Parses, SizeOf, Reachable, InPlace, StartOf, Concat,
         RequestAdu, ResponseLength;
    os := [];
    for k := 0 to |dfs|
      invariant FramesOf(dfs, c, code, vs[0], groups) && |os| == k
      invariant WellPlaced(c, code, vs) && AllReachable(nets, reconnect, c.framing, mem, c.slave) ==>
                  forall j | 0 <= j < k :: os[j] == Parsed(DirectReadings(mem, c.layout, scale, groups[j]))
    {
      var o := ReadGroup(dfs[k], c, code, nets(k), reconnect, scale, StartOf(c.position, vs[0], groups, k), groups[k],
                         mem);
      if WellPlaced(c, code, vs) && AllReachable(nets, reconnect, c.framing, mem, c.slave) {
        PlacedPosition(c, code, vs);
        GroupReachable(c, code, vs, groups, nets, reconnect, mem, k);
      }
      os := os + [o];
    }
  }

  /** The readings of all frames, one frame after the other: those of the variables read alone. */
  method ReadFrames(dfs: seq<ModBusDataFrame>, c: Config, code: ReadCode, nets: nat -> Net, reconnect: nat -> bool,
                    scale: Scale, ghost vs: seq<Variable>, ghost groups: seq<seq<Variable>>, ghost mem: Memory)
    returns (rs: seq<Reading>)
    requires vs != [] && FramesOf(dfs, c, code, vs[0], groups) && Concat(groups) == vs
    requires c.position <= vs[0].address ==> Greedy(code, c.position, vs[0], groups)
    modifies dfs, (set df, vp | df in dfs && vp in df.variables :: vp.variable)`value
    ensures FramesOf(dfs, c, code, vs[0], groups)
    ensures WellPlaced(c, code, vs) && AllReachable(nets, reconnect, c.framing, mem, c.slave) ==>
              rs == DirectReadings(mem, c.layout, scale, vs) && AllTell(mem, c.layout, scale, vs, rs)
  {
    hide FramesOf, Greedy, DirectReadings, AllReachable, WellPlaced, Concat, AllTell;
    DirectReadingsTell(mem, c.layout, scale, vs);
    var os := FrameOutcomes(dfs, c, code, nets, reconnect, scale, vs, groups, mem);
    rs := [];
    NothingRead(mem, c.layout, scale);
    for k := 0 to |os|
      invariant FramesOf(dfs, c, code, vs[0], groups)
      invariant AllDirect(os, mem, c.layout, scale, groups) ==>
                  rs == DirectReadings(mem, c.layout, scale, Concat(groups[..k]))
    {
      ReadingsConcat(mem, c.layout, scale, groups, k);
      if os[k].Parsed? {
        rs := rs + os[k].readings;
      }
    }
    assert groups[..|os|] == groups;
  }

  lemma PlacedPosition(c: Config, code: ReadCode, vs: seq<Variable>)
    requires WellPlaced(c, code, vs)
    ensures c.position <= vs[0].address
  {
  }

  lemma NothingRead(mem: Memory, layout: MemoryLayout, scale: Scale)
    ensures DirectReadings(mem, layout, scale, Concat([])) == []
  {
  }

  lemma ReadingsConcat(mem: Memory, layout: MemoryLayout, scale: Scale, groups: seq<seq<Variable>>, k: nat)
    requires k < |groups|
    ensures DirectReadings(mem, layout, scale, Concat(groups[..k + 1]))
         == DirectReadings(mem, layout, scale, Concat(groups[..k])) + DirectReadings(mem, layout, scale, groups[k])
  {
    assert groups[..k + 1][..k] == groups[..k];
  }

  ghost predicate Reachable(net: Net, reconnect: nat -> bool, framing: Framing, mem: Memory, slave: nat) {
    && (forall i :: reconnect(i)) && Honest(net, framing, mem, slave)
    && exists i | 0 <= i < 3 :: Connected(net, framing, mem, slave, i)
  }

  lemma GroupReachable(c: Config, code: ReadCode, vs: seq<Variable>, groups: seq<seq<Variable>>, nets: nat -> Net,
                       reconnect: nat -> bool, mem: Memory, k: nat)
    requires WellPlaced(c, code, vs) && AllReachable(nets, reconnect, c.framing, mem, c.slave)
    requires Concat(groups) == vs && Greedy(code, c.position, vs[0], groups) && k < |groups|
    ensures Reachable(nets(k), reconnect, c.framing, mem, c.slave)
    ensures c.slave < 0x100 && InPlace(code, StartOf(c.position, vs[0], groups, k), groups[k])
  {
    GroupPlaced(c, code, vs, groups, k);
  }

  predicate InPlace(code: ReadCode, start: nat, vs: seq<Variable>) {
    LastEndsLast(start, vs) && Within(code, start, vs) && forall v | v in vs :: v.functionCode == code
  }

  method ReadGroup(df: ModBusDataFrame, c: Config, code: ReadCode, net: Net, reconnect: nat -> bool, scale: Scale,
                   ghost start: nat, ghost vs: seq<Variable>, ghost mem: Memory)
    returns (o: Outcome)
    requires FrameOf(df, c, code, start, vs)
    modifies df, (set vp | vp in df.variables :: vp.variable)`value
    ensures FrameOf(df, c, code, start, vs)
    ensures c.slave < 0x100 && InPlace(code, start, vs) && Reachable(net, reconnect, c.framing, mem, c.slave) ==>
              o == Parsed(DirectReadings(mem, c.layout, scale, vs))
  {
    hide Readable, ParseValue, Direct, FrameData, LegalRequest, Within, Honest, LastEndsLast;
    ghost var tries;
    o, tries := ReadFrame(df, c.framing, c.client, net, reconnect, scale);
    if c.slave < 0x100 && InPlace(code, start, vs) && Reachable(net, reconnect, c.framing, mem, c.slave) {
      FrameRead(df, c, code, start, vs, mem, scale);
      assert o.readings == DirectReadings(mem, c.layout, scale, vs);
    }
  }

  lemma FrameRead(df: ModBusDataFrame, c: Config, code: ReadCode, start: nat, vs: seq<Variable>, mem: Memory,
                  scale: Scale)
    requires FrameOf(df, c, code, start, vs) && c.slave < 0x100
    requires LastEndsLast(start, vs) && Within(code, start, vs) && forall v | v in vs :: v.functionCode == code
    ensures LegalRequest(df)
    ensures var data := FrameData(c.framing, mem, df);
            forall k | 0 <= k < |vs| ::
              && df.variables[k].variable == vs[k]
              && Readable(code, df.variables[k], |data|)
              && ParseValue(code, c.layout, scale, df.variables[k], data) == Direct(mem, c.layout, scale, vs[k])
    ensures forall vp | vp in df.variables :: Readable(code, vp, |FrameData(c.framing, mem, df)|)
  {
    hide Readable, ParseValue, Direct, FrameData, LegalRequest, Within;
    FrameTransparent(df, c, code, start, vs, mem, scale, 0);
    forall k | 0 <= k < |vs|
      ensures Readable(code, df.variables[k], |FrameData(c.framing, mem, df)|)
      ensures ParseValue(code, c.layout, scale, df.variables[k], FrameData(c.framing, mem, df))
              == Direct(mem, c.layout, scale, vs[k])
    {
      FrameTransparent(df, c, code, start, vs, mem, scale, k);
    }
  }

  // ---------------------------------------------------------------- a device

  function VariablesOf(variables: seq<Variable>, code: ReadCode): seq<Variable> {
    if variables == [] then []
    else
      var n := |variables| - 1;
      VariablesOf(variables[..n], code) + if variables[n].functionCode == code then [variables[n]] else []
  }

  /** How the variables of a function code were sorted and cut into groups. */
  datatype Packing = Packing(vs: seq<Variable>, groups: seq<seq<Variable>>)

  ghost predicate Batched(dfs: seq<ModBusDataFrame>, p: Packing, c: Config, code: ReadCode, variables: seq<Variable>)
    reads dfs
  {
    && p.vs != [] && InRange(p.vs, code) && SortedByAddress(p.vs)
    && multiset(p.vs) == multiset(VariablesOf(variables, code))
    && Concat(p.groups) == p.vs && FramesOf(dfs, c, code, p.vs[0], p.groups)
    && (c.position <= p.vs[0].address ==> Greedy(code, c.position, p.vs[0], p.groups))
  }

  /** NewBroker's grouping by function code, sorting and packing. A device without variables is refused. */
  method NewBroker(c: Config, variables: seq<Variable>)
    returns (frames: map<ReadCode, seq<ModBusDataFrame>>, frameCount: nat, ghost packings: map<ReadCode, Packing>)
    requires forall v | v in variables :: v.address + 0x1_0000 < TWO64
    ensures forall code :: code in frames <==> VariablesOf(variables, code) != []
    ensures packings.Keys == frames.Keys
    ensures forall code | code in frames :: Batched(frames[code], packings[code], c, code, variables)
    ensures forall code, df | code in frames && df in frames[code] :: fresh(df)
    ensures frameCount == 0 <==> variables == []
  {
    hide Batched, InRange, VariablesOf;
    var byCode := GroupByCode(variables);
    frames, frameCount, packings := map[], 0, map[];
    var codes := byCode.Keys;
    while codes != {}
      invariant codes <= byCode.Keys && frames.Keys == packings.Keys == byCode.Keys - codes
      invariant forall code | code in frames :: Batched(frames[code], packings[code], c, code, variables)
      invariant forall code, df | code in frames && df in frames[code] :: fresh(df)
      invariant frameCount > 0 <==> frames != map[]
      decreases codes
    {
      var code :| code in codes;
      CodeInRange(variables, code);
      var dfs, p := BatchCode(c, code, byCode[code], variables);
      frames := frames[code := dfs];
      packings := packings[code := p];
      frameCount := frameCount + |dfs|;
      codes := codes - {code};
    }
    SomeCode(variables);
  }

  lemma CodeInRange(variables: seq<Variable>, code: ReadCode)
    requires forall v | v in variables :: v.address + 0x1_0000 < TWO64
    ensures InRange(VariablesOf(variables, code), code)
  {
    VariablesOfIn(variables, code);
  }

  lemma SomeCode(variables: seq<Variable>)
    ensures variables != [] <==> exists code :: VariablesOf(variables, code) != []
  {
    if variables != [] {
      assert VariablesOf(variables, variables[|variables| - 1].functionCode) != [];
    }
  }

  method GroupByCode(variables: seq<Variable>) returns (byCode: map<ReadCode, seq<Variable>>)
    ensures forall code :: code in byCode <==> VariablesOf(variables, code) != []
    ensures forall code | code in byCode :: byCode[code] == VariablesOf(variables, code)
  {
    assert forall code :: VariablesOf(variables[..0], code) == [];
    hide VariablesOf;
    byCode := map[];
    for i := 0 to |variables|
      invariant forall code :: code in byCode <==> VariablesOf(variables[..i], code) != []
      invariant forall code | code in byCode :: byCode[code] == VariablesOf(variables[..i], code)
    {
      var v := variables[i];
      OneMoreVariable(variables, i);
      byCode := byCode[v.functionCode := (if v.functionCode in byCode then byCode[v.functionCode] else []) + [v]];
    }
    assert variables[..|variables|] == variables;
  }

  lemma OneMoreVariable(variables: seq<Variable>, i: nat)
    requires i < |variables|
    ensures forall code :: VariablesOf(variables[..i + 1], code)
                        == VariablesOf(variables[..i], code) + if variables[i].functionCode == code then [variables[i]]
                          else []
  {
    assert variables[..i + 1][..i] == variables[..i];
  }

  method BatchCode(c: Config, code: ReadCode, vs: seq<Variable>, ghost variables: seq<Variable>)
    returns (dfs: seq<ModBusDataFrame>, ghost p: Packing)
    requires vs != [] && InRange(vs, code) && vs == VariablesOf(variables, code)
    ensures Batched(dfs, p, c, code, variables) && dfs != [] && fresh(set df | df in dfs)
  {
    hide Greedy, SortedByAddress;
    var sorted := SortVariables(vs);
    SamePermutation(vs, sorted, code);
    ghost var groups;
    dfs, groups := PackVariables(c, code, sorted);
    p := Packing(sorted, groups);
    assert Concat<Variable>([]) == [];
  }

  lemma SamePermutation(vs: seq<Variable>, sorted: seq<Variable>, code: ReadCode)
    requires multiset(vs) == multiset(sorted) && InRange(vs, code) && vs != []
    ensures InRange(sorted, code) && sorted != []
  {
    forall v | v in sorted
      ensures v in vs
    {
      assert v in multiset(sorted);
    }
    assert vs[0] in multiset(sorted);
  }

  lemma {:induction false} VariablesOfIn(variables: seq<Variable>, code: ReadCode)
    ensures forall v :: v in VariablesOf(variables, code) <==> v in variables && v.functionCode == code
  {
    if variables != [] {
      VariablesOfIn(variables[..|variables| - 1], code);
    }
  }

  /** Each variable is in some frame of its function code, as often as the device lists it, and nothing else is. */
  lemma EveryVariableInAFrame(packings: map<ReadCode, Packing>, frames: map<ReadCode, seq<ModBusDataFrame>>, c: Config,
                              variables: seq<Variable>, v: Variable)
    requires packings.Keys == frames.Keys
    requires forall code :: code in frames <==> VariablesOf(variables, code) != []
    requires forall code | code in frames :: Batched(frames[code], packings[code], c, code, variables)
    ensures v in variables <==>
              v.functionCode in packings
              && exists k :: 0 <= k < |packings[v.functionCode].groups| && v in packings[v.functionCode].groups[k]
    ensures v in variables ==> multiset(Concat<Variable>(packings[v.functionCode].groups))[v] == multiset(variables)[v]
  {
    hide FramesOf, Greedy, SortedByAddress, InRange;
    var code := v.functionCode;
    VariablesOfIn(variables, code);
    VariablesOfCount(variables, v);
    if code in frames {
      var p := packings[code];
      assert v in p.vs <==> v in multiset(p.vs);
      assert v in VariablesOf(variables, code) <==> v in multiset(VariablesOf(variables, code));
      ConcatMembers(p.groups, v);
    }
  }

  lemma {:induction false} VariablesOfCount(variables: seq<Variable>, v: Variable)
    ensures multiset(VariablesOf(variables, v.functionCode))[v] == multiset(variables)[v]
  {
    if variables != [] {
      var n := |variables| - 1;
      VariablesOfCount(variables[..n], v);
      assert variables == variables[..n] + [variables[n]];
    }
  }

  // ---------------------------------------------------------------- where the condition is needed

  /**
   A frame is only as long as its last variable needs. Its parsing does not panic if and only if no variable of the
   frame ends after the last one; with serial framing the two bytes of the CRC make room for one register more.
   */
  lemma FrameReadableIff(df: ModBusDataFrame, c: Config, code: ReadCode, start: nat, vs: seq<Variable>, mem: Memory)
    requires FrameOf(df, c, code, start, vs) && c.slave < 0x100 && !code.IsBits() && vs != []
    requires forall v | v in vs :: v.functionCode == code && v.dataType !in {NUMBER, STRING}
    requires forall v | v in vs :: start <= v.address && v.End() <= ADDRESSES
    requires Within(code, start, vs)
    ensures LegalRequest(df)
    ensures (forall vp | vp in df.variables :: Readable(code, vp, |FrameData(c.framing, mem, df)|))
            <==> forall v | v in vs :: v.End() <= vs[|vs| - 1].End() + if c.framing.Tcp? then 0 else 1
  {
    FrameLength(df, c, code, start, vs, mem);
    hide FrameOf, Within, FrameData, LegalRequest, Readable;
    var last := vs[|vs| - 1];
    AllReadableIff(code, df.variables, vs, start, last.End() + if c.framing.Tcp? then 0 else 1);
  }

  lemma FrameLength(df: ModBusDataFrame, c: Config, code: ReadCode, start: nat, vs: seq<Variable>, mem: Memory)
    requires FrameOf(df, c, code, start, vs) && c.slave < 0x100 && !code.IsBits() && vs != []
    requires forall v | v in vs :: start <= v.address && v.End() <= ADDRESSES
    requires Within(code, start, vs)
    ensures LegalRequest(df) && df.maxDataSize == vs[|vs| - 1].End() - start
    ensures |FrameData(c.framing, mem, df)| == 2 * (vs[|vs| - 1].End() - start + if c.framing.Tcp? then 0 else 1)
    ensures |df.variables| == |vs|
    ensures forall k | 0 <= k < |vs| :: df.variables[k] == VariableParse(vs[k], Offset(code, start, vs[k].address))
  {
    hide CrcOf, ExpandedBits, ReadAnswer;
    assert vs[|vs| - 1] in vs;
  }

  /** Every variable of the frame is parsed to the value it has in the memory. */
  ghost predicate ReadsAll(df: ModBusDataFrame, c: Config, code: ReadCode, vs: seq<Variable>, mem: Memory, scale: Scale)
    requires LegalRequest(df) && |df.variables| == |vs|
    reads df
  {
    forall k | 0 <= k < |vs| ::
      && Readable(code, df.variables[k], |FrameData(c.framing, mem, df)|)
      && ParseValue(code, c.layout, scale, df.variables[k], FrameData(c.framing, mem, df))
        == Direct(mem, c.layout, scale, vs[k])
  }

  /**
   With either framing, the numbers of a frame are read right from every memory if and only if no variable ends after
   the last one: with serial framing, where the parser may not panic, it takes CRC bytes for a register.
   */
  lemma FrameRightIff(df: ModBusDataFrame, c: Config, code: ReadCode, start: nat, vs: seq<Variable>, scale: Scale)
    requires FrameOf(df, c, code, start, vs) && c.slave < 0x100 && !code.IsBits() && vs != []
    requires forall v | v in vs :: v.functionCode == code && start <= v.address && v.End() <= ADDRESSES
    requires forall v | v in vs :: IsNumber(v.dataType) && PlainRate(v)
    requires Within(code, start, vs)
    ensures LegalRequest(df) && |df.variables| == |vs|
    ensures (forall mem :: ReadsAll(df, c, code, vs, mem, scale))
            <==> forall v | v in vs :: v.End() <= vs[|vs| - 1].End()
  {
    FrameLength(df, c, code, start, vs, OneRegister(0, 0));
    hide FrameOf, Within, LegalRequest, ReadsAll;
    if forall v | v in vs :: v.End() <= vs[|vs| - 1].End() {
      forall mem ensures ReadsAll(df, c, code, vs, mem, scale) {
        RightFrame(df, c, code, start, vs, mem, scale);
      }
    }
    if forall mem :: ReadsAll(df, c, code, vs, mem, scale) {
      forall k | 0 <= k < |vs| ensures vs[k].End() <= vs[|vs| - 1].End() {
        assert vs[k] in vs;
        if vs[k].End() > vs[|vs| - 1].End() {
          var r := vs[k].End() - 1;
          assert ReadsAll(df, c, code, vs, OneRegister(r, 0), scale)
                 && ReadsAll(df, c, code, vs, OneRegister(r, 1), scale);
          WrongFrame(df, c, code, start, vs, scale, k);
        }
      }
    }
  }

  /** Parsing what the device answers runs past the data. */
  ghost predicate Panics(df: ModBusDataFrame, c: Config, mem: Memory)
    requires LegalRequest(df)
    reads df
  {
    exists vp | vp in df.variables :: !Readable(df.functionCode, vp, |FrameData(c.framing, mem, df)|)
  }

  /**
   Two variables that the packing puts into such a frame, listed in either order: an INT64 at address 0 and an INT16 at
   address 1. Whatever is in the memory, parsing panics.
   */
  method LastEndsFirst(c: Config, swapped: bool, scale: Scale) returns (vs: seq<Variable>, df: ModBusDataFrame)
    requires c.position == 0 && c.slave < 0x100
    ensures |vs| == 2 && forall v | v in vs :: v.functionCode == ReadHoldRegister && v.rate == 0.0
    ensures vs[0].dataType == INT64 && vs[0].address == 0 && vs[1].dataType == INT16 && vs[1].address == 1
    ensures FrameOf(df, c, ReadHoldRegister, 0, vs) && LegalRequest(df) && |df.variables| == 2
    ensures forall mem :: Panics(df, c, mem)
    ensures !forall mem :: ReadsAll(df, c, ReadHoldRegister, vs, mem, scale)
  {
    hide Batched, FrameOf, LegalRequest, Panics, ReadsAll, VariablesOf;
    var long := new Variable("long", INT64, 0, 0, ReadHoldRegister, 0.0);
    var short := new Variable("short", INT16, 1, 0, ReadHoldRegister, 0.0);
    vs := [long, short];
    var listed := if swapped then [short, long] else vs;
    var frames, _, packings := NewBroker(c, listed);
    BothOf(listed, ReadHoldRegister);
    OneFrame(frames[ReadHoldRegister], packings[ReadHoldRegister], c, listed, vs);
    df := frames[ReadHoldRegister][0];
    NeverReadable(df, c, vs, scale);
  }

  lemma NeverReadable(df: ModBusDataFrame, c: Config, vs: seq<Variable>, scale: Scale)
    requires |vs| == 2 && (forall v | v in vs :: v.functionCode == ReadHoldRegister && v.rate == 0.0)
    requires vs[0].dataType == INT64 && vs[0].address == 0 && vs[1].dataType == INT16 && vs[1].address == 1
    requires FrameOf(df, c, ReadHoldRegister, 0, vs) && c.slave < 0x100
    ensures LegalRequest(df) && |df.variables| == 2
    ensures forall mem :: Panics(df, c, mem)
    ensures !forall mem :: ReadsAll(df, c, ReadHoldRegister, vs, mem, scale)
  {
    assert df.functionCode == ReadHoldRegister;
    hide FrameOf, LegalRequest, Readable, FrameData, ReadsAll;
    assert vs[0].End() == 4 && vs[1].End() == 2;
    FrameRightIff(df, c, ReadHoldRegister, 0, vs, scale);
    forall mem ensures Panics(df, c, mem) {
      FrameReadableIff(df, c, ReadHoldRegister, 0, vs, mem);
    }
  }

  lemma BothOf(variables: seq<Variable>, code: ReadCode)
    requires |variables| == 2 && variables[0].functionCode == variables[1].functionCode == code
    ensures VariablesOf(variables, code) == variables
  {
    assert variables[..1] == [variables[0]] && [variables[0]][..0] == [];
    assert VariablesOf([variables[0]], code) == [variables[0]];
  }

  lemma OneFrame(dfs: seq<ModBusDataFrame>, p: Packing, c: Config, listed: seq<Variable>, vs: seq<Variable>)
    requires Batched(dfs, p, c, ReadHoldRegister, listed) && VariablesOf(listed, ReadHoldRegister) == listed
    requires c.position == 0 && |vs| == 2 && multiset(listed) == multiset(vs) && vs[0].address < vs[1].address
    requires Within(ReadHoldRegister, vs[0].address, vs) && vs[0].address < TWO64
    ensures |dfs| == 1 && FrameOf(dfs[0], c, ReadHoldRegister, vs[0].address, vs)
  {
    hide Greedy, FrameOf, VariablesOf, InRange, Concat, SortedByAddress;
    TwoSorted(p.vs, vs);
    OneGroup(ReadHoldRegister, p.vs, p.groups);
  }

  lemma TwoSorted(sorted: seq<Variable>, vs: seq<Variable>)
    requires SortedByAddress(sorted) && |vs| == 2 && vs[0].address < vs[1].address && multiset(sorted) == multiset(vs)
    ensures sorted == vs
  {
    assert |sorted| == |multiset(sorted)| == |multiset(vs)| == 2;
    assert vs[0] in multiset(sorted) && vs[1] in multiset(sorted);
  }

  lemma RightFrame(df: ModBusDataFrame, c: Config, code: ReadCode, start: nat, vs: seq<Variable>, mem: Memory,
                   scale: Scale)
    requires FrameOf(df, c, code, start, vs) && c.slave < 0x100 && |df.variables| == |vs|
    requires LastEndsLast(start, vs) && Within(code, start, vs) && forall v | v in vs :: v.functionCode == code
    ensures LegalRequest(df) && ReadsAll(df, c, code, vs, mem, scale)
  {
    hide FrameOf, Within, Readable, ParseValue, Direct, FrameData, LegalRequest;
    FrameRead(df, c, code, start, vs, mem, scale);
  }

  /** A memory of zeros but for one register. */
  function OneRegister(r: nat, w: Word): Memory {
    var words: nat -> Word := a => if a == r then w else 0;
    Memory(a => false, a => false, words, words)
  }

  /** Two memories that differ in a register behind the frame give the same data, but not the same values. */
  lemma WrongFrame(df: ModBusDataFrame, c: Config, code: ReadCode, start: nat, vs: seq<Variable>, scale: Scale, k: nat)
    requires LegalRequest(df) && df.functionCode == code && !code.IsBits() && |df.variables| == |vs| && k < |vs|
    requires vs[k].functionCode == code && IsNumber(vs[k].dataType) && PlainRate(vs[k])
    requires vs[k].End() > df.startAddress + df.maxDataSize
    requires ReadsAll(df, c, code, vs, OneRegister(vs[k].End() - 1, 0), scale)
    ensures !ReadsAll(df, c, code, vs, OneRegister(vs[k].End() - 1, 1), scale)
  {
    hide LegalRequest, Readable, ParseValue, Direct, FrameData;
    SameData(c.framing, df, vs[k].End() - 1);
    OtherValue(c.layout, scale, vs[k]);
  }

  lemma SameData(framing: Framing, df: ModBusDataFrame, r: nat)
    requires LegalRequest(df) && !df.functionCode.IsBits() && r >= df.startAddress + df.maxDataSize
    ensures FrameData(framing, OneRegister(r, 0), df) == FrameData(framing, OneRegister(r, 1), df)
  {
    var code, start, n := df.functionCode, df.startAddress, df.maxDataSize;
    assert WordsAt(OneRegister(r, 0), code, start, n) == WordsAt(OneRegister(r, 1), code, start, n);
    hide CrcOf, WordBytes;
  }

  lemma OtherValue(layout: MemoryLayout, scale: Scale, v: Variable)
    requires !v.functionCode.IsBits() && IsNumber(v.dataType) && PlainRate(v)
    ensures Direct(OneRegister(v.End() - 1, 0), layout, scale, v)
            != Direct(OneRegister(v.End() - 1, 1), layout, scale, v)
  {
    var r, n := v.End() - 1, Words(v.dataType);
    var zeros := WordsAt(OneRegister(r, 0), v.functionCode, v.address, n);
    var ws := WordsAt(OneRegister(r, 1), v.functionCode, v.address, n);
    assert ws[n - 1] == 1 && ws[n - 1] in ws;
    assert forall w | w in zeros :: w == 0;
    hide OneRegister, WordsAt, Words, WordsValue, Typed, WordsBound;
    WordsValueRange(layout, zeros);
    WordsValueRange(layout, ws);
    TypedNotZero(v.dataType, WordsValue(layout, ws));
  }

  lemma TypedNotZero(dataType: DataType, x: nat)
    requires IsNumber(dataType) && 0 < x < WordsBound(Words(dataType))
    ensures Typed(dataType, x) != Typed(dataType, 0)
  {
    Pow2Values();
    assert WordsBound(1) == 0x1_0000 && WordsBound(2) == 0x1_0000_0000 && WordsBound(4) == TWO64;
    hide Pow2, WordsBound;
  }

  lemma OneReadableIff(code: ReadCode, v: Variable, start: nat, end: nat)
    requires !code.IsBits() && start <= end && v.functionCode == code
    requires start <= v.address && v.End() <= ADDRESSES && v.dataType !in {NUMBER, STRING}
    ensures Readable(code, VariableParse(v, Offset(code, start, v.address)), 2 * (end - start)) <==> v.End() <= end
  {
    hide Offset, Words;
    OffsetIs(code, start, v.address);
  }

  lemma AllReadableIff(code: ReadCode, vps: seq<VariableParse>, vs: seq<Variable>, start: nat, end: nat)
    requires !code.IsBits() && |vps| == |vs| && start <= end
    requires forall k | 0 <= k < |vs| :: vps[k] == VariableParse(vs[k], Offset(code, start, vs[k].address))
    requires forall v | v in vs :: v.functionCode == code && v.dataType !in {NUMBER, STRING}
    requires forall v | v in vs :: start <= v.address && v.End() <= ADDRESSES
    ensures (forall vp | vp in vps :: Readable(code, vp, 2 * (end - start))) <==> forall v | v in vs :: v.End() <= end
  {
    forall k | 0 <= k < |vs| ensures Readable(code, vps[k], 2 * (end - start)) <==> vs[k].End() <= end {
      assert vs[k] in vs;
      OneReadableIff(code, vs[k], start, end);
    }
    hide Readable;
    if forall vp | vp in vps :: Readable(code, vp, 2 * (end - start)) {
      forall v | v in vs ensures v.End() <= end {
        var k :| 0 <= k < |vs| && vs[k] == v;
        assert vps[k] in vps;
      }
    }
    if forall v | v in vs :: v.End() <= end {
      forall vp | vp in vps ensures Readable(code, vp, 2 * (end - start)) {
        var k :| 0 <= k < |vps| && vps[k] == vp;
        assert vs[k] in vs;
      }
    }
  }
}
