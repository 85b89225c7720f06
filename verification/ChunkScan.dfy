/**
 The recovery scan of IterateAllChunks as functions on bytes, and what it finds in files written by WriteChunk.
 */
module ChunkScan {
  import opened Bits
  import opened Varint
  import opened ChunkRecord

  /** What the callback of IterateAllChunks is told about one chunk. */
  datatype Report = Report(series: UInt64, ref: UInt64, mint: Int64, maxt: Int64, samples: nat)

  /** The reports of one file, in order, and whether the scan reached its end without an error. */
  datatype Scan = Scan(reports: seq<Report>, ok: bool)

  predicate AllZero(s: seq<Byte>) {
    forall i | 0 <= i < |s| :: s[i] == 0
  }

  /** The fields of the record at the start of tail. */
  function Series(tail: seq<Byte>): UInt64
    requires |tail| >= 24
  {
    U64(tail[..8])
  }

  function Mint(tail: seq<Byte>): Int64
    requires |tail| >= 24
  {
    ToInt64(U64(tail[8..16]))
  }

  function Maxt(tail: seq<Byte>): Int64
    requires |tail| >= 24
  {
    ToInt64(U64(tail[16..24]))
  }

  /** A record that the scan takes for the end of the data. */
  predicate EndMark(tail: seq<Byte>)
    requires |tail| >= 24
  {
    Series(tail) == 0 && Mint(tail) == 0 && Maxt(tail) == 0
  }

  /** One turn of the loop over a file: a report and the size of its record, or the end, with or without an error. */
  datatype Turn = Chunk(report: Report, size: nat) | End | Corrupt

  function ScanTurn(crc: Checksum, file: nat, idx: nat, tail: seq<Byte>): (t: Turn)
    ensures t.Chunk? ==> 0 < t.size <= |tail|
  {
    if tail == [] then End
    else if |tail| < MAX_META_SIZE then if AllZero(tail) then End else Corrupt
    else if EndMark(tail) then End
    else
      var (length, n) := Uvarint(tail[25..30]);
      var dataEnd := 25 + n + length;
      if dataEnd + CRC_SIZE > |tail| || crc(tail[..dataEnd]) != tail[dataEnd..dataEnd + CRC_SIZE] then Corrupt
      else
        var samples := BigEndian(tail[25 + n..27 + n]);
        Turn.Chunk(Report(Series(tail), ChunkRef(file, idx), Mint(tail), Maxt(tail), samples), dataEnd + CRC_SIZE)
  }

  /** The loop over one file: tail is what follows position idx. */
  function ScanTail(crc: Checksum, file: nat, idx: nat, tail: seq<Byte>): Scan
    decreases |tail|
  {
    match ScanTurn(crc, file, idx, tail)
    case Chunk(report, size) =>
      var rest := ScanTail(crc, file, idx + size, tail[size..]);
      Scan([report] + rest.reports, rest.ok)
    case End => Scan([], true)
    case Corrupt => Scan([], false)
  }

  /** One file: bytes are its mapping up to fileEnd. A file shorter than its header is an error. */
  function ScanFile(crc: Checksum, file: nat, bytes: seq<Byte>): Scan
  {
    if |bytes| < HEADER_SIZE then Scan([], false)
    else ScanTail(crc, file, HEADER_SIZE, bytes[HEADER_SIZE..])
  }

  // ---------------------------------------------------------------- what is found

  /** The sample count is the first two bytes of the chunk (of its checksum, if the chunk is shorter). */
  function EntryReport(crc: Checksum, file: nat, offset: nat, e: Entry): Report {
    Report(e.series, ChunkRef(file, offset), e.mint, e.maxt,
           BigEndian((e.chunk.bytes + crc(Meta(e) + e.chunk.bytes))[..2]))
  }

  /** What the scan should report of a file: one report for each entry, in writing order. */
  function FileReports(crc: Checksum, file: nat, at: nat, es: seq<Entry>): (rs: seq<Report>)
    ensures |rs| == |es|
    decreases |es|
  {
    if es == [] then []
    else [EntryReport(crc, file, at, es[0])] + FileReports(crc, file, at + RecordSize(es[0]), es[1..])
  }

  lemma Split(crc: Checksum, es: seq<Entry>)
    requires es != []
    ensures Records(crc, es) == Record(crc, es[0]) + Records(crc, es[1..])
  {
    assert es == [es[0]] + es[1..];
    RecordsConcat(crc, [es[0]], es[1..]);
  }

  predicate ZeroIds(e: Entry) {
    e.series == 0 && e.mint == 0 && e.maxt == 0
  }

  /**
   When the scan finds everything: no record looks like the end of the data, and the last record, with the padding
   zeros after it, has the size of the largest record head.
   */
  predicate Recoverable(es: seq<Entry>, padding: nat) {
    && (forall i | 0 <= i < |es| :: !ZeroIds(es[i]))
    && (es != [] ==> RecordSize(es[|es| - 1]) + padding >= MAX_META_SIZE)
  }

  lemma FieldsOfRecord(crc: Checksum, e: Entry, after: seq<Byte>)
    ensures var tail := Record(crc, e) + after;
            Series(tail) == e.series && Mint(tail) == e.mint && Maxt(tail) == e.maxt
  {
    var tail := Record(crc, e) + after;
    var s, lo, hi := ToBigEndian(e.series, 8), ToBigEndian(ToUInt64(e.mint), 8), ToBigEndian(ToUInt64(e.maxt), 8);
    hide ToBigEndian, BigEndian, UvarintBytes;
    assert tail[..8] == s && tail[8..16] == lo && tail[16..24] == hi;
    Pow2Values();
    BigEndianRoundTrip(e.series, 8);
    BigEndianRoundTrip(ToUInt64(e.mint), 8);
    BigEndianRoundTrip(ToUInt64(e.maxt), 8);
  }

  lemma RecordSlices(meta: seq<Byte>, data: seq<Byte>, sum: seq<Byte>, after: seq<Byte>)
    requires |sum| == 4
    ensures var tail := meta + data + sum + after;
            var dataEnd := |meta| + |data|;
            && tail[..dataEnd] == meta + data && tail[dataEnd..dataEnd + 4] == sum && tail[dataEnd + 4..] == after
            && tail[|meta|..|meta| + 2] == (data + sum)[..2]
  {
  }

  /** One turn of the loop at the start of a whole record. */
  lemma ScanRecord(crc: Checksum, file: nat, idx: nat, e: Entry, after: seq<Byte>)
    requires |e.chunk.bytes| < TWO32 && !ZeroIds(e) && RecordSize(e) + |after| >= MAX_META_SIZE
    ensures ScanTurn(crc, file, idx, Record(crc, e) + after)
            == Turn.Chunk(EntryReport(crc, file, idx, e), RecordSize(e))
  {
    hide Meta, Series, Mint, Maxt, ChunkRef, BigEndian, Uvarint, UvarintBytes, AllZero;
    var body := Meta(e) + e.chunk.bytes;
    var sum := crc(body);
    var tail := Record(crc, e) + after;
    FieldsOfRecord(crc, e, after);
    assert tail == Meta(e) + e.chunk.bytes + (sum + after);
    LengthField(e, sum + after);
    RecordSlices(Meta(e), e.chunk.bytes, sum, after);
  }

  function Zeros(n: nat): (s: seq<Byte>)
    ensures |s| == n && AllZero(s)
  {
    seq(n, i => 0)
  }

  lemma ScanZeros(crc: Checksum, file: nat, idx: nat, n: nat)
    ensures ScanTail(crc, file, idx, Zeros(n)) == Scan([], true)
  {
    if n >= MAX_META_SIZE {
      BigEndianZeros(8);
      assert Zeros(n)[..8] == Zeros(n)[8..16] == Zeros(n)[16..24] == Zeros(8);
    }
  }

  lemma {:induction false} BigEndianZeros(n: nat)
    ensures BigEndian(Zeros(n)) == 0
  {
    if n > 0 {
      assert Zeros(n)[..n - 1] == Zeros(n - 1);
      BigEndianZeros(n - 1);
    }
  }

  /** The scan of any log, from any position, followed by any number of zeros. */
  lemma {:induction false} ScanRecords(crc: Checksum, file: nat, idx: nat, es: seq<Entry>, padding: nat)
    requires SizesFit(es)
    ensures Recoverable(es, padding) ==>
              ScanTail(crc, file, idx, Records(crc, es) + Zeros(padding)) == Scan(FileReports(crc, file, idx, es), true)
    ensures !Recoverable(es, padding) ==>
              |ScanTail(crc, file, idx, Records(crc, es) + Zeros(padding)).reports| < |es|
    decreases |es|
  {
    hide Record, RecordSize, ScanTurn, EntryReport, EndMark;
    if es == [] {
      assert Records(crc, es) + Zeros(padding) == Zeros(padding);
      ScanZeros(crc, file, idx, padding);
    } else {
      var e, rest := es[0], es[1..];
      Split(crc, es);
      var after := Records(crc, rest) + Zeros(padding);
      assert Records(crc, es) + Zeros(padding) == Record(crc, e) + after;
      if ZeroIds(e) || RecordSize(e) + |after| < MAX_META_SIZE {
        ScanStops(crc, file, idx, e, after);
        if !ZeroIds(e) {
          if rest != [] {
            Split(crc, rest);
            Positive(e);
            Positive(rest[0]);
          }
        }
      } else {
        ScanRecord(crc, file, idx, e, after);
        assert (Record(crc, e) + after)[RecordSize(e)..] == after;
        ScanRecords(crc, file, idx + RecordSize(e), rest, padding);
      }
    }
  }

  lemma ScanStops(crc: Checksum, file: nat, idx: nat, e: Entry, after: seq<Byte>)
    requires ZeroIds(e) || RecordSize(e) + |after| < MAX_META_SIZE
    ensures !ScanTurn(crc, file, idx, Record(crc, e) + after).Chunk?
  {
    hide Record, Series, Mint, Maxt;
    FieldsOfRecord(crc, e, after);
  }

  /**
   Recovery: the scan of a file that holds a log reports exactly that log, with no error, if and only if no entry has
   series reference, mint and maxt all zero and the last record is not shorter than the largest record head.
   */
  lemma ScanReportsLog(crc: Checksum, file: nat, es: seq<Entry>, size: nat)
    requires SizesFit(es) && |FileBytes(crc, es)| <= size
    ensures ScanFile(crc, file, Mapped(FileBytes(crc, es), size)) == Scan(FileReports(crc, file, HEADER_SIZE, es), true)
            <==> Recoverable(es, size - |FileBytes(crc, es)|)
  {
    assert Records(crc, es) == [] ==> (es == []);
    hide Records, FileReports, ScanTail, Recoverable;
    var bytes := FileBytes(crc, es);
    var padding := size - |bytes|;
    assert Mapped(bytes, size)[HEADER_SIZE..] == Records(crc, es) + Zeros(padding);
    ScanRecords(crc, file, HEADER_SIZE, es, padding);
    if size == HEADER_SIZE {
    }
  }

  // ---------------------------------------------------------------- files that are cut off

  /** Some bytes, cut off or followed by zeros. */
  function Sized(b: seq<Byte>, n: nat): (r: seq<Byte>)
    ensures |r| == n
  {
    if n <= |b| then b[..n] else b + Zeros(n - |b|)
  }

  /** A record that is cut off is not reported. */
  lemma ScanCut(crc: Checksum, file: nat, idx: nat, e: Entry, n: nat)
    requires |e.chunk.bytes| < TWO32 && n < RecordSize(e)
    ensures !ScanTurn(crc, file, idx, Record(crc, e)[..n]).Chunk?
  {
    hide Meta, EndMark, ChunkRef, BigEndian, AllZero;
    var tail, sum := Record(crc, e)[..n], crc(Meta(e) + e.chunk.bytes);
    assert Record(crc, e) == Meta(e) + e.chunk.bytes + sum;
    LengthField(e, sum);
    if n >= 30 {
      assert tail[25..30] == Record(crc, e)[25..30];
    }
  }

  /** Whatever part of a log a mapping shows, the scan reports nothing but entries of the log, from the first on. */
  lemma {:induction false} ScanPart(crc: Checksum, file: nat, idx: nat, es: seq<Entry>, n: nat)
    requires SizesFit(es)
    ensures ScanTail(crc, file, idx, Sized(Records(crc, es), n)).reports <= FileReports(crc, file, idx, es)
    decreases |es|
  {
    hide Record, RecordSize, ScanTurn, EntryReport, EndMark;
    if es == [] {
      assert Sized(Records(crc, es), n) == Zeros(n);
      ScanZeros(crc, file, idx, n);
    } else {
      var e, rest := es[0], es[1..];
      Split(crc, es);
      if n < RecordSize(e) {
        assert Sized(Records(crc, es), n) == Record(crc, e)[..n];
        ScanCut(crc, file, idx, e, n);
      } else {
        var after := Sized(Records(crc, rest), n - RecordSize(e));
        assert Sized(Records(crc, es), n) == Record(crc, e) + after;
        assert (Record(crc, e) + after)[RecordSize(e)..] == after;
        ScanPart(crc, file, idx + RecordSize(e), rest, n - RecordSize(e));
        if ZeroIds(e) || RecordSize(e) + |after| < MAX_META_SIZE {
          ScanStops(crc, file, idx, e, after);
        } else {
          ScanRecord(crc, file, idx, e, after);
        }
      }
    }
  }

  lemma ScanFindsPrefix(crc: Checksum, file: nat, es: seq<Entry>, size: nat)
    requires SizesFit(es)
    ensures ScanFile(crc, file, Mapped(FileBytes(crc, es), size)).reports <= FileReports(crc, file, HEADER_SIZE, es)
  {
    hide Records, FileReports, ScanTail;
    if size >= HEADER_SIZE {
      assert Mapped(FileBytes(crc, es), size)[HEADER_SIZE..] == Sized(Records(crc, es), size - HEADER_SIZE);
      ScanPart(crc, file, HEADER_SIZE, es, size - HEADER_SIZE);
    }
  }

  // ---------------------------------------------------------------- damaged files

  /** What the scan is told of a record whose checksum is right, and no other. */
  lemma TurnVerified(crc: Checksum, file: nat, idx: nat, tail: seq<Byte>)
    requires ScanTurn(crc, file, idx, tail).Chunk?
    ensures var t := ScanTurn(crc, file, idx, tail);
            && 29 <= t.size <= |tail| && |tail| >= 34
            && crc(tail[..t.size - 4]) == tail[t.size - 4..t.size]
            && t.report.series == BigEndian(tail[..8]) && t.report.ref == ChunkRef(file, idx)
            && t.report.mint == ToInt64(U64(tail[8..16])) && t.report.maxt == ToInt64(U64(tail[16..24]))
            && !(t.report.series == 0 && t.report.mint == 0 && t.report.maxt == 0)
  {
    hide Uvarint, BigEndian, ChunkRef;
  }

  /**
   The data ends where nothing is left, where fewer than 34 bytes are left and all are zero, or where series, mint and
   maxt are zero. Other bytes that are too few for a record are an error, and so is a file without a header.
   */
  lemma TurnEndsIff(crc: Checksum, file: nat, idx: nat, tail: seq<Byte>)
    ensures ScanTurn(crc, file, idx, tail) == End
            <==> if |tail| < 34 then forall i | 0 <= i < |tail| :: tail[i] == 0
                 else BigEndian(tail[..8]) == 0 && ToInt64(U64(tail[8..16])) == 0 && ToInt64(U64(tail[16..24])) == 0
    ensures |tail| < 34 ==> ScanTurn(crc, file, idx, tail) in {End, Corrupt}
    ensures |tail| < 8 ==> ScanFile(crc, file, tail) == Scan([], false)
  {
    hide Uvarint, BigEndian, ChunkRef, ScanTail;
  }

  /** A record with a wrong checksum is an error. */
  lemma TurnDamaged(crc: Checksum, file: nat, idx: nat, tail: seq<Byte>, head: seq<Byte>, data: seq<Byte>, sum: Word)
    requires BeginsWith(tail, head, data, sum) && |tail| >= 34 && !EndMark(tail) && sum != crc(head + data)
    ensures ScanTurn(crc, file, idx, tail) == Corrupt
  {
    hide EndMark, ChunkRef, BigEndian, Uvarint;
    StoredFields(tail, head, data, sum);
  }

  /** Whatever follows a log, the scan reports the log first. */
  lemma {:induction false} ScanPrefix(crc: Checksum, file: nat, idx: nat, es: seq<Entry>, after: seq<Byte>)
    requires SizesFit(es) && (forall i | 0 <= i < |es| :: !ZeroIds(es[i])) && |after| >= 34
    ensures var rest := ScanTail(crc, file, idx + |Records(crc, es)|, after);
            ScanTail(crc, file, idx, Records(crc, es) + after)
              == Scan(FileReports(crc, file, idx, es) + rest.reports, rest.ok)
    decreases |es|
  {
    hide Record, RecordSize, ScanTail, EntryReport;
    if es == [] {
      assert Records(crc, es) + after == after;
      assert FileReports(crc, file, idx, es) == [];
    } else {
      var e, rest := es[0], es[1..];
      Split(crc, es);
      hide Records;
      var tail := Records(crc, rest) + after;
      assert Records(crc, es) + after == Record(crc, e) + tail;
      ScanOneRecord(crc, file, idx, e, tail);
      ScanPrefix(crc, file, idx + RecordSize(e), rest, after);
      var one, more := [EntryReport(crc, file, idx, e)], FileReports(crc, file, idx + RecordSize(e), rest);
      var last := ScanTail(crc, file, idx + |Records(crc, es)|, after).reports;
      assert one + (more + last) == (one + more) + last;
    }
  }

  lemma ScanOneRecord(crc: Checksum, file: nat, idx: nat, e: Entry, tail: seq<Byte>)
    requires |e.chunk.bytes| < TWO32 && !ZeroIds(e) && |tail| >= 34
    ensures var rest := ScanTail(crc, file, idx + RecordSize(e), tail);
            ScanTail(crc, file, idx, Record(crc, e) + tail)
            == Scan([EntryReport(crc, file, idx, e)] + rest.reports, rest.ok)
  {
    hide Record, RecordSize, ScanTurn, EntryReport;
    ScanRecord(crc, file, idx, e, tail);
    assert (Record(crc, e) + tail)[RecordSize(e)..] == tail;
  }

  /** A damaged record ends the scan of its file with an error; what lies before it is reported. */
  lemma ScanDamaged(crc: Checksum, file: nat, es: seq<Entry>, tail: seq<Byte>, head: seq<Byte>, data: seq<Byte>,
                    sum: Word)
    requires SizesFit(es) && forall i | 0 <= i < |es| :: !ZeroIds(es[i])
    requires BeginsWith(tail, head, data, sum) && |tail| >= 34 && !EndMark(tail) && sum != crc(head + data)
    ensures ScanFile(crc, file, FileBytes(crc, es) + tail) == Scan(FileReports(crc, file, HEADER_SIZE, es), false)
  {
    hide Records, FileReports, ScanTurn, EndMark, BeginsWith;
    TurnDamaged(crc, file, HEADER_SIZE + |Records(crc, es)|, tail, head, data, sum);
    ScanPrefix(crc, file, HEADER_SIZE, es, tail);
    assert (FileBytes(crc, es) + tail)[HEADER_SIZE..] == Records(crc, es) + tail;
  }

  // ---------------------------------------------------------------- all files

  /** The maxt recorded for a file after the reports of its chunks. */
  function Raise(m: Int64, rs: seq<Report>): (r: Int64)
    ensures r >= m && forall i | 0 <= i < |rs| :: r >= rs[i].maxt
    decreases |rs|
  {
    if rs == [] then m else Raise(if rs[0].maxt > m then rs[0].maxt else m, rs[1..])
  }

  lemma RaiseNothing(m: Int64)
    ensures Raise(m, []) == m
  {
  }

  lemma {:induction false} RaiseAppend(m: Int64, rs: seq<Report>, r: Report)
    ensures Raise(m, rs + [r]) == if r.maxt > Raise(m, rs) then r.maxt else Raise(m, rs)
    decreases |rs|
  {
    if rs != [] {
      RaiseAppend(if rs[0].maxt > m then rs[0].maxt else m, rs[1..], r);
      assert (rs + [r])[1..] == rs[1..] + [r];
    }
  }

  datatype Outcome = Outcome(reports: seq<Report>, maxts: map<nat, Int64>, ok: bool)

  /** The loop over the files, which stops at the first error. */
  function ScanAll(crc: Checksum, files: seq<nat>, views: map<nat, seq<Byte>>, maxts: map<nat, Int64>): (o: Outcome)
    requires forall f | f in files :: f in views && f in maxts
    ensures o.maxts.Keys == maxts.Keys && forall f | f in maxts :: o.maxts[f] >= maxts[f]
  {
    if files == [] then Outcome([], maxts, true)
    else
      var f := files[0];
      var one := ScanFile(crc, f, views[f]);
      var maxts' := maxts[f := Raise(maxts[f], one.reports)];
      if !one.ok then Outcome(one.reports, maxts', false)
      else
        var rest := ScanAll(crc, files[1..], views, maxts');
        Outcome(one.reports + rest.reports, rest.maxts, rest.ok)
  }

  /** One turn of the loop over the files. */
  lemma ScanAllStep(crc: Checksum, files: seq<nat>, views: map<nat, seq<Byte>>, maxts: map<nat, Int64>,
                    before: seq<Report>)
    requires files != [] && forall f | f in files :: f in views && f in maxts
    ensures var one := ScanFile(crc, files[0], views[files[0]]);
            var maxts' := maxts[files[0] := Raise(maxts[files[0]], one.reports)];
            var all, rest := ScanAll(crc, files, views, maxts), ScanAll(crc, files[1..], views, maxts');
            Outcome(before + all.reports, all.maxts, all.ok)
            == if one.ok then Outcome(before + one.reports + rest.reports, rest.maxts, rest.ok)
               else Outcome(before + one.reports, maxts', false)
  {
    hide ScanFile, Raise;
    var one := ScanFile(crc, files[0], views[files[0]]);
    var rest := ScanAll(crc, files[1..], views, maxts[files[0] := Raise(maxts[files[0]], one.reports)]);
    assert before + (one.reports + rest.reports) == before + one.reports + rest.reports;
  }

  /** The recorded maxt of a file after the scan: raised by its reports, if the scan got that far. */
  lemma {:induction false} ScanAllMaxts(crc: Checksum, files: seq<nat>, views: map<nat, seq<Byte>>,
                                        maxts: map<nat, Int64>, g: nat)
    requires (forall f | f in files :: f in views && f in maxts) && g in files
    requires forall i, j | 0 <= i < j < |files| :: files[i] < files[j]
    ensures ScanAll(crc, files, views, maxts).maxts[g]
            == if forall h | h in files && h < g :: ScanFile(crc, h, views[h]).ok
               then Raise(maxts[g], ScanFile(crc, g, views[g]).reports) else maxts[g]
  {
    hide ScanFile, Raise;
    var f, rest := files[0], files[1..];
    var one := ScanFile(crc, f, views[f]);
    var maxts' := maxts[f := Raise(maxts[f], one.reports)];
    assert forall h | h in files :: h == f || h in rest;
    if g == f {
      if one.ok {
        ScanAllOthers(crc, rest, views, maxts', g);
      }
    } else if one.ok {
      ScanAllMaxts(crc, rest, views, maxts', g);
    }
  }

  lemma {:induction false} ScanAllOthers(crc: Checksum, files: seq<nat>, views: map<nat, seq<Byte>>,
                                         maxts: map<nat, Int64>, g: nat)
    requires (forall f | f in files :: f in views && f in maxts) && g !in files && g in maxts
    ensures ScanAll(crc, files, views, maxts).maxts[g] == maxts[g]
  {
    hide ScanFile, Raise;
    if files != [] {
      var f := files[0];
      ScanAllOthers(crc, files[1..], views, maxts[f := Raise(maxts[f], ScanFile(crc, f, views[f]).reports)], g);
    }
  }

  /** The scan ends with an error exactly when the scan of some file does. */
  lemma {:induction false} ScanAllOk(crc: Checksum, files: seq<nat>, views: map<nat, seq<Byte>>, maxts: map<nat, Int64>)
    requires forall f | f in files :: f in views && f in maxts
    ensures ScanAll(crc, files, views, maxts).ok <==> forall f | f in files :: ScanFile(crc, f, views[f]).ok
  {
    hide ScanFile, Raise;
    if files != [] {
      var f := files[0];
      assert forall h | h in files :: h == f || h in files[1..];
      ScanAllOk(crc, files[1..], views, maxts[f := Raise(maxts[f], ScanFile(crc, f, views[f]).reports)]);
    }
  }

  /** A recorded maxt reaches t exactly when it did before, or a report does. */
  lemma {:induction false} RaiseReaches(m: Int64, rs: seq<Report>, t: Int64)
    ensures Raise(m, rs) >= t <==> m >= t || exists i :: 0 <= i < |rs| && rs[i].maxt >= t
    decreases |rs|
  {
    if rs != [] {
      RaiseReaches(if rs[0].maxt > m then rs[0].maxt else m, rs[1..], t);
      assert forall i | 1 <= i < |rs| :: rs[i] == rs[1..][i - 1];
      if i :| 0 <= i < |rs[1..]| && rs[1..][i].maxt >= t {
        assert rs[i + 1].maxt >= t;
      }
    }
  }

  /** One turn of the loop over one file. */
  lemma ScanTailStep(crc: Checksum, file: nat, idx: nat, tail: seq<Byte>, before: seq<Report>)
    ensures var s := ScanTail(crc, file, idx, tail);
            Scan(before + s.reports, s.ok)
            == match ScanTurn(crc, file, idx, tail)
               case Chunk(report, size) =>
                 var rest := ScanTail(crc, file, idx + size, tail[size..]);
                 Scan(before + [report] + rest.reports, rest.ok)
               case End => Scan(before, true)
               case Corrupt => Scan(before, false)
  {
    hide ScanTurn;
    match ScanTurn(crc, file, idx, tail)
    case Chunk(report, size) =>
      var rest := ScanTail(crc, file, idx + size, tail[size..]);
      assert before + ([report] + rest.reports) == before + [report] + rest.reports;
    case End =>
    case Corrupt =>
  }

  function AllReports(crc: Checksum, files: seq<nat>, log: map<nat, seq<Entry>>): seq<Report>
    requires forall f | f in files :: f in log
  {
    if files == [] then []
    else FileReports(crc, files[0], HEADER_SIZE, log[files[0]]) + AllReports(crc, files[1..], log)
  }

  /** The mapping shows the log of the file, and is not too short for it. */
  ghost predicate Shows(crc: Checksum, view: seq<Byte>, es: seq<Entry>) {
    SizesFit(es) && |FileBytes(crc, es)| <= |view| && view == Mapped(FileBytes(crc, es), |view|)
  }

  predicate Recovers(crc: Checksum, view: seq<Byte>, es: seq<Entry>) {
    |FileBytes(crc, es)| <= |view| && Recoverable(es, |view| - |FileBytes(crc, es)|)
  }

  /** The scan of one file, in both cases. */
  lemma ScanOne(crc: Checksum, file: nat, view: seq<Byte>, es: seq<Entry>)
    requires Shows(crc, view, es)
    ensures var s := ScanFile(crc, file, view);
            if Recovers(crc, view, es) then s == Scan(FileReports(crc, file, HEADER_SIZE, es), true)
            else |s.reports| < |es|
  {
    hide FileReports, ScanTail, Recoverable, Records;
    var padding := |view| - |FileBytes(crc, es)|;
    assert view[HEADER_SIZE..] == Records(crc, es) + Zeros(padding);
    ScanRecords(crc, file, HEADER_SIZE, es, padding);
  }

  /**
   The scan of the directory reports everything that was written, in order, if and only if every file is recoverable.
   */
  lemma {:induction false} ScanAllReports(crc: Checksum, files: seq<nat>, views: map<nat, seq<Byte>>,
                                          maxts: map<nat, Int64>, log: map<nat, seq<Entry>>)
    requires forall f | f in files :: f in views && f in maxts && f in log && Shows(crc, views[f], log[f])
    ensures var o := ScanAll(crc, files, views, maxts);
            var all := forall f | f in files :: Recovers(crc, views[f], log[f]);
            && (all ==> o.ok && o.reports == AllReports(crc, files, log))
            && (!all ==> |o.reports| < |AllReports(crc, files, log)|)
  {
    hide Recovers, ScanFile, FileReports, Shows, Raise;
    if files != [] {
      var f := files[0];
      ScanOne(crc, f, views[f], log[f]);
      var maxts' := maxts[f := Raise(maxts[f], ScanFile(crc, f, views[f]).reports)];
      ScanAllReports(crc, files[1..], views, maxts', log);
      assert forall g | g in files :: g == f || g in files[1..];
    }
  }

  lemma ReportMaxts(crc: Checksum, file: nat, at: nat, es: seq<Entry>, i: nat)
    requires i < |es|
    ensures FileReports(crc, file, at, es)[i].maxt == es[i].maxt
    decreases |es|
  {
    if i > 0 {
      ReportMaxts(crc, file, at + RecordSize(es[0]), es[1..], i - 1);
    }
  }

  /** Each report is that of an entry, under the reference of its place in the file. */
  lemma {:induction false} ReportAt(crc: Checksum, file: nat, at: nat, es: seq<Entry>, i: nat)
    requires i < |es|
    ensures FileReports(crc, file, at, es)[i] == EntryReport(crc, file, at + |Records(crc, es[..i])|, es[i])
    decreases |es|
  {
    hide Record, RecordSize, EntryReport;
    if i > 0 {
      ReportAt(crc, file, at + RecordSize(es[0]), es[1..], i - 1);
      assert es[..i][1..] == es[1..][..i - 1];
      Split(crc, es[..i]);
    }
  }

  lemma {:induction false} AllReportsAt(crc: Checksum, files: seq<nat>, log: map<nat, seq<Entry>>, r: Report)
    requires (forall f | f in files :: f in log) && r in AllReports(crc, files, log)
    ensures exists f, i: nat :: f in files && IsReport(crc, log, f, i, r)
    decreases |files|
  {
    hide FileReports, EntryReport;
    var f := files[0];
    var rs := FileReports(crc, f, HEADER_SIZE, log[f]);
    if r in rs {
      var i: nat :| i < |rs| && rs[i] == r;
      ReportAt(crc, f, HEADER_SIZE, log[f], i);
      assert IsReport(crc, log, f, i, r);
    } else {
      AllReportsAt(crc, files[1..], log, r);
      var g, i: nat :| g in files[1..] && IsReport(crc, log, g, i, r);
      assert g in files;
    }
  }

  /** The report r is about entry i of file f. */
  ghost predicate IsReport(crc: Checksum, log: map<nat, seq<Entry>>, f: nat, i: nat, r: Report) {
    f in log && i < |log[f]| && r == EntryReport(crc, f, Offset(crc, log[f], i), log[f][i])
  }

  /** After a scan without error the recorded maxt of every file bounds its chunks. */
  lemma {:induction false} ScanAllBounds(crc: Checksum, files: seq<nat>, views: map<nat, seq<Byte>>,
                                         maxts: map<nat, Int64>, log: map<nat, seq<Entry>>, file: nat, i: nat)
    requires forall f | f in files :: f in views && f in maxts && f in log && Shows(crc, views[f], log[f])
    requires forall f | f in files :: Recovers(crc, views[f], log[f])
    requires file in files && i < |log[file]|
    ensures ScanAll(crc, files, views, maxts).maxts[file] >= log[file][i].maxt
  {
    hide Recovers, ScanFile, FileReports, Shows;
    var f := files[0];
    ScanOne(crc, f, views[f], log[f]);
    var maxts' := maxts[f := Raise(maxts[f], ScanFile(crc, f, views[f]).reports)];
    if file == f {
      ReportMaxts(crc, f, HEADER_SIZE, log[f], i);
      assert maxts'[file] >= log[file][i].maxt;
    } else {
      ScanAllBounds(crc, files[1..], views, maxts', log, file, i);
    }
  }
}
