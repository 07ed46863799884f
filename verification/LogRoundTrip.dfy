/**
  What the logger writes, the reader reads back; what corrupted bytes between packets do; and what
  a file that was cut off does to the others that are read with it.
*/
module LogRoundTrip {
  import opened Bytes
  import opened Interleaving
  import opened LogFormat
  import opened LogWriter
  import opened LogLaws
  import opened LogStream
  import opened LogTrace
  import opened LogReader
  import opened LogDelivery
  import P = Preamble

  /** The stream has been opened and nothing read. */
  ghost predicate Opened(s: InputStream, file: seq<byte>, memory: nat -> byte)
    reads s
  {
    s.Valid() && s.pos == 0 && s.dictionary == map[] && s.bytes == file && s.beyond == memory
  }

  method OpenAll(files: seq<seq<byte>>, memory: nat -> byte) returns (streams: seq<InputStream>)
    ensures |streams| == |files| && fresh(streams)
    ensures forall j, k :: 0 <= j < k < |streams| ==> streams[j] != streams[k]
    ensures forall k :: 0 <= k < |streams| ==> Opened(streams[k], files[k], memory)
  {
    streams := [];
    while |streams| < |files|
      invariant |streams| <= |files| && fresh(streams)
      invariant forall j, k :: 0 <= j < k < |streams| ==> streams[j] != streams[k]
      invariant forall k :: 0 <= k < |streams| ==> Opened(streams[k], files[k], memory)
    {
      var s := new InputStream(files[|streams|], memory);
      streams := streams + [s];
    }
  }

  ghost predicate Timed(clock: Clock, ps: seq<Packet>) {
    forall i :: 0 <= i < |ps| && ps[i].Data? ==> clock(ps[i].pre.time) < VERY_LARGE_TIMESTAMP
  }

  // ----- the times in the files are those of the packets logged

  ghost predicate InputsTimed(clock: Clock, xs: seq<Input>) {
    forall i :: 0 <= i < |xs| && Accepted(xs[i]) ==> clock(xs[i].pre.time) < VERY_LARGE_TIMESTAMP
  }

  lemma {:induction false} ExpectedTimed(clock: Clock, xs: seq<Input>, variants: map<Image8, seq<nat>>)
    requires InputsTimed(clock, xs)
    ensures Timed(clock, Expected(xs, variants))
  {
    hide Accepted, VariantOf;
    if xs != [] {
      ExpectedTimed(clock, xs[..|xs| - 1], variants);
    }
  }

  lemma {:induction false} DataInside(ps: seq<Packet>, i: nat)
    requires i < |ps| && ps[i].Data?
    ensures ps[i] in DataOf(ps)
  {
    if i > 0 {
      DataInside(ps[1..], i - 1);
    }
  }

  lemma {:induction false} InFlatten(files: seq<seq<Packet>>, k: nat, i: nat)
    requires k < |files| && i < |files[k]|
    ensures files[k][i] in Flatten(files)
  {
    if k < |files| - 1 {
      InFlatten(files[..|files| - 1], k, i);
    }
  }

  lemma FilesTimed(clock: Clock, files: seq<seq<Packet>>)
    requires Timed(clock, DataOf(Flatten(files)))
    ensures forall k :: 0 <= k < |files| ==> Timed(clock, files[k])
  {
    hide Flatten, DataOf;
    forall k, i | 0 <= k < |files| && 0 <= i < |files[k]| && files[k][i].Data?
      ensures clock(files[k][i].pre.time) < VERY_LARGE_TIMESTAMP
    {
      InFlatten(files, k, i);
      var j :| 0 <= j < |Flatten(files)| && Flatten(files)[j] == files[k][i];
      DataInside(Flatten(files), j);
      var n :| 0 <= n < |DataOf(Flatten(files))| && DataOf(Flatten(files))[n] == files[k][i];
      DataTimed(clock, Flatten(files), n);
    }
  }

  lemma {:induction false} DataTimed(clock: Clock, ps: seq<Packet>, n: nat)
    requires Timed(clock, DataOf(ps)) && n < |DataOf(ps)|
    ensures DataOf(ps)[n].Data? && clock(DataOf(ps)[n].pre.time) < VERY_LARGE_TIMESTAMP
  {
    IsData(ps, n);
  }

  lemma {:induction false} IsData(ps: seq<Packet>, n: nat)
    requires n < |DataOf(ps)|
    ensures DataOf(ps)[n].Data?
  {
    if ps[0].Data? {
      if n > 0 {
        IsData(ps[1..], n - 1);
      }
    } else {
      IsData(ps[1..], n);
    }
  }

  /** Every entry has a time that a packet can have. */
  ghost predicate HaveTimes(clock: Clock, es: seq<Entry>) {
    forall i :: 0 <= i < |es| ==> clock(es[i].time) < VERY_LARGE_TIMESTAMP
  }

  lemma HaveTimesAppend(clock: Clock, a: seq<Entry>, b: seq<Entry>)
    requires HaveTimes(clock, a) && HaveTimes(clock, b)
    ensures HaveTimes(clock, a + b)
  {
  }

  lemma AllHaveTimes(clock: Clock, lefts: seq<seq<Entry>>)
    requires forall k :: 0 <= k < |lefts| ==> HaveTimes(clock, lefts[k])
    ensures AllTimed(clock, lefts)
  {
  }

  // ----- the packets come to, as bytes

  function Packed(ps: seq<Packet>): seq<seq<byte>> {
    if ps == [] then [] else Packed(ps[..|ps| - 1]) + [PacketBytes(ps[|ps| - 1])]
  }

  lemma {:induction false} PackedAppend(a: seq<Packet>, b: seq<Packet>)
    ensures Packed(a + b) == Packed(a) + Packed(b)
  {
    hide PacketBytes;
    if b == [] {
      assert a + b == a;
    } else {
      assert (a + b)[..|a + b| - 1] == a + b[..|b| - 1];
      PackedAppend(a, b[..|b| - 1]);
    }
  }

  function EntryBytes(es: seq<Entry>): seq<seq<byte>> {
    if es == [] then [] else EntryBytes(es[..|es| - 1]) + [es[|es| - 1].bytes]
  }

  lemma {:induction false} EntryBytesAppend(a: seq<Entry>, b: seq<Entry>)
    ensures EntryBytes(a + b) == EntryBytes(a) + EntryBytes(b)
  {
    if b == [] {
      assert a + b == a;
    } else {
      assert (a + b)[..|a + b| - 1] == a + b[..|b| - 1];
      EntryBytesAppend(a, b[..|b| - 1]);
    }
  }

  lemma OneEntry(e: Entry, p: Packet)
    ensures EntryBytes([e]) == [e.bytes] && Packed([p]) == [PacketBytes(p)]
  {
    hide PacketBytes;
    assert [e][..0] == [] && [p][..0] == [];
  }

  lemma {:induction false} EntriesAreData(at: nat, d: map<Image8, TypeInfo>, ps: seq<Packet>)
    ensures EntryBytes(Entries(at, d, ps)) == Packed(DataOf(ps))
    decreases ps
  {
    hide PacketBytes, InfoOf;
    if ps != [] {
      var (p, next) := (ps[0], at + |PacketBytes(ps[0])|);
      if p.Meta? {
        EntriesAreData(next, d[p.msgHash := TypeInfo(p.name, p.text)], ps[1..]);
        assert [] + DataOf(ps[1..]) == DataOf(ps[1..]);
      } else {
        var e := Entry(at, p.pre.time, InfoOf(d, p), PacketBytes(p));
        EntriesAreData(next, d, ps[1..]);
        OneEntry(e, p);
        EntryBytesAppend([e], Entries(next, d, ps[1..]));
        PackedAppend([p], DataOf(ps[1..]));
      }
    }
  }

  lemma {:induction false} EntriesTimed(clock: Clock, at: nat, d: map<Image8, TypeInfo>, ps: seq<Packet>)
    requires Timed(clock, ps)
    ensures HaveTimes(clock, Entries(at, d, ps))
    decreases ps
  {
    hide PacketBytes, InfoOf;
    if ps != [] {
      var (p, next) := (ps[0], at + |PacketBytes(ps[0])|);
      assert forall i :: 0 <= i < |ps[1..]| ==> ps[1..][i] == ps[i + 1];
      EntriesTimed(clock, next, if p.Meta? then d[p.msgHash := TypeInfo(p.name, p.text)] else d, ps[1..]);
    }
  }

  /** The type hash in a packet's bytes. */
  lemma HashIn(p: Packet)
    ensures |PacketBytes(p)| >= P.PREAMBLE_BYTES && PacketBytes(p)[8..16] == p.pre.hash
  {
    hide Body;
  }

  /** Every packet is delivered with what is the case of its type. */
  ghost predicate RightlyTold(es: seq<Entry>, types: Image8 -> TypeInfo) {
    forall i :: 0 <= i < |es| ==>
      |es[i].bytes| >= P.PREAMBLE_BYTES && es[i].info == types(es[i].bytes[8..16])
  }

  /** SelfContained, for the rest of a file. */
  ghost predicate Describes(d: map<Image8, TypeInfo>, ps: seq<Packet>, types: Image8 -> TypeInfo) {
    forall i :: 0 <= i < |ps| && ps[i].Data? ==>
      var known := Learned(d, ps[..i]);
      ps[i].pre.hash in known && known[ps[i].pre.hash] == types(ps[i].pre.hash)
  }

  lemma {:induction false} EntriesTold(at: nat, d: map<Image8, TypeInfo>, ps: seq<Packet>, types: Image8 -> TypeInfo)
    requires Describes(d, ps, types)
    ensures RightlyTold(Entries(at, d, ps), types)
    decreases ps
  {
    hide PacketBytes;
    if ps != [] {
      var (p, next) := (ps[0], at + |PacketBytes(ps[0])|);
      var e := if p.Meta? then d[p.msgHash := TypeInfo(p.name, p.text)] else d;
      DescribesRest(d, ps, types);
      EntriesTold(next, e, ps[1..], types);
      HashIn(p);
      if p.Data? {
        assert Learned(d, ps[..0]) == d;
      }
    }
  }

  lemma DescribesRest(d: map<Image8, TypeInfo>, ps: seq<Packet>, types: Image8 -> TypeInfo)
    requires Describes(d, ps, types) && ps != []
    ensures Describes(if ps[0].Meta? then d[ps[0].msgHash := TypeInfo(ps[0].name, ps[0].text)] else d, ps[1..], types)
  {
    var e := if ps[0].Meta? then d[ps[0].msgHash := TypeInfo(ps[0].name, ps[0].text)] else d;
    forall i | 0 <= i < |ps[1..]| && ps[1..][i].Data?
      ensures
        var known := Learned(e, ps[1..][..i]);
        ps[1..][i].pre.hash in known && known[ps[1..][i].pre.hash] == types(ps[1..][i].pre.hash)
    {
      assert ps[1..][i] == ps[i + 1] && ps[..i + 1][1..] == ps[1..][..i] && ps[..i + 1][0] == ps[0];
    }
  }

  // ----- messages

  /** The bytes of the messages from one file, and from the first n, file by file. */
  function BytesFrom(messages: seq<Message>, k: nat): seq<seq<byte>> {
    if messages == [] then []
    else
      var last := messages[|messages| - 1];
      BytesFrom(messages[..|messages| - 1], k) + if last.source == k then [last.bytes] else []
  }

  function BytesAll(messages: seq<Message>, n: nat): seq<seq<byte>> {
    if n == 0 then [] else BytesAll(messages, n - 1) + BytesFrom(messages, n - 1)
  }

  lemma {:induction false} BytesAre(messages: seq<Message>, log: seq<Taken<Entry>>, k: nat)
    requires Told(log, messages)
    ensures BytesFrom(messages, k) == EntryBytes(From(log, k))
  {
    if log != [] {
      var n := |log| - 1;
      BytesAre(messages[..n], log[..n], k);
      var last := if log[n].source == k then [log[n].item] else [];
      EntryBytesAppend(From(log[..n], k), last);
      assert [log[n].item][..0] == [];
    }
  }

  /** Whatever was delivered from the files is rightly told, if all that they come to is. */
  lemma {:induction false} MessagesTold(lefts: seq<seq<Entry>>, rests: seq<seq<Entry>>, log: seq<Taken<Entry>>,
                                        messages: seq<Message>, types: Image8 -> TypeInfo)
    requires Told(log, messages) && Progress(lefts, rests, log) && forall k :: 0 <= k < |lefts| ==> RightlyTold(lefts[k], types)
    requires forall i :: 0 <= i < |log| ==> log[i].source < |lefts|
    ensures forall i :: 0 <= i < |messages| ==>
              && messages[i].source < |lefts|
              && |messages[i].bytes| >= P.PREAMBLE_BYTES && messages[i].info == types(messages[i].bytes[8..16])
  {
    hide From;
    forall i | 0 <= i < |messages|
      ensures |messages[i].bytes| >= P.PREAMBLE_BYTES && messages[i].info == types(messages[i].bytes[8..16])
    {
      var k := log[i].source;
      TakenAt(log, i, k);
      assert lefts[k][|From(log[..i], k)|] == log[i].item;
    }
  }

  /** A complete file; without recovery, reading ends at its end unless that is several metadata packets. */
  lemma {:induction false} WholeTrace(s: InputStream, ps: seq<Packet>, recover: bool)
    requires s.bytes == FileBytes(ps) && GoodPackets(ps)
    ensures s.Readable(0, recover) && s.Trace(0, map[], recover) == Entries(0, map[], ps)
    ensures recover || Ends(ps, []) ==> s.Finally(0, recover) == AtEnd && s.TotalCount(0, recover) == 0
  {
    hide s.Readable, s.Trace, s.Finally, s.TotalCount, s.MetaAt, FileBytes, Entries, GoodPackets, Ends, s.Plausible;
    EndTrace(s, Learned(map[], ps), recover);
    WholeFile(s, 0, ps);
    TraceOf(s, 0, ps, [], |s.bytes|, map[], recover);
    assert Entries(0, map[], ps) + [] == Entries(0, map[], ps);
  }

  // ----- reading back

  /** Writes the packets to files, the last of which is closed when the logger ends. */
  method LogAll(xs: seq<Input>, ghost types: Image8 -> TypeInfo)
    returns (files: seq<seq<byte>>, ghost contents: seq<seq<Packet>>)
    requires forall i :: 0 <= i < |xs| ==> GoodInput(xs[i], types)
    ensures files == AllBytes(contents) && forall k :: 0 <= k < |contents| ==> GoodFile(contents[k], types)
    ensures DataOf(Flatten(contents)) == Expected(xs, Logged(xs).variants)
  {
    hide Process, GoodFile, AllBytes, Accepted, NewMeta, PacketBytes, Expected;
    var logger := new Logger();
    var i := 0;
    while i < |xs|
      invariant i <= |xs| && logger.Valid() && logger.log == Logged(xs[..i]) && fresh(logger)
    {
      assert GoodInput(xs[i], types);
      assert xs[..i + 1][..i] == xs[..i];
      logger.ProcessPacket(xs[i]);
      i := i + 1;
    }
    assert xs[..i] == xs;
    FilesAreSelfContained(xs, types);
    NothingLost(xs);
    ghost var log := logger.log;
    if logger.isOpen {
      logger.CloseFile();
      FlattenAppend(log.closed, log.current.value);
    } else {
      assert AllPackets(log) == Flatten(log.closed) + [] == Flatten(log.closed);
    }
    files, contents := logger.closed, logger.log.closed;
  }

  /** The reader's streams come to the data packets of complete files. */
  ghost predicate ComesTo(reader: Reader, contents: seq<seq<Packet>>)
    requires reader.Valid()
    reads reader`times, reader.streams
  {
    && |contents| == |reader.streams|
    && forall k :: 0 <= k < |contents| ==>
         && reader.Lefts()[k] == Entries(0, map[], contents[k])
         && reader.Endings()[k] == AtEnd && reader.Costs()[k] == 0
  }

  method OpenReader(written: seq<seq<byte>>, memory: nat -> byte, clock: Clock, ghost contents: seq<seq<Packet>>)
    returns (reader: Reader)
    requires written == AllBytes(contents)
    requires forall k :: 0 <= k < |contents| ==> GoodPackets(contents[k]) && Ends(contents[k], [])
    ensures fresh(reader) && fresh(reader.streams) && reader.Valid() && ComesTo(reader, contents)
    ensures reader.timeOf == clock && reader.endTime == 0.0 && |reader.streams| == |written|
    ensures !reader.finished && reader.corruptions == 0
  {
    hide FileBytes, GoodPackets, Entries, Ends;
    hide InputStream.Readable, InputStream.Trace, InputStream.Finally, InputStream.TotalCount;
    var streams := OpenAll(written, memory);
    forall k | 0 <= k < |streams|
      ensures streams[k].Ready(false) && streams[k].Left(false) == Entries(0, map[], contents[k])
      ensures streams[k].Ending(false) == AtEnd && streams[k].Cost(false) == 0
    {
      WholeTrace(streams[k], contents[k], false);
    }
    reader := new Reader(streams, clock, 0.0, false);
  }

  /** Reads complete, self-contained files; the times in them need not be in order. */
  method ReadFiles(written: seq<seq<byte>>, memory: nat -> byte, clock: Clock, ghost contents: seq<seq<Packet>>,
                   ghost types: Image8 -> TypeInfo)
    returns (messages: seq<Message>)
    requires written == AllBytes(contents)
    requires forall k :: 0 <= k < |contents| ==> GoodFile(contents[k], types) && Timed(clock, contents[k])
    ensures forall k :: 0 <= k < |contents| ==> BytesFrom(messages, k) == Packed(DataOf(contents[k]))
    ensures forall i :: 0 <= i < |messages| ==>
              && messages[i].source < |written|
              && |messages[i].bytes| >= P.PREAMBLE_BYTES && messages[i].info == types(messages[i].bytes[8..16])
  {
    hide FileBytes, GoodFile, GoodPackets, Timed, Packed, DataOf, Entries, Ends, From, Progress, Told, AllBytes;
    hide EntryBytes, BytesFrom, RightlyTold, Describes, UntilLate, NotStopped, LeastFirst, NoneLate, HaveTimes, AllTimed;
    hide Reader.Lefts, Reader.Endings, Reader.Costs, Reader.NothingOwed, Reader.Valid, WillStop, HasStopped, AllInOrder;
    hide InputStream.Readable, InputStream.Trace, InputStream.Finally, InputStream.TotalCount, InputStream.Left,
      InputStream.Ending, InputStream.Cost, Sum;
    forall k | 0 <= k < |contents|
      ensures GoodPackets(contents[k]) && Ends(contents[k], []) && RightlyTold(Entries(0, map[], contents[k]), types)
      ensures HaveTimes(clock, Entries(0, map[], contents[k]))
    {
      FromStart(contents[k], types);
      EntriesTold(0, map[], contents[k], types);
      EntriesTimed(clock, 0, map[], contents[k]);
    }
    ghost var log;
    messages := [];
    if written == [] {
      return;
    }
    var reader := OpenReader(written, memory, clock, contents);
    ghost var lefts, endings, costs := reader.Lefts(), reader.Endings(), reader.Costs();
    assert forall k :: 0 <= k < |contents| ==> lefts[k] == Entries(0, map[], contents[k]);
    assert forall k :: 0 <= k < |contents| ==> endings[k] == AtEnd;
    AllHaveTimes(clock, lefts);
    messages, log := ReadAll(reader);
    AllRead(reader, lefts, endings, costs, log, messages);
    MessagesTold(lefts, reader.Lefts(), log, messages, types);
    forall k | 0 <= k < |contents|
      ensures BytesFrom(messages, k) == Packed(DataOf(contents[k]))
    {
      EntriesAreData(0, map[], contents[k]);
    }
  }

  lemma FromStart(ps: seq<Packet>, types: Image8 -> TypeInfo)
    requires GoodFile(ps, types)
    ensures GoodPackets(ps) && Ends(ps, []) && Describes(map[], ps, types)
  {
  }

  /** File by file, the messages are the packets of all files. */
  lemma {:induction false} FilesAre(messages: seq<Message>, contents: seq<seq<Packet>>, n: nat)
    requires n <= |contents| && forall k :: 0 <= k < n ==> BytesFrom(messages, k) == Packed(DataOf(contents[k]))
    ensures BytesAll(messages, n) == Packed(DataOf(Flatten(contents[..n])))
  {
    hide BytesFrom, PacketBytes;
    if n == 0 {
      assert Packed([]) == [];
    } else {
      FilesAre(messages, contents, n - 1);
      assert contents[..n][..n - 1] == contents[..n - 1];
      DataOfAppend(Flatten(contents[..n - 1]), contents[n - 1]);
      PackedAppend(DataOf(Flatten(contents[..n - 1])), DataOf(contents[n - 1]));
    }
  }

  /**
    Logging any packets, by processPacket with its file splits, and reading all the files back:
    file by file the messages are exactly the accepted packets in the order in which they were
    logged, stamped with their topics' variants, each under its type's name and schema. The times
    of packets from many producers need not be in order.
  */
  method LogAndReadBack(xs: seq<Input>, memory: nat -> byte, clock: Clock, ghost types: Image8 -> TypeInfo)
    returns (messages: seq<Message>, files: nat)
    requires forall i :: 0 <= i < |xs| ==> GoodInput(xs[i], types)
    requires InputsTimed(clock, xs)
    ensures BytesAll(messages, files) == Packed(Expected(xs, Logged(xs).variants))
    ensures forall i :: 0 <= i < |messages| ==>
              && messages[i].source < files
              && |messages[i].bytes| >= P.PREAMBLE_BYTES && messages[i].info == types(messages[i].bytes[8..16])
  {
    hide GoodInput, GoodFile, Timed, Expected, Flatten, DataOf, InputsTimed, Logged, BytesAll, BytesFrom, Packed;
    ghost var contents;
    var written;
    written, contents := LogAll(xs, types);
    ExpectedTimed(clock, xs, Logged(xs).variants);
    FilesTimed(clock, contents);
    files := |written|;
    messages := ReadFiles(written, memory, clock, contents, types);
    FilesAre(messages, contents, files);
    assert contents[..files] == contents;
  }

  // ----- a file that was cut off inside its first packet's preamble

  /** All that is left of a packet. */
  predicate FrontOf(cut: seq<byte>, p: Packet) {
    |cut| < |PacketBytes(p)| && cut == PacketBytes(p)[..|cut|]
  }

  /**
    A file of at most four bytes, as left by a crash, next to a complete one. Without recovery
    nothing of either is read; with it, the complete file is, and one corruption is counted.
  */
  method ReadBesideCut(whole: seq<byte>, cut: seq<byte>, memory: nat -> byte, clock: Clock, recover: bool,
                       ghost content: seq<Packet>, ghost p: Packet)
    returns (messages: seq<Message>, corruptions: nat)
    requires whole == FileBytes(content) && GoodPackets(content) && Timed(clock, content)
    requires 0 < |cut| <= 4 && FrontOf(cut, p) && GoodPacket(p)
    requires forall i :: memory(i) == 0
    ensures !recover ==> messages == []
    ensures recover ==>
              BytesFrom(messages, 0) == Packed(DataOf(content)) && BytesFrom(messages, 1) == [] && corruptions == 1
  {
    hide FileBytes, GoodPackets, Timed, DataOf, Packed, Entries, GoodPacket, Reader.Lefts, Reader.Endings, Reader.Costs;
    hide EntryBytes, BytesFrom, From, UntilLate, LeastFirst, NoneLate, Progress, Told, NotStopped, FrontOf;
    hide InputStream.Readable, InputStream.Trace, InputStream.Finally, InputStream.TotalCount, Sum;
    hide HaveTimes, AllTimed, Reader.NothingOwed, AllInOrder, WillStop, HasStopped, Ends;
    var streams := OpenAll([whole, cut], memory);
    WholeTrace(streams[0], content, recover);
    CutTrace(streams[1], p, cut, recover);
    var reader := new Reader(streams, clock, 0.0, recover);
    ghost var lefts, endings, costs, log := reader.Lefts(), reader.Endings(), reader.Costs(), [];
    EntriesTimed(clock, 0, map[], content);
    NoEntries(clock);
    AllHaveTimes(clock, lefts);
    messages, log := ReadAll(reader);
    corruptions := reader.corruptions;
    if recover {
      AllRead(reader, lefts, endings, costs, log, messages);
      EntriesAreData(0, map[], content);
      TwoCosts(costs);
    } else {
      NoneTaken(lefts, endings, log, messages);
    }
  }

  lemma TwoCosts(costs: seq<nat>)
    requires |costs| == 2
    ensures Sum(costs) == costs[0] + costs[1]
  {
    assert Sum(costs) == costs[0] + (costs[1..][0] + Sum(costs[1..][1..]));
  }

  lemma NoEntries(clock: Clock)
    ensures EntryBytes([]) == [] && HaveTimes(clock, [])
  {
  }

  /** When all files end where reading ends, all that they come to has been delivered and counted. */
  lemma {:induction false} AllRead(reader: Reader, lefts: seq<seq<Entry>>, endings: seq<Next>, costs: seq<nat>,
                                   log: seq<Taken<Entry>>, messages: seq<Message>)
    requires reader.Valid() && reader.endTime == 0.0 && |lefts| == |endings| == |reader.streams|
    requires Told(log, messages) && Progress(lefts, reader.Lefts(), log)
    requires forall k :: 0 <= k < |endings| ==> endings[k] == AtEnd
    requires AllTimed(reader.timeOf, lefts)
    requires reader.finished == !WillStop(reader.timeOf, reader.endTime, lefts, endings)
    requires reader.finished ==> forall k :: 0 <= k < |reader.streams| ==>
               From(log, k) == UntilLate(EntryTime(reader.timeOf), reader.endTime, lefts[k])
    requires reader.finished ==> reader.corruptions + Sum(reader.Costs()) == Sum(costs) && reader.NothingOwed()
    ensures forall k :: 0 <= k < |lefts| ==> BytesFrom(messages, k) == EntryBytes(lefts[k])
    ensures reader.corruptions == Sum(costs)
  {
    hide From, UntilLate, Told, BytesFrom, EntryBytes, Reader.Lefts, Reader.Costs, Reader.Valid;
    assert !WillStop(reader.timeOf, reader.endTime, lefts, endings);
    forall k | 0 <= k < |lefts|
      ensures BytesFrom(messages, k) == EntryBytes(lefts[k]) && reader.Lefts()[k] == []
    {
      NoEndTime(EntryTime(reader.timeOf), lefts[k]);
      BytesAre(messages, log, k);
      assert |lefts[k]| == |lefts[k]| + |reader.Lefts()[k]|;
    }
    AllZero(reader.Costs());
  }

  lemma {:induction false} AllZero(ns: seq<nat>)
    requires forall k :: 0 <= k < |ns| ==> ns[k] == 0
    ensures Sum(ns) == 0
  {
    if ns != [] {
      AllZero(ns[1..]);
    }
  }

  lemma {:induction false} CutTrace(s: InputStream, p: Packet, cut: seq<byte>, recover: bool)
    requires 0 < |cut| <= 4 && FrontOf(cut, p) && GoodPacket(p) && s.bytes == cut && forall i :: s.beyond(i) == 0
    ensures s.Readable(0, recover) && s.Trace(0, map[], recover) == []
    ensures s.Finally(0, recover) == (if recover then AtEnd else Stopped) && s.TotalCount(0, recover) == 1
  {
    hide PacketBytes, GoodPacket, s.Plausible, s.CountAt;
    assert s.bytes[0..] == cut;
    ShortTail(s, p, |cut|);
    ShortEnd(s, 0, recover);
  }

  lemma NoneTaken(lefts: seq<seq<Entry>>, endings: seq<Next>, log: seq<Taken<Entry>>, messages: seq<Message>)
    requires |lefts| == |endings| == 2 && lefts[1] == [] && endings[1] == Stopped
    requires NotStopped(lefts, endings, log) && Told(log, messages)
    ensures messages == []
  {
    if log != [] {
      assert From(log[..0], 1) == [];
    }
  }

  // ----- a file that was cut off inside a packet's size

  /**
    A file of the five bytes up to the first of the size, with zeros behind it: if that byte is
    small, the reader takes the cut off packet for a whole one and delivers a message that is
    shorter than a preamble.
  */
  method ReadPhantom(cut: seq<byte>, memory: nat -> byte, clock: Clock, recover: bool, ghost p: Packet)
    returns (ok: bool, message: Message)
    requires |cut| == 5 && 0 < cut[4] <= 5 && FrontOf(cut, p) && GoodPacket(p)
    requires forall i :: memory(i) == 0
    requires clock(NO_HASH) < VERY_LARGE_TIMESTAMP
    ensures ok && message.bytes == cut[..cut[4]] && 0 < |message.bytes| < P.PREAMBLE_BYTES
  {
    hide PacketBytes, GoodPacket, Reader.Lefts, Reader.Endings, Reader.Costs, Sum, FrontOf;
    hide InputStream.Readable, InputStream.Trace, InputStream.Finally, InputStream.TotalCount;
    var streams := OpenAll([cut], memory);
    PhantomTrace(streams[0], p, cut, recover);
    var reader := new Reader(streams, clock, 0.0, recover);
    ok, message := reader.ProcessMessage();
  }

  lemma {:induction false} PhantomTrace(s: InputStream, p: Packet, cut: seq<byte>, recover: bool)
    requires |cut| == 5 && 0 < cut[4] <= 5 && FrontOf(cut, p) && GoodPacket(p) && s.bytes == cut
    requires forall i :: s.beyond(i) == 0
    ensures s.Readable(0, recover) && s.Trace(0, map[], recover) != []
    ensures s.Trace(0, map[], recover)[0].time == NO_HASH && s.Trace(0, map[], recover)[0].bytes == cut[..cut[4]]
  {
    hide s.Plausible, PacketBytes, GoodPacket, s.MagicAt, s.SizeAt, s.TimeAt, s.HashAt, s.CountAt, s.Readable;
    PhantomRead(s, p, cut);
    ShortEnd(s, 0, recover);
    assert cut[0..cut[4]] == cut[..cut[4]];
  }

  lemma {:induction false} PhantomRead(s: InputStream, p: Packet, cut: seq<byte>)
    requires |cut| == 5 && 0 < cut[4] <= 5 && FrontOf(cut, p) && GoodPacket(p) && s.bytes == cut
    requires forall i :: s.beyond(i) == 0
    ensures s.Plausible(0) && s.SizeAt(0) == cut[4] && s.TimeAt(0) == NO_HASH
  {
    hide s.PreambleAt, PacketBytes, Word32;
    FirstWord(p, 5);
    FiveRead(s, cut);
  }

  /** Five bytes, and zeros. */
  lemma {:induction false} FiveRead(s: InputStream, cut: seq<byte>)
    requires |cut| == 5 && s.bytes == cut && forall i :: s.beyond(i) == 0
    ensures
      var read := s.PreambleAt(0);
      Word32(read, 0) == Word32(cut, 0) && Word32(read, 4) == cut[4] && read[16..24] == NO_HASH
  {
    var read := s.PreambleAt(0);
    assert forall i: nat :: i < 5 ==> read[i] == cut[i];
    forall i: nat | 5 <= i < P.PREAMBLE_BYTES
      ensures read[i] == 0
    {
      assert s.beyond(0 + i) == 0;
    }
  }

  // ----- files with corrupted bytes between their packets

  /** The packets before each run of corrupted bytes, with those bytes, and the packets behind the last. */
  datatype Damaged = Damaged(segs: seq<Segment>, last: seq<Packet>)

  function DamagedBytes(f: Damaged): seq<byte> {
    SegmentBytes(f.segs, f.last)
  }

  function PacketsIn(f: Damaged): seq<Packet> {
    PacketsOf(f.segs, f.last)
  }

  /** How often there are corrupted bytes. */
  function Gaps(files: seq<Damaged>): nat {
    if files == [] then 0 else |files[0].segs| + Gaps(files[1..])
  }

  /** The streams are different, and each is at the beginning of its damaged file. */
  ghost predicate OpenedDamaged(streams: seq<InputStream>, files: seq<Damaged>, clock: Clock)
    reads streams
  {
    && |streams| == |files|
    && (forall j, k :: 0 <= j < k < |streams| ==> streams[j] != streams[k])
    && forall k :: 0 <= k < |streams| ==>
         && Opened(streams[k], DamagedBytes(files[k]), streams[k].beyond)
         && Separated(streams[k], 0, files[k].segs, files[k].last)
         && Timed(clock, PacketsIn(files[k]))
  }

  /**
    With recovery, corrupted bytes between packets cost no packet on either side of them: every
    packet of every file is delivered, under its type's name and schema where its file has told
    them, and one corruption is counted for each place with such bytes.
  */
  method ReadCorrupted(streams: seq<InputStream>, clock: Clock, ghost files: seq<Damaged>, ghost types: Image8 -> TypeInfo)
    returns (messages: seq<Message>, corruptions: nat)
    requires OpenedDamaged(streams, files, clock)
    modifies streams
    ensures forall k :: 0 <= k < |files| ==> BytesFrom(messages, k) == Packed(DataOf(PacketsIn(files[k])))
    ensures corruptions == Gaps(files)
    ensures (forall k :: 0 <= k < |files| ==> Describes(map[], PacketsIn(files[k]), types)) ==>
              forall i :: 0 <= i < |messages| ==>
                |messages[i].bytes| >= P.PREAMBLE_BYTES && messages[i].info == types(messages[i].bytes[8..16])
  {
    hide DamagedBytes, PacketsIn, Separated, Timed, Describes, RightlyTold, DataOf, Packed, SegmentEntries;
    hide Reader.Lefts, Reader.Endings, Reader.Costs, Gaps, Sum, NotStopped, LeastFirst, NoneLate, Progress, Told;
    hide EntryBytes, BytesFrom, From, UntilLate, WillStop, HasStopped, HaveTimes, AllTimed, Reader.NothingOwed, AllInOrder;
    hide InputStream.Readable, InputStream.Trace, InputStream.Finally, InputStream.TotalCount;
    messages, corruptions := [], 0;
    if streams == [] {
      NoneDamaged(files);
      return;
    }
    forall k | 0 <= k < |streams|
      ensures streams[k].Ready(true) && streams[k].Left(true) == SegmentEntries(0, map[], files[k].segs, files[k].last)
      ensures streams[k].Ending(true) == AtEnd && streams[k].Cost(true) == |files[k].segs|
    {
      DamagedTrace(streams[k], files[k]);
    }
    var reader := new Reader(streams, clock, 0.0, true);
    ghost var lefts, endings, costs, log := reader.Lefts(), reader.Endings(), reader.Costs(), [];
    GapCosts(files, costs);
    forall k | 0 <= k < |files|
      ensures EntryBytes(lefts[k]) == Packed(DataOf(PacketsIn(files[k])))
      ensures HaveTimes(clock, lefts[k])
      ensures Describes(map[], PacketsIn(files[k]), types) ==> RightlyTold(lefts[k], types)
    {
      DamagedEntries(files[k], clock, types);
    }
    AllHaveTimes(clock, lefts);
    messages, log := ReadAll(reader);
    corruptions := reader.corruptions;
    AllRead(reader, lefts, endings, costs, log, messages);
    if forall k :: 0 <= k < |files| ==> Describes(map[], PacketsIn(files[k]), types) {
      MessagesTold(lefts, reader.Lefts(), log, messages, types);
    }
  }

  lemma NoneDamaged(files: seq<Damaged>)
    requires files == []
    ensures Gaps(files) == 0
  {
  }

  lemma {:induction false} GapCosts(files: seq<Damaged>, costs: seq<nat>)
    requires |costs| == |files| && forall k :: 0 <= k < |files| ==> costs[k] == |files[k].segs|
    ensures Sum(costs) == Gaps(files)
  {
    if files != [] {
      GapCosts(files[1..], costs[1..]);
    }
  }

  lemma {:induction false} DamagedTrace(s: InputStream, f: Damaged)
    requires s.bytes == DamagedBytes(f) && Separated(s, 0, f.segs, f.last)
    ensures s.Readable(0, true) && s.Trace(0, map[], true) == SegmentEntries(0, map[], f.segs, f.last)
    ensures s.Finally(0, true) == AtEnd && s.TotalCount(0, true) == |f.segs|
  {
    hide s.Readable, s.Trace, s.Finally, s.TotalCount, Separated, SegmentBytes, SegmentEntries;
    assert s.bytes[0..] == s.bytes;
    TraceOfSegments(s, 0, f.segs, f.last, map[]);
  }

  lemma {:induction false} DamagedEntries(f: Damaged, clock: Clock, types: Image8 -> TypeInfo)
    requires Timed(clock, PacketsIn(f))
    ensures
      var es := SegmentEntries(0, map[], f.segs, f.last);
      && EntryBytes(es) == Packed(DataOf(PacketsIn(f)))
      && HaveTimes(clock, es)
      && (Describes(map[], PacketsIn(f), types) ==> RightlyTold(es, types))
  {
    hide SegmentEntries, PacketsOf, EntryBytes, Packed, DataOf, Describes, RightlyTold, Timed;
    SegmentsAreData(0, map[], f.segs, f.last);
    SegmentsTimed(clock, 0, map[], f.segs, f.last);
    if Describes(map[], PacketsIn(f), types) {
      SegmentsTold(0, map[], f.segs, f.last, types);
    }
  }

  lemma {:induction false} SegmentsAreData(at: nat, d: map<Image8, TypeInfo>, segs: seq<Segment>, last: seq<Packet>)
    ensures EntryBytes(SegmentEntries(at, d, segs, last)) == Packed(DataOf(PacketsOf(segs, last)))
    decreases segs
  {
    hide EntryBytes, Packed, DataOf, Entries, FileBytes, Learned;
    if segs == [] {
      EntriesAreData(at, d, last);
    } else {
      var (ps, next, known) := (segs[0].ps, at + |FileBytes(segs[0].ps)| + |segs[0].junk|, Learned(d, segs[0].ps));
      EntriesAreData(at, d, ps);
      SegmentsAreData(next, known, segs[1..], last);
      EntryBytesAppend(Entries(at, d, ps), SegmentEntries(next, known, segs[1..], last));
      DataOfAppend(ps, PacketsOf(segs[1..], last));
      PackedAppend(DataOf(ps), DataOf(PacketsOf(segs[1..], last)));
    }
  }

  lemma {:induction false} SegmentsTimed(clock: Clock, at: nat, d: map<Image8, TypeInfo>, segs: seq<Segment>,
                                         last: seq<Packet>)
    requires Timed(clock, PacketsOf(segs, last))
    ensures HaveTimes(clock, SegmentEntries(at, d, segs, last))
    decreases segs
  {
    hide Entries, FileBytes, Learned;
    if segs == [] {
      EntriesTimed(clock, at, d, last);
    } else {
      var (ps, next, known) := (segs[0].ps, at + |FileBytes(segs[0].ps)| + |segs[0].junk|, Learned(d, segs[0].ps));
      var rest := PacketsOf(segs[1..], last);
      assert forall i :: 0 <= i < |ps| ==> (ps + rest)[i] == ps[i];
      assert forall i :: 0 <= i < |rest| ==> (ps + rest)[|ps| + i] == rest[i];
      EntriesTimed(clock, at, d, ps);
      SegmentsTimed(clock, next, known, segs[1..], last);
      HaveTimesAppend(clock, Entries(at, d, ps), SegmentEntries(next, known, segs[1..], last));
    }
  }

  lemma {:induction false} SegmentsTold(at: nat, d: map<Image8, TypeInfo>, segs: seq<Segment>, last: seq<Packet>,
                                        types: Image8 -> TypeInfo)
    requires Describes(d, PacketsOf(segs, last), types)
    ensures RightlyTold(SegmentEntries(at, d, segs, last), types)
    decreases segs
  {
    hide Entries, FileBytes, Learned, Describes;
    if segs == [] {
      EntriesTold(at, d, last, types);
    } else {
      var (ps, next, known) := (segs[0].ps, at + |FileBytes(segs[0].ps)| + |segs[0].junk|, Learned(d, segs[0].ps));
      DescribesParts(d, ps, PacketsOf(segs[1..], last), types);
      EntriesTold(at, d, ps, types);
      SegmentsTold(next, known, segs[1..], last, types);
    }
  }

  lemma DescribesParts(d: map<Image8, TypeInfo>, ps: seq<Packet>, rest: seq<Packet>, types: Image8 -> TypeInfo)
    requires Describes(d, ps + rest, types)
    ensures Describes(d, ps, types) && Describes(Learned(d, ps), rest, types)
  {
    hide Learned;
    forall i | 0 <= i < |ps| && ps[i].Data?
      ensures var known := Learned(d, ps[..i]); ps[i].pre.hash in known && known[ps[i].pre.hash] == types(ps[i].pre.hash)
    {
      assert (ps + rest)[i] == ps[i] && (ps + rest)[..i] == ps[..i];
    }
    forall i | 0 <= i < |rest| && rest[i].Data?
      ensures
        var known := Learned(Learned(d, ps), rest[..i]);
        rest[i].pre.hash in known && known[rest[i].pre.hash] == types(rest[i].pre.hash)
    {
      assert (ps + rest)[|ps| + i] == rest[i] && (ps + rest)[..|ps| + i] == ps + rest[..i];
      LearnedAppend(d, ps, rest[..i]);
    }
  }
}
