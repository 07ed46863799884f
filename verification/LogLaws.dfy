/** What holds of the log files after any run of processPacket, file splits included. */
module LogLaws {
  import opened Bytes
  import opened LogFormat
  import opened LogWriter
  import P = Preamble

  /** What callers provide: a type hash stands for one name and schema, and packets fit the ring. */
  ghost predicate GoodInput(x: Input, types: Image8 -> TypeInfo) {
    Accepted(x) ==>
      && x.pre.hash != META_HASH && types(x.pre.hash) == TypeInfo(x.name, x.text)
      && |x.name| < LIMIT32 && |x.text| < LIMIT32 && P.SizeAllowed(0, |PacketBytes(NewMeta(x))|)
      && P.PREAMBLE_BYTES + |x.body| < 0x07FF_FFFF
  }

  /**
    A file that can be read by itself: every data packet is preceded by its type's metadata, and
    the last packet is one of data.
  */
  ghost predicate GoodFile(ps: seq<Packet>, types: Image8 -> TypeInfo) {
    && GoodPackets(ps) && SelfContained(ps, types)
    && (ps != [] ==> ps[|ps| - 1].Data?)
  }

  /** The metadata written so far in the current file is that of the types known. */
  ghost predicate Knows(known: map<Image8, seq<byte>>, ps: seq<Packet>, types: Image8 -> TypeInfo) {
    forall h :: h in known ==> h in Learned(map[], ps) && Learned(map[], ps)[h] == types(h)
  }

  ghost predicate LogInv(log: Log, types: Image8 -> TypeInfo) {
    && (forall i :: 0 <= i < |log.closed| ==> GoodFile(log.closed[i], types))
    && (log.current.Some? ==> GoodFile(log.current.value, types) && Knows(log.known, log.current.value, types))
    && (log.current.None? ==> log.known == map[])
  }

  // ----- every file is self-contained

  lemma StampedIsGood(x: Input, variants: map<Image8, seq<nat>>, types: Image8 -> TypeInfo)
    requires Accepted(x) && GoodInput(x, types)
    ensures GoodPacket(Stamped(x, variants))
    ensures P.Size(Stamped(x, variants).pre.size) == P.Size(x.pre.size)
  {
    var v := if x.topic == 0 then 0 else VariantOf(Topics(variants, x.pre.hash), x.topic) % 256;
    P.SetVariantIsRegister(x.pre.size, v);
  }

  lemma NewMetaIsGood(x: Input, types: Image8 -> TypeInfo)
    requires Accepted(x) && GoodInput(x, types)
    ensures GoodPacket(NewMeta(x))
  {
    P.SetSizeIsRegister(0, |PacketBytes(NewMeta(x))|);
  }

  lemma SelfContainedAppend(ps: seq<Packet>, p: Packet, types: Image8 -> TypeInfo)
    requires SelfContained(ps, types)
    requires p.Data? ==> p.pre.hash in Learned(map[], ps) && Learned(map[], ps)[p.pre.hash] == types(p.pre.hash)
    ensures SelfContained(ps + [p], types)
  {
    forall i | 0 <= i < |ps + [p]| && (ps + [p])[i].Data?
      ensures var d := Learned(map[], (ps + [p])[..i]);
              (ps + [p])[i].pre.hash in d && d[(ps + [p])[i].pre.hash] == types((ps + [p])[i].pre.hash)
    {
      assert (ps + [p])[..i] == ps[..i];
      if i == |ps| {
        assert ps[..i] == ps;
      }
    }
  }

  lemma LearnedOne(d: map<Image8, TypeInfo>, ps: seq<Packet>, p: Packet)
    ensures Learned(d, ps + [p]) ==
              if p.Meta? then Learned(d, ps)[p.msgHash := TypeInfo(p.name, p.text)] else Learned(d, ps)
  {
    LearnedAppend(d, ps, [p]);
    assert [p][1..] == [];
  }

  /** The metadata of a type that is new to the file. */
  lemma MetaStep(ps: seq<Packet>, known: map<Image8, seq<byte>>, x: Input, types: Image8 -> TypeInfo)
    requires GoodPackets(ps) && SelfContained(ps, types) && Knows(known, ps, types) && Accepted(x) && GoodInput(x, types)
    ensures GoodPackets(ps + [NewMeta(x)]) && SelfContained(ps + [NewMeta(x)], types)
    ensures Knows(known[x.pre.hash := x.name], ps + [NewMeta(x)], types)
  {
    hide Learned, SelfContained, GoodPacket, PacketBytes;
    NewMetaIsGood(x, types);
    SelfContainedAppend(ps, NewMeta(x), types);
    LearnedOne(map[], ps, NewMeta(x));
  }

  /** A packet of a known type. */
  lemma DataStep(ps: seq<Packet>, known: map<Image8, seq<byte>>, p: Packet, types: Image8 -> TypeInfo)
    requires GoodPackets(ps) && SelfContained(ps, types) && Knows(known, ps, types)
    requires p.Data? && GoodPacket(p) && p.pre.hash in known
    ensures GoodFile(ps + [p], types) && Knows(known, ps + [p], types)
  {
    hide Learned, SelfContained, GoodPacket;
    SelfContainedAppend(ps, p, types);
    LearnedOne(map[], ps, p);
  }

  /** Metadata if the type is new, then the packet: the current file stays readable by itself. */
  lemma FileStep(ps: seq<Packet>, known: map<Image8, seq<byte>>, x: Input, variants: map<Image8, seq<nat>>,
                 types: Image8 -> TypeInfo) returns (file: seq<Packet>)
    requires GoodFile(ps, types) && Knows(known, ps, types) && Accepted(x) && GoodInput(x, types)
    ensures file == ps + (if x.pre.hash !in known then [NewMeta(x)] else []) + [Stamped(x, variants)]
    ensures GoodFile(file, types)
    ensures Knows(if x.pre.hash !in known then known[x.pre.hash := x.name] else known, file, types)
  {
    hide Knows, GoodPackets, SelfContained, GoodPacket, P.WithVariant, VariantOf, NewMeta, Accepted, GoodInput;
    var (mid, now) := (ps, known);
    StampedIsGood(x, variants, types);
    if x.pre.hash !in known {
      mid, now := ps + [NewMeta(x)], known[x.pre.hash := x.name];
      MetaStep(ps, known, x, types);
    } else {
      assert ps + [] == ps;
    }
    DataStep(mid, now, Stamped(x, variants), types);
    file := mid + [Stamped(x, variants)];
  }

  lemma ProcessKeeps(log: Log, x: Input, types: Image8 -> TypeInfo)
    requires LogInv(log, types) && GoodInput(x, types)
    ensures LogInv(Process(log, x), types)
  {
    hide GoodFile, Knows, Accepted, Stamped, NewMeta, WithTopic;
    EmptyFile(types);
    if Accepted(x) {
      var ps, known := if log.current.Some? then log.current.value else [], log.known;
      var file := FileStep(ps, known, x, WithTopic(log.variants, x.pre.hash, x.topic), types);
    }
  }

  lemma EmptyFile(types: Image8 -> TypeInfo)
    ensures GoodFile([], types) && Knows(map[], [], types)
  {
  }

  /** Every file of every run is self-contained, whatever was split off when. */
  lemma {:induction false} FilesAreSelfContained(xs: seq<Input>, types: Image8 -> TypeInfo)
    requires forall i :: 0 <= i < |xs| ==> GoodInput(xs[i], types)
    ensures LogInv(Logged(xs), types)
  {
    hide LogInv, Process, GoodInput;
    if xs == [] {
      EmptyLog(types);
    } else {
      FilesAreSelfContained(xs[..|xs| - 1], types);
      ProcessKeeps(Logged(xs[..|xs| - 1]), xs[|xs| - 1], types);
    }
  }

  lemma EmptyLog(types: Image8 -> TypeInfo)
    ensures LogInv(EMPTY_LOG, types)
  {
  }

  // ----- nothing is lost, duplicated or reordered

  function AllPackets(log: Log): seq<Packet> {
    Flatten(log.closed) + if log.current.Some? then log.current.value else []
  }

  function Flatten(files: seq<seq<Packet>>): seq<Packet> {
    if files == [] then [] else Flatten(files[..|files| - 1]) + files[|files| - 1]
  }

  /** The packets accepted, stamped with the variants their topics have in the end. */
  function Expected(xs: seq<Input>, variants: map<Image8, seq<nat>>): seq<Packet> {
    if xs == [] then []
    else
      var x := xs[|xs| - 1];
      Expected(xs[..|xs| - 1], variants) + if Accepted(x) then [Stamped(x, variants)] else []
  }

  /** Every topic seen has a variant. */
  ghost predicate HasTopics(xs: seq<Input>, variants: map<Image8, seq<nat>>) {
    forall i :: 0 <= i < |xs| && Accepted(xs[i]) && xs[i].topic != 0 ==>
      xs[i].topic in Topics(variants, xs[i].pre.hash)
  }

  /** A topic's variant never changes. */
  lemma {:induction false} VariantStays(topics: seq<nat>, topic: nat, other: nat)
    requires topic in topics
    ensures VariantOf(topics + [other], topic) == VariantOf(topics, topic)
  {
    if topics[0] != topic {
      assert (topics + [other])[1..] == topics[1..] + [other];
      VariantStays(topics[1..], topic, other);
    }
  }

  lemma StampStays(x: Input, variants: map<Image8, seq<nat>>, hash: Image8, topic: nat)
    requires x.topic != 0 ==> x.topic in Topics(variants, x.pre.hash)
    ensures Stamped(x, WithTopic(variants, hash, topic)) == Stamped(x, variants)
    ensures x.topic != 0 ==> x.topic in Topics(WithTopic(variants, hash, topic), x.pre.hash)
  {
    if x.topic != 0 && hash == x.pre.hash {
      VariantStays(Topics(variants, hash), x.topic, topic);
    }
  }

  lemma {:induction false} ExpectedStays(xs: seq<Input>, variants: map<Image8, seq<nat>>, hash: Image8, topic: nat)
    requires HasTopics(xs, variants)
    ensures Expected(xs, WithTopic(variants, hash, topic)) == Expected(xs, variants)
    ensures HasTopics(xs, WithTopic(variants, hash, topic))
  {
    hide WithTopic, Topics, Stamped, Accepted;
    if xs != [] {
      var n := |xs| - 1;
      ExpectedStays(xs[..n], variants, hash, topic);
      if Accepted(xs[n]) {
        StampStays(xs[n], variants, hash, topic);
      }
      forall i | 0 <= i < |xs| && Accepted(xs[i]) && xs[i].topic != 0
        ensures xs[i].topic in Topics(WithTopic(variants, hash, topic), xs[i].pre.hash)
      {
        if i < n {
          assert xs[..n][i] == xs[i];
        }
      }
    }
  }

  /** The data packets in all files, in file order, are the accepted packets in arrival order. */
  lemma {:induction false} NothingLost(xs: seq<Input>)
    ensures
      var log := Logged(xs);
      DataOf(AllPackets(log)) == Expected(xs, log.variants) && HasTopics(xs, log.variants)
  {
    hide Process, WithTopic, Stamped, Accepted, AllPackets;
    if xs == [] {
      assert AllPackets(Logged(xs)) == [] by {
        EmptyPackets();
      }
    } else {
      var n := |xs| - 1;
      var (log, x) := (Logged(xs[..n]), xs[n]);
      NothingLost(xs[..n]);
      ProcessAppends(log, x);
      if Accepted(x) {
        ExpectedStays(xs[..n], log.variants, x.pre.hash, x.topic);
        TopicAdded(log.variants, x);
      }
      forall i | 0 <= i < |xs| && Accepted(xs[i]) && xs[i].topic != 0
        ensures xs[i].topic in Topics(Logged(xs).variants, xs[i].pre.hash)
      {
        if i < n {
          assert xs[..n][i] == xs[i];
        }
      }
    }
  }

  lemma EmptyPackets()
    ensures AllPackets(EMPTY_LOG) == []
  {
  }

  lemma TopicAdded(variants: map<Image8, seq<nat>>, x: Input)
    ensures x.topic != 0 ==> x.topic in Topics(WithTopic(variants, x.pre.hash, x.topic), x.pre.hash)
  {
    var topics := Topics(variants, x.pre.hash);
    assert (topics + [x.topic])[|topics|] == x.topic;
  }

  lemma ProcessAppends(log: Log, x: Input)
    ensures
      var now := Process(log, x);
      if Accepted(x) then
        && now.variants == WithTopic(log.variants, x.pre.hash, x.topic)
        && DataOf(AllPackets(now)) == DataOf(AllPackets(log)) + [Stamped(x, now.variants)]
      else now.variants == log.variants && AllPackets(now) == AllPackets(log)
  {
    hide Accepted, WithTopic, NewMeta, Flatten, DataOf;
    if Accepted(x) {
      var now := Process(log, x);
      var ps := if log.current.Some? then log.current.value else [];
      var meta := if x.pre.hash !in log.known then [NewMeta(x)] else [];
      var p := Stamped(x, now.variants);
      assert AllPackets(now) == AllPackets(log) + (meta + [p]) by {
        FlattenAppend(log.closed, ps + meta + [p]);
      }
      DataOfAppend(AllPackets(log), meta + [p]);
      DataOfMeta(x, meta, p);
    }
  }

  lemma FlattenAppend(files: seq<seq<Packet>>, file: seq<Packet>)
    ensures Flatten(files + [file]) == Flatten(files) + file
  {
    assert (files + [file])[..|files|] == files;
  }

  lemma DataOfMeta(x: Input, meta: seq<Packet>, p: Packet)
    requires p.Data? && (meta == [] || meta == [NewMeta(x)])
    ensures DataOf(meta + [p]) == [p]
  {
    assert DataOf([p]) == [p] + DataOf([p][1..]);
    if meta != [] {
      assert (meta + [p])[1..] == [p];
    } else {
      assert meta + [p] == [p];
    }
  }

  // ----- variants

  ghost predicate Distinct(topics: seq<nat>) {
    forall i, j :: 0 <= i < j < |topics| ==> topics[i] != topics[j]
  }

  /** Over a run, the topics of each type stay distinct, so each keeps a number of its own. */
  lemma {:induction false} TopicsDistinct(xs: seq<Input>)
    ensures forall h :: h in Logged(xs).variants ==> Distinct(Logged(xs).variants[h])
  {
    hide Accepted, Stamped, NewMeta;
    if xs != [] {
      TopicsDistinct(xs[..|xs| - 1]);
    }
  }

  /** The variant that the 4 bits of the size word keep. */
  function Kept(topics: seq<nat>, topic: nat): nat {
    P.Variant(P.WithVariant(0, VariantOf(topics, topic) % 256))
  }

  /** Topics of a type can be told apart, and from no topic at all, exactly if there are at most 15. */
  lemma FifteenTopics(topics: seq<nat>)
    requires Distinct(topics)
    ensures (forall i, j :: 0 <= i < j < |topics| ==> Kept(topics, topics[i]) != Kept(topics, topics[j]))
            && (forall i :: 0 <= i < |topics| ==> Kept(topics, topics[i]) != 0)
            <==> |topics| <= 15
  {
    hide Kept, VariantOf;
    if |topics| <= 15 {
      forall i | 0 <= i < |topics|
        ensures Kept(topics, topics[i]) == i + 1
      {
        KeptAt(topics, i);
      }
    } else {
      KeptAt(topics, 15);
      assert Kept(topics, topics[15]) == 0;
    }
  }

  lemma LowBits(n: nat)
    ensures n % 256 % 16 == n % 16
  {
    assert n == n / 256 * 256 + n % 256;
  }

  lemma KeptAt(topics: seq<nat>, i: nat)
    requires Distinct(topics) && i < |topics|
    ensures Kept(topics, topics[i]) == (i + 1) % 16
  {
    hide P.Variant, P.WithVariant, VariantOf;
    VariantIs(topics, i, topics[i]);
    P.SetVariantIsRegister(0, (i + 1) % 256);
    LowBits(i + 1);
  }

  // ----- variants on the packets written

  /** An accepted packet of the type. */
  predicate OfType(x: Input, hash: Image8) {
    Accepted(x) && x.pre.hash == hash
  }

  /** The variant that a reader finds on the packet written for it. */
  function VariantRead(x: Input, variants: map<Image8, seq<nat>>): nat {
    P.Variant(Stamped(x, variants).pre.size)
  }

  /** Every topic that has a variant is that of a packet. */
  ghost predicate FromPackets(xs: seq<Input>, variants: map<Image8, seq<nat>>) {
    forall hash, i :: hash in variants && 0 <= i < |variants[hash]| ==> HasPacket(xs, hash, variants[hash][i])
  }

  ghost predicate HasPacket(xs: seq<Input>, hash: Image8, topic: nat) {
    topic != 0 && exists i :: 0 <= i < |xs| && OfType(xs[i], hash) && xs[i].topic == topic
  }

  lemma {:induction false} TopicsFromPackets(xs: seq<Input>)
    ensures FromPackets(xs, Logged(xs).variants)
  {
    hide Accepted, Process, WithTopic, HasPacket;
    if xs != [] {
      var n := |xs| - 1;
      var (was, x) := (Logged(xs[..n]), xs[n]);
      TopicsFromPackets(xs[..n]);
      ProcessAppends(was, x);
      forall hash, i | hash in Logged(xs).variants && 0 <= i < |Logged(xs).variants[hash]|
        ensures HasPacket(xs, hash, Logged(xs).variants[hash][i])
      {
        if Accepted(x) {
          TopicFrom(was.variants, x, hash, i);
        }
        if hash in was.variants && i < |was.variants[hash]| {
          HasPacketMore(xs, hash, was.variants[hash][i]);
        } else {
          HasPacketLast(xs, hash);
        }
      }
    }
  }

  /** A topic in a list was there before, or is the new packet's. */
  lemma TopicFrom(variants: map<Image8, seq<nat>>, x: Input, hash: Image8, i: nat)
    requires var now := WithTopic(variants, x.pre.hash, x.topic); hash in now && i < |now[hash]|
    ensures
      var topic := WithTopic(variants, x.pre.hash, x.topic)[hash][i];
      if hash in variants && i < |variants[hash]| then topic == variants[hash][i]
      else hash == x.pre.hash && topic == x.topic != 0
  {
  }

  lemma HasPacketMore(xs: seq<Input>, hash: Image8, topic: nat)
    requires xs != [] && HasPacket(xs[..|xs| - 1], hash, topic)
    ensures HasPacket(xs, hash, topic)
  {
    hide OfType;
    var was := xs[..|xs| - 1];
    var k :| 0 <= k < |was| && OfType(was[k], hash) && was[k].topic == topic;
    assert xs[k] == was[k];
  }

  lemma HasPacketLast(xs: seq<Input>, hash: Image8)
    requires xs != [] && OfType(xs[|xs| - 1], hash) && xs[|xs| - 1].topic != 0
    ensures HasPacket(xs, hash, xs[|xs| - 1].topic)
  {
    hide OfType;
  }

  lemma ReadVariant(x: Input, variants: map<Image8, seq<nat>>)
    ensures VariantRead(x, variants)
         == if x.topic == 0 then 0 else VariantOf(Topics(variants, x.pre.hash), x.topic) % 16
  {
    hide VariantOf, P.Variant, P.WithVariant;
    var v := if x.topic == 0 then 0 else VariantOf(Topics(variants, x.pre.hash), x.topic) % 256;
    P.VariantReadsBack(x.pre.size, v);
    LowBits(VariantOf(Topics(variants, x.pre.hash), x.topic));
  }

  /** Packets of the type have the same variant exactly if they have the same topic. */
  ghost predicate VariantsTell(xs: seq<Input>, hash: Image8) {
    forall i, j :: 0 <= i < |xs| && 0 <= j < |xs| && OfType(xs[i], hash) && OfType(xs[j], hash) ==>
      (VariantRead(xs[i], Logged(xs).variants) == VariantRead(xs[j], Logged(xs).variants)
       <==> xs[i].topic == xs[j].topic)
  }

  /**
    In every run: the variants written tell the topics of a type apart exactly if there are at
    most 15, or 16 and no packet of the type without a topic.
  */
  lemma VariantsTellTopics(xs: seq<Input>, hash: Image8)
    ensures
      var topics := Topics(Logged(xs).variants, hash);
      VariantsTell(xs, hash) <==>
        |topics| <= 15 || (|topics| == 16 && forall i :: 0 <= i < |xs| && OfType(xs[i], hash) ==> xs[i].topic != 0)
  {
    hide Logged, Stamped, VariantOf, VariantRead, Accepted;
    var variants := Logged(xs).variants;
    var topics := Topics(variants, hash);
    NothingLost(xs);
    TopicsDistinct(xs);
    TopicsFromPackets(xs);
    forall i | 0 <= i < |xs| && OfType(xs[i], hash)
      ensures VariantRead(xs[i], variants) == if xs[i].topic == 0 then 0 else VariantOf(topics, xs[i].topic) % 16
      ensures xs[i].topic != 0 ==> VariantOf(topics, xs[i].topic) <= |topics|
    {
      ReadVariant(xs[i], variants);
      if xs[i].topic != 0 {
        VariantInside(topics, xs[i].topic);
      }
    }
    if |topics| == 16 {
      var i := PacketOf(xs, variants, hash, 15);
    } else if |topics| > 16 {
      var i := PacketOf(xs, variants, hash, 0);
      var j := PacketOf(xs, variants, hash, 16);
    }
  }

  lemma {:induction false} VariantInside(topics: seq<nat>, topic: nat)
    requires topic in topics
    ensures VariantOf(topics, topic) <= |topics|
  {
    if topics[0] != topic {
      VariantInside(topics[1..], topic);
    }
  }

  /** A packet whose topic is the one at a place in its type's list, and the variant it has. */
  lemma PacketOf(xs: seq<Input>, variants: map<Image8, seq<nat>>, hash: Image8, k: nat) returns (i: nat)
    requires FromPackets(xs, variants) && k < |Topics(variants, hash)| && Distinct(Topics(variants, hash))
    ensures i < |xs| && OfType(xs[i], hash) && xs[i].topic == Topics(variants, hash)[k] != 0
    ensures VariantRead(xs[i], variants) == (k + 1) % 16
  {
    hide Accepted, VariantRead, VariantOf;
    var topics := Topics(variants, hash);
    assert HasPacket(xs, hash, variants[hash][k]);
    i :| 0 <= i < |xs| && OfType(xs[i], hash) && xs[i].topic == topics[k];
    VariantIs(topics, k, topics[k]);
    ReadVariant(xs[i], variants);
  }

  // ----- a run in which they repeat

  /** The same packet on topics 1 to n. */
  function OnTopics(x: Input, n: nat): seq<Input> {
    seq(n, i requires 0 <= i => x.(topic := i + 1))
  }

  function UpTo(n: nat): seq<nat> {
    seq(n, i requires 0 <= i => i + 1)
  }

  lemma {:induction false} TopicsInOrder(x: Input, n: nat)
    requires Accepted(x)
    ensures Topics(Logged(OnTopics(x, n)).variants, x.pre.hash) == UpTo(n)
  {
    hide Accepted, Stamped, NewMeta, PacketBytes;
    if n > 0 {
      TopicsInOrder(x, n - 1);
      var xs := OnTopics(x, n);
      assert xs[..|xs| - 1] == OnTopics(x, n - 1) && xs[n - 1] == x.(topic := n);
      assert Accepted(x.(topic := n)) by {
        SameButTopic(x, n);
      }
      assert n !in UpTo(n - 1) && UpTo(n) == UpTo(n - 1) + [n];
    }
  }

  lemma SameButTopic(x: Input, topic: nat)
    ensures Accepted(x.(topic := topic)) == Accepted(x)
  {
  }

  /** With packets of one type on n topics, the variants tell the topics apart exactly up to n = 16. */
  lemma SeventeenTopics(x: Input, n: nat)
    requires Accepted(x)
    ensures VariantsTell(OnTopics(x, n), x.pre.hash) <==> n <= 16
  {
    hide Logged, VariantsTell, Accepted;
    TopicsInOrder(x, n);
    VariantsTellTopics(OnTopics(x, n), x.pre.hash);
  }
}
