/** How the packets of a run are laid out over files: when files are split, and where metadata stands. */
module LogFiles {
  import opened Bytes
  import opened WireFormat
  import opened LogFormat
  import opened LogWriter
  import opened LogLaws
  import P = Preamble

  // ----- where files are split

  /** The length of the data packets, which is what counts; metadata does not. */
  function DataBytes(ps: seq<Packet>): nat {
    if ps == [] then 0
    else
      var last := ps[|ps| - 1];
      DataBytes(ps[..|ps| - 1]) + if last.Data? then |PacketBytes(last)| else 0
  }

  /** It ends with the packet with which it passed the limit. */
  ghost predicate SplitInTime(ps: seq<Packet>) {
    && ps != [] && ps[|ps| - 1].Data?
    && DataBytes(ps[..|ps| - 1]) <= SPLIT_FILE_SIZE < DataBytes(ps)
  }

  /**
    In every run, each closed file has passed the limit with its last packet, and the current one,
    which is there from the first packet on, has not passed it.
  */
  lemma {:induction false} FilesAreSplit(xs: seq<Input>)
    ensures forall i :: 0 <= i < |Logged(xs).closed| ==> SplitInTime(Logged(xs).closed[i])
    ensures Logged(xs).current.Some? <==> xs != []
    ensures xs != [] ==> DataBytes(Logged(xs).current.value) == Logged(xs).written <= SPLIT_FILE_SIZE
  {
    hide Accepted, Stamped, NewMeta, WithTopic, PacketBytes, DataBytes, SplitInTime;
    if xs != [] {
      var (was, x) := (Logged(xs[..|xs| - 1]), xs[|xs| - 1]);
      FilesAreSplit(xs[..|xs| - 1]);
      NoData();
      var file := if was.current.Some? then was.current.value else [];
      var meta := if x.pre.hash !in was.known then [NewMeta(x)] else [];
      var p := Stamped(x, WithTopic(was.variants, x.pre.hash, x.topic));
      StampedBytes(x, WithTopic(was.variants, x.pre.hash, x.topic));
      OneMore(file, meta, p);
    }
  }

  lemma NoData()
    ensures DataBytes([]) == 0
  {
  }

  lemma StampedBytes(x: Input, variants: map<Image8, seq<nat>>)
    ensures Stamped(x, variants).Data? && |PacketBytes(Stamped(x, variants))| == P.PREAMBLE_BYTES + |x.body|
    ensures NewMeta(x).Meta?
  {
  }

  lemma OneMore(file: seq<Packet>, meta: seq<Packet>, p: Packet)
    requires p.Data? && |meta| <= 1 && forall m :: m in meta ==> m.Meta?
    ensures DataBytes(file + meta + [p]) == DataBytes(file) + |PacketBytes(p)|
    ensures SplitInTime(file + meta + [p]) <==> DataBytes(file) <= SPLIT_FILE_SIZE < DataBytes(file) + |PacketBytes(p)|
  {
    hide PacketBytes;
    assert (file + meta + [p])[..|file + meta|] == file + meta;
    if meta == [] {
      assert file + meta == file;
    } else {
      assert (file + meta)[..|file|] == file;
    }
  }

  // ----- where metadata stands

  /** The type that a packet is of, or describes. */
  function TypeOf(p: Packet): Image8 {
    if p.Meta? then p.msgHash else p.pre.hash
  }

  /** Metadata stands right before the first packet of its type, and nowhere else. */
  ghost predicate MetaFirst(ps: seq<Packet>) {
    && (forall i :: 0 <= i < |ps| && ps[i].Meta? ==>
          i + 1 < |ps| && ps[i + 1].Data? && ps[i + 1].pre.hash == ps[i].msgHash)
    && (forall i, j :: 0 <= j < i < |ps| && ps[i].Meta? ==> TypeOf(ps[j]) != ps[i].msgHash)
  }

  /** The types known are those of the packets in the file. */
  ghost predicate KnownAre(known: map<Image8, seq<byte>>, ps: seq<Packet>) {
    forall h :: h in known <==> exists i :: 0 <= i < |ps| && TypeOf(ps[i]) == h
  }

  lemma OnePacketMore(known: map<Image8, seq<byte>>, ps: seq<Packet>, x: Input, p: Packet)
    requires MetaFirst(ps) && KnownAre(known, ps) && p.Data? && p.pre.hash == x.pre.hash
    ensures
      var (meta, now) := if x.pre.hash in known then ([], known) else ([NewMeta(x)], known[x.pre.hash := x.name]);
      MetaFirst(ps + meta + [p]) && KnownAre(now, ps + meta + [p])
  {
    hide PacketBytes;
    var (meta, now) := if x.pre.hash in known then ([], known) else ([NewMeta(x)], known[x.pre.hash := x.name]);
    var more := ps + meta + [p];
    assert forall i :: 0 <= i < |ps| ==> more[i] == ps[i];
    assert meta != [] ==> more[|ps|] == NewMeta(x);
    assert more[|more| - 1] == p;
    forall h
      ensures h in now <==> exists i :: 0 <= i < |more| && TypeOf(more[i]) == h
    {
      if h in known {
        var i :| 0 <= i < |ps| && TypeOf(ps[i]) == h;
        assert TypeOf(more[i]) == h;
      } else if h == x.pre.hash {
        assert TypeOf(more[|more| - 1]) == h;
      }
    }
  }

  /** In every run, in every file, each type has metadata exactly once, right before its first packet. */
  lemma {:induction false} MetadataOnce(xs: seq<Input>)
    ensures forall i :: 0 <= i < |Logged(xs).closed| ==> MetaFirst(Logged(xs).closed[i])
    ensures Logged(xs).current.Some? ==>
              MetaFirst(Logged(xs).current.value) && KnownAre(Logged(xs).known, Logged(xs).current.value)
    ensures Logged(xs).current.None? ==> Logged(xs).known == map[]
  {
    hide Accepted, Stamped, NewMeta, WithTopic, MetaFirst, KnownAre;
    EmptyFirst();
    if xs != [] {
      var (was, x) := (Logged(xs[..|xs| - 1]), xs[|xs| - 1]);
      MetadataOnce(xs[..|xs| - 1]);
      var file := if was.current.Some? then was.current.value else [];
      var p := Stamped(x, WithTopic(was.variants, x.pre.hash, x.topic));
      StampedType(x, WithTopic(was.variants, x.pre.hash, x.topic));
      OnePacketMore(was.known, file, x, p);
    }
  }

  /** Metadata tells the name and schema that came with a packet of the type, and has the time of being written. */
  ghost predicate ToldBy(xs: seq<Input>, p: Packet) {
    p.Meta? ==> exists i :: 0 <= i < |xs| && Accepted(xs[i]) && TellsOf(xs[i], p)
  }

  predicate TellsOf(x: Input, p: Packet)
    requires p.Meta?
  {
    p.msgHash == x.pre.hash && p.name == x.name && p.text == x.text && p.pre.time == x.now
  }

  ghost predicate AllToldBy(xs: seq<Input>, ps: seq<Packet>) {
    forall i :: 0 <= i < |ps| ==> ToldBy(xs, ps[i])
  }

  lemma {:induction false} MetadataFrom(xs: seq<Input>)
    ensures forall i :: 0 <= i < |Logged(xs).closed| ==> AllToldBy(xs, Logged(xs).closed[i])
    ensures Logged(xs).current.Some? ==> AllToldBy(xs, Logged(xs).current.value)
  {
    hide Accepted, Stamped, NewMeta, WithTopic, AllToldBy, ToldBy;
    NoneTold(xs);
    if xs != [] {
      var (was, x) := (Logged(xs[..|xs| - 1]), xs[|xs| - 1]);
      MetadataFrom(xs[..|xs| - 1]);
      var file := if was.current.Some? then was.current.value else [];
      forall ps | AllToldBy(xs[..|xs| - 1], ps)
        ensures AllToldBy(xs, ps)
      {
        StillTold(xs, ps);
      }
      if Accepted(x) {
        var p := Stamped(x, WithTopic(was.variants, x.pre.hash, x.topic));
        StampedType(x, WithTopic(was.variants, x.pre.hash, x.topic));
        MoreTold(xs, file, p);
      }
    }
  }

  lemma NoneTold(xs: seq<Input>)
    ensures AllToldBy(xs, [])
  {
  }

  lemma StillTold(xs: seq<Input>, ps: seq<Packet>)
    requires xs != [] && AllToldBy(xs[..|xs| - 1], ps)
    ensures AllToldBy(xs, ps)
  {
    hide Accepted, TellsOf;
    var was := xs[..|xs| - 1];
    forall i | 0 <= i < |ps|
      ensures ToldBy(xs, ps[i])
    {
      assert ToldBy(was, ps[i]);
      if ps[i].Meta? {
        var j :| 0 <= j < |was| && Accepted(was[j]) && TellsOf(was[j], ps[i]);
        assert xs[j] == was[j];
      }
    }
  }

  lemma MoreTold(xs: seq<Input>, file: seq<Packet>, p: Packet)
    requires xs != [] && Accepted(xs[|xs| - 1]) && AllToldBy(xs, file) && p.Data?
    ensures AllToldBy(xs, file + [NewMeta(xs[|xs| - 1])] + [p]) && AllToldBy(xs, file + [] + [p])
  {
    hide Accepted, PacketBytes, P.WithSize;
    assert TellsOf(xs[|xs| - 1], NewMeta(xs[|xs| - 1]));
  }

  lemma EmptyFirst()
    ensures MetaFirst([]) && KnownAre(map[], [])
  {
  }

  lemma StampedType(x: Input, variants: map<Image8, seq<nat>>)
    ensures Stamped(x, variants).Data? && Stamped(x, variants).pre.hash == x.pre.hash
  {
  }

  // ----- which packets are written, and how

  /** Of the bytes that a producer hands over, the stamp changes none outside the size word. */
  lemma StampTouches(x: Input, variants: map<Image8, seq<nat>>)
    ensures
      var (given, written) := (PreBytes(x.pre) + x.body, PacketBytes(Stamped(x, variants)));
      && |written| == |given| && written[..4] == given[..4] && written[8..] == given[8..]
  {
    hide P.WithVariant, VariantOf;
    var (pre, stamped) := (PreBytes(x.pre), PreBytes(Stamped(x, variants).pre));
    assert pre[..4] == stamped[..4] == Le32(x.pre.magic) && pre[8..] == stamped[8..] == x.pre.hash + x.pre.time;
    assert (pre + x.body)[8..] == pre[8..] + x.body;
    assert (stamped + x.body)[8..] == stamped[8..] + x.body;
  }

  /** A packet is accepted exactly if it is one that can be read back, and its type hash is not 0. */
  lemma AcceptedExactly(x: Input)
    requires P.SizeAllowed(x.pre.size, P.PREAMBLE_BYTES + |x.body|) && x.pre.hash != META_HASH
    ensures Accepted(x) <==> GoodPacket(Data(x.pre, x.body)) && x.pre.hash != NO_HASH
  {
  }

  /** In every run, each packet is written or counted as an error. */
  lemma {:induction false} WrittenOrCounted(xs: seq<Input>)
    ensures |DataOf(AllPackets(Logged(xs)))| + Logged(xs).errors == |xs|
  {
    hide Process, AllPackets, DataOf;
    NothingLost(xs);
    CountErrors(xs, Logged(xs).variants);
  }

  lemma {:induction false} CountErrors(xs: seq<Input>, variants: map<Image8, seq<nat>>)
    ensures |Expected(xs, variants)| + Logged(xs).errors == |xs|
  {
    hide Accepted, Stamped, NewMeta, WithTopic;
    if xs != [] {
      CountErrors(xs[..|xs| - 1], variants);
    }
  }
}
