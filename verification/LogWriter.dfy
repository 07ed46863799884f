/**
  Writing log files: processPacket writes a type's metadata before its first packet in each
  file, stamps the topic variant, and starts a new file once the current one is large.
*/
module LogWriter {
  import opened Bytes
  import opened WireFormat
  import opened LogFormat
  import NetCode
  import P = Preamble

  const SPLIT_FILE_SIZE: nat := 200 * 1024 * 1024
  const NO_HASH: Image8 := [0, 0, 0, 0, 0, 0, 0, 0]

  /** A packet out of the ring buffer with its tags, and the clock when its metadata is written. */
  datatype Input = Input(pre: PreambleValue, body: seq<byte>, name: seq<byte>, text: seq<byte>, topic: nat, now: Image8)

  /** The packets in the files written, and what the logger remembers. */
  datatype Log = Log(closed: seq<seq<Packet>>, current: Option<seq<Packet>>, known: map<Image8, seq<byte>>,
                     variants: map<Image8, seq<nat>>, written: nat, errors: nat)

  const EMPTY_LOG := Log([], None, map[], map[], 0, 0)

  /** The integrity checks. */
  predicate Accepted(x: Input) {
    && x.pre.magic == P.MAGIC && x.pre.hash != NO_HASH
    && P.Size(x.pre.size) != 0 && P.Size(x.pre.size) == P.PREAMBLE_BYTES + |x.body|
  }

  function Topics(variants: map<Image8, seq<nat>>, hash: Image8): seq<nat> {
    if hash in variants then variants[hash] else []
  }

  /** Variants count from 1 in order of appearance. */
  function VariantOf(topics: seq<nat>, topic: nat): (v: nat)
    ensures 1 <= v <= |topics| + 1
    ensures v <= |topics| ==> topics[v - 1] == topic
    ensures forall i :: 0 <= i < v - 1 ==> topics[i] != topic
  {
    if topics == [] || topics[0] == topic then 1 else 1 + VariantOf(topics[1..], topic)
  }

  function WithTopic(variants: map<Image8, seq<nat>>, hash: Image8, topic: nat): map<Image8, seq<nat>> {
    var topics := Topics(variants, hash);
    if topic == 0 || topic in topics then variants else variants[hash := topics + [topic]]
  }

  /** setVariant takes a uint8_t. */
  function Stamped(x: Input, variants: map<Image8, seq<nat>>): Packet {
    var v := if x.topic == 0 then 0 else VariantOf(Topics(variants, x.pre.hash), x.topic) % 256;
    Data(x.pre.(size := P.WithVariant(x.pre.size, v)), x.body)
  }

  function NewMeta(x: Input): Packet {
    var pre := Pre(P.MAGIC, 0, META_HASH, x.now);
    var size := |PacketBytes(Meta(pre, x.pre.hash, x.name, x.text))|;
    Meta(pre.(size := P.WithSize(0, size)), x.pre.hash, x.name, x.text)
  }

  function Process(log: Log, x: Input): Log {
    var base := if log.current.None? then log.(current := Some([]), written := 0) else log;
    if !Accepted(x) then base.(errors := base.errors + 1)
    else
      var unseen := x.pre.hash !in base.known;
      var variants := WithTopic(base.variants, x.pre.hash, x.topic);
      var file := base.current.value + (if unseen then [NewMeta(x)] else []) + [Stamped(x, variants)];
      var known := if unseen then base.known[x.pre.hash := x.name] else base.known;
      var written := base.written + P.PREAMBLE_BYTES + |x.body|;
      if written > SPLIT_FILE_SIZE then
        Log(base.closed + [file], Some([]), map[], variants, 0, base.errors)
      else
        Log(base.closed, Some(file), known, variants, written, base.errors)
  }

  /** The log after a run of processPacket. */
  function Logged(xs: seq<Input>): Log {
    if xs == [] then EMPTY_LOG else Process(Logged(xs[..|xs| - 1]), xs[|xs| - 1])
  }

  function AllBytes(files: seq<seq<Packet>>): (r: seq<seq<byte>>)
    ensures |r| == |files|
  {
    seq(|files|, i requires 0 <= i < |files| => FileBytes(files[i]))
  }

  class Logger {
    var closed: seq<seq<byte>>
    var isOpen: bool
    var file: seq<byte>
    var dictionary: map<Image8, seq<byte>>
    var variantDictionary: map<Image8, seq<nat>>
    var currentFileSize: nat
    var errors: nat
    ghost var log: Log

    /** The bytes in the files are those of the packets in the log. */
    ghost predicate Valid()
      reads this
    {
      && closed == AllBytes(log.closed)
      && isOpen == log.current.Some? && (isOpen ==> file == FileBytes(log.current.value))
      && dictionary == log.known && variantDictionary == log.variants
      && currentFileSize == log.written && errors == log.errors
    }

    constructor ()
      ensures Valid() && log == EMPTY_LOG
    {
      closed, isOpen, file, dictionary, variantDictionary := [], false, [], map[], map[];
      currentFileSize, errors := 0, 0;
      log := EMPTY_LOG;
    }

    method OpenFile()
      requires Valid()
      modifies this
      ensures Valid() && log == old(log).(current := Some([]), written := 0)
    {
      isOpen, file, currentFileSize := true, [], 0;
      log := log.(current := Some([]), written := 0);
    }

    method CloseFile()
      requires Valid() && isOpen
      modifies this
      ensures Valid()
      ensures log == old(log).(closed := old(log.closed) + [old(log.current).value], current := None, known := map[])
    {
      closed := closed + [file];
      isOpen, dictionary := false, map[];
      log := log.(closed := log.closed + [log.current.value], current := None, known := map[]);
    }

    method SerializeMetadata(x: Input)
      requires Valid() && isOpen && |x.name| < LIMIT32 && |x.text| < LIMIT32
      requires P.SizeAllowed(0, |PacketBytes(NewMeta(x))|)
      modifies this
      ensures Valid() && isOpen
      ensures log == if x.pre.hash in old(dictionary) then old(log)
                     else old(log).(current := Some(old(log.current).value + [NewMeta(x)]),
                                    known := old(dictionary)[x.pre.hash := x.name])
    {
      if x.pre.hash in dictionary {
        return;
      }
      ghost var blank := Meta(Pre(P.MAGIC, 0, META_HASH, x.now), x.pre.hash, x.name, x.text);
      MetaFits(blank);
      MetaStamp(blank);
      MetaWire(blank);
      MetaWire(NewMeta(x));
      var mdata := Object(Some(Pre(P.MAGIC, 0, META_HASH, x.now)), [Raw(x.pre.hash), Chars(x.name), Chars(x.text)]);
      var size := NetCode.EncodeNetSize(METADATA, mdata);
      var data := new byte[size];
      var _ := NetCode.EncodeNet(METADATA, mdata, data, 0, size);
      StampLength(mdata);
      assert data[..] == PacketBytes(NewMeta(x));
      file := file + data[..];
      dictionary := dictionary[x.pre.hash := x.name];
      OnePacket(log.current.value, NewMeta(x));
      log := log.(current := Some(log.current.value + [NewMeta(x)]), known := dictionary);
    }

    method GetOrMakeTopicVariant(hash: Image8, topic: nat) returns (v: nat)
      requires Valid() && topic != 0
      modifies this
      ensures Valid() && v == VariantOf(Topics(log.variants, hash), topic)
      ensures log == old(log).(variants := WithTopic(old(log.variants), hash, topic))
    {
      if hash !in variantDictionary {
        variantDictionary := variantDictionary[hash := [topic]];
        assert [] + [topic] == [topic];
        log := log.(variants := variantDictionary);
        return 1;
      }
      var topics := variantDictionary[hash];
      var i := 0;
      while i < |topics| && topics[i] != topic
        invariant i <= |topics| && topic !in topics[..i]
      {
        i := i + 1;
      }
      assert i == |topics| ==> topics[..i] == topics;
      VariantIs(if i < |topics| then topics else topics + [topic], i, topic);
      if i == |topics| {
        variantDictionary := variantDictionary[hash := topics + [topic]];
        log := log.(variants := variantDictionary);
      }
      return i + 1;
    }

    method ProcessPacket(x: Input)
      requires Valid()
      requires Accepted(x) ==> |x.name| < LIMIT32 && |x.text| < LIMIT32
                               && P.SizeAllowed(0, |PacketBytes(NewMeta(x))|)
      modifies this
      ensures Valid() && log == Process(old(log), x)
    {
      hide FileBytes, PacketBytes, NewMeta, VariantOf, AllBytes, P.WithVariant, P.Size;
      if !isOpen {
        OpenFile();
      }
      assert log.current.value + [] == log.current.value;
      var pre := x.pre;
      if pre.magic != P.MAGIC || pre.hash == NO_HASH || P.Size(pre.size) == 0
         || P.Size(pre.size) != P.PREAMBLE_BYTES + |x.body| {
        errors := errors + 1;
        log := log.(errors := log.errors + 1);
        return;
      }
      if pre.hash !in dictionary {
        SerializeMetadata(x);
      }
      if x.topic != 0 {
        var v := GetOrMakeTopicVariant(pre.hash, x.topic);
        pre := pre.(size := P.WithVariant(pre.size, v % 256));
      } else {
        pre := pre.(size := P.WithVariant(pre.size, 0));
      }
      WritePacket(pre, x.body);
      if currentFileSize > SPLIT_FILE_SIZE {
        CloseFile();
        OpenFile();
      }
    }

    method WritePacket(pre: PreambleValue, body: seq<byte>)
      requires Valid() && isOpen
      modifies this
      ensures Valid() && isOpen
      ensures log == old(log).(current := Some(old(log.current).value + [Data(pre, body)]),
                               written := old(log.written) + P.PREAMBLE_BYTES + |body|)
    {
      OnePacket(log.current.value, Data(pre, body));
      file := file + (PreBytes(pre) + body);
      currentFileSize := currentFileSize + P.PREAMBLE_BYTES + |body|;
      log := log.(current := Some(log.current.value + [Data(pre, body)]), written := currentFileSize);
    }
  }

  lemma VariantIs(topics: seq<nat>, i: nat, topic: nat)
    requires i < |topics| && topics[i] == topic && topic !in topics[..i]
    ensures VariantOf(topics, topic) == i + 1
  {
    assert forall k :: 0 <= k < i ==> topics[k] == topics[..i][k];
  }
}
