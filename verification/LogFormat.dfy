/** Log files: a sequence of packets, each with a preamble; metadata packets name and describe types. */
module LogFormat {
  import opened Bytes
  import opened Schema
  import opened WireFormat
  import P = Preamble

  /** The type hash of cbufmsg::metadata. */
  const META_HASH: Image8 := [198, 114, 171, 68, 213, 56, 103, 190]

  const METADATA: Struct := StructDef(false, META_HASH,
    [Field("msg_hash", Number(U64), Single), Field("msg_name", Text, Single), Field("msg_meta", Text, Single)])

  datatype Packet =
    | Meta(pre: PreambleValue, msgHash: Image8, name: seq<byte>, text: seq<byte>)
    | Data(pre: PreambleValue, body: seq<byte>)

  /** A metadata packet as an object of its generated type. */
  function MetaValue(p: Packet): Value
    requires p.Meta?
  {
    Object(Some(p.pre), [Raw(p.msgHash), Chars(p.name), Chars(p.text)])
  }

  function Body(p: Packet): seq<byte> {
    match p
    case Meta(_, msgHash, name, text) => msgHash + Le32(|name|) + name + Le32(|text|) + text
    case Data(_, body) => body
  }

  function PacketBytes(p: Packet): (s: seq<byte>)
    ensures |s| == P.PREAMBLE_BYTES + |Body(p)|
  {
    PreBytes(p.pre) + Body(p)
  }

  function FileBytes(ps: seq<Packet>): seq<byte> {
    if ps == [] then [] else PacketBytes(ps[0]) + FileBytes(ps[1..])
  }

  /** A packet that tells its own length and whether it is metadata. */
  predicate GoodPacket(p: Packet) {
    && p.pre.magic == P.MAGIC
    && P.Size(p.pre.size) == |PacketBytes(p)|
    && P.SizeAllowed(p.pre.size, |PacketBytes(p)|)
    && (p.Meta? <==> p.pre.hash == META_HASH)
    && (p.Meta? ==> |p.name| < LIMIT32 && |p.text| < LIMIT32)
  }

  predicate GoodPackets(ps: seq<Packet>) {
    forall i :: 0 <= i < |ps| ==> GoodPacket(ps[i])
  }

  lemma MetaWire(p: Packet)
    requires p.Meta?
    ensures Wire(MetaValue(p)) == PacketBytes(p)
  {
    var ms := MetaValue(p).members;
    assert ms[1..][1..] == [ms[2]] && ms[2..][1..] == [];
    calc {
      WireAll(ms);
      Wire(ms[0]) + (Wire(ms[1]) + WireAll(ms[1..][1..]));
      Wire(ms[0]) + (Wire(ms[1]) + (Wire(ms[2]) + []));
      Body(p);
    }
  }

  lemma MetaFits(p: Packet)
    requires p.Meta? && |p.name| < LIMIT32 && |p.text| < LIMIT32 && p.pre.hash == META_HASH
    ensures FitsStruct(METADATA, MetaValue(p)) && InitStruct(METADATA, MetaValue(p))
    ensures WellFormed(METADATA)
  {
    var fs, ms := METADATA.fields, MetaValue(p).members;
    var (f, v) := ([fs[2]], [ms[2]]);
    assert fs[1..][1..] == f && ms[1..][1..] == v && f[1..] == [] && v[1..] == [];
    assert FitsField(f[0], v[0]) && FitsField(fs[1], ms[1]) && FitsField(fs[0], ms[0]);
    assert FitsFields(f, v) && FitsFields(fs[1..], ms[1..]) && FitsFields(fs, ms);
    assert InitField(f[0], v[0]) && InitField(fs[1], ms[1]) && InitField(fs[0], ms[0]);
    assert InitFields(f[1..], v[1..]);
    assert InitFields(f, v) && InitFields(fs[1..], ms[1..]);
    assert WellFormedFields(f) && WellFormedFields(fs[1..]);
    assert !SimpleFields(fs[1..]);
  }

  /** What stamping a metadata object with its size gives. */
  lemma MetaStamp(p: Packet)
    requires p.Meta? && P.SizeAllowed(p.pre.size, |PacketBytes(p)|)
    ensures Stamp(MetaValue(p)) ==
      MetaValue(Meta(p.pre.(magic := P.MAGIC, size := P.WithSize(p.pre.size, |PacketBytes(p)|)),
                     p.msgHash, p.name, p.text))
    ensures SizesAllowed(MetaValue(p))
  {
    MetaWire(p);
    var ms := MetaValue(p).members;
    var last := [ms[2]];
    var rest := [ms[1]] + last;
    assert ms == [ms[0]] + rest && ms[1..] == rest && rest[1..] == last && last[1..] == [];
    assert StampAll(last[1..]) == [] && StampAll(last) == last;
    assert StampAll(rest) == rest && StampAll(ms) == ms;
    assert SizesAllowedAll(last[1..]) && SizesAllowedAll(last) && SizesAllowedAll(rest);
  }

  // ----- what a reader learns

  datatype TypeInfo = TypeInfo(name: seq<byte>, text: seq<byte>)

  /** The dictionary after reading the packets. */
  function Learned(d: map<Image8, TypeInfo>, ps: seq<Packet>): map<Image8, TypeInfo>
    decreases ps
  {
    if ps == [] then d
    else Learned(if ps[0].Meta? then d[ps[0].msgHash := TypeInfo(ps[0].name, ps[0].text)] else d, ps[1..])
  }

  function DataOf(ps: seq<Packet>): seq<Packet> {
    if ps == [] then [] else (if ps[0].Data? then [ps[0]] else []) + DataOf(ps[1..])
  }

  /** Every data packet comes after metadata, in the same file, that says what its type is. */
  ghost predicate SelfContained(ps: seq<Packet>, types: Image8 -> TypeInfo) {
    forall i :: 0 <= i < |ps| && ps[i].Data? ==>
      var d := Learned(map[], ps[..i]);
      ps[i].pre.hash in d && d[ps[i].pre.hash] == types(ps[i].pre.hash)
  }

  lemma {:induction false} LearnedAppend(d: map<Image8, TypeInfo>, ps: seq<Packet>, qs: seq<Packet>)
    ensures Learned(d, ps + qs) == Learned(Learned(d, ps), qs)
    decreases ps
  {
    if ps == [] {
      assert ps + qs == qs;
    } else {
      assert (ps + qs)[1..] == ps[1..] + qs;
      LearnedAppend(if ps[0].Meta? then d[ps[0].msgHash := TypeInfo(ps[0].name, ps[0].text)] else d, ps[1..], qs);
    }
  }

  lemma {:induction false} DataOfAppend(ps: seq<Packet>, qs: seq<Packet>)
    ensures DataOf(ps + qs) == DataOf(ps) + DataOf(qs)
  {
    if ps == [] {
      assert ps + qs == qs;
    } else {
      assert (ps + qs)[1..] == ps[1..] + qs;
      DataOfAppend(ps[1..], qs);
      var head := if ps[0].Data? then [ps[0]] else [];
      assert head + (DataOf(ps[1..]) + DataOf(qs)) == head + DataOf(ps[1..]) + DataOf(qs);
    }
  }

  lemma {:induction false} FileBytesAppend(ps: seq<Packet>, qs: seq<Packet>)
    ensures FileBytes(ps + qs) == FileBytes(ps) + FileBytes(qs)
  {
    if ps == [] {
      assert ps + qs == qs;
    } else {
      assert (ps + qs)[1..] == ps[1..] + qs;
      FileBytesAppend(ps[1..], qs);
      var head := PacketBytes(ps[0]);
      assert head + (FileBytes(ps[1..]) + FileBytes(qs)) == head + FileBytes(ps[1..]) + FileBytes(qs);
    }
  }

  lemma OnePacket(ps: seq<Packet>, p: Packet)
    ensures FileBytes(ps + [p]) == FileBytes(ps) + PacketBytes(p)
  {
    FileBytesAppend(ps, [p]);
    assert FileBytes([p][1..]) == [];
  }
}
