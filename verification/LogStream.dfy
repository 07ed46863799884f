/** Reading one log file: a cursor over its bytes that learns the metadata it passes. */
module LogStream {
  import opened Bytes
  import opened Schema
  import opened WireFormat
  import opened LogFormat
  import NetCode
  import P = Preamble

  /**
    What may be left behind the packets, as by a crash: less than a preamble, or a preamble with
    no magic number or with less behind it than it says.
  */
  predicate GoodTail(tail: seq<byte>) {
    |tail| >= P.PREAMBLE_BYTES && Word32(tail, 0) == P.MAGIC ==> P.Size(Word32(tail, 4)) > |tail|
  }

  /** What a stream comes to next: a packet, or what is taken for one, the end, or where reading stops. */
  datatype Next = Item(at: nat) | AtEnd | Stopped

  /** A packet delivered from a stream, with what its file has told of its type. */
  datatype Entry = Entry(at: nat, time: Image8, info: TypeInfo, bytes: seq<byte>)

  const UNTOLD := TypeInfo([], [])

  class InputStream {
    const bytes: seq<byte>
    const beyond: nat -> byte      // what memory holds behind the mapped file
    var pos: nat
    var rem: nat
    var dictionary: map<Image8, TypeInfo>

    ghost predicate Valid()
      reads this
    {
      pos + rem == |bytes|
    }

    constructor (file: seq<byte>, memory: nat -> byte)
      ensures Valid() && bytes == file && beyond == memory && pos == 0 && dictionary == map[]
    {
      bytes, beyond := file, memory;
      pos, rem, dictionary := 0, |file|, map[];
    }

    // ----- what stands at a position

    /** The 24 bytes that a preamble pointer at an offset reads. */
    function PreambleAt(at: nat): (s: seq<byte>)
      ensures |s| == P.PREAMBLE_BYTES
      ensures at + P.PREAMBLE_BYTES <= |bytes| ==> s == bytes[at..][..P.PREAMBLE_BYTES]
    {
      seq(P.PREAMBLE_BYTES, i requires 0 <= i => if at + i < |bytes| then bytes[at + i] else beyond(at + i))
    }

    function MagicAt(at: nat): nat {
      Word32(PreambleAt(at), 0)
    }

    function SizeAt(at: nat): nat {
      P.Size(Word32(PreambleAt(at), 4))
    }

    function HashAt(at: nat): Image8 {
      PreambleAt(at)[8..16]
    }

    function TimeAt(at: nat): Image8 {
      PreambleAt(at)[16..24]
    }

    /** A preamble that could begin a packet. */
    predicate Plausible(at: nat) {
      MagicAt(at) == P.MAGIC && SizeAt(at) > 0
    }

    /** Where the length of a metadata packet's schema text stands, behind its name. */
    function TextAt(at: nat): nat
      requires at + 36 <= |bytes|
    {
      at + 36 + Word32(bytes, at + 32)
    }

    /** A metadata packet that decodes: its own size and both its strings are inside the file. */
    predicate MetaAt(at: nat) {
      && at + 36 <= |bytes| && MagicAt(at) == P.MAGIC && HashAt(at) == META_HASH && at + SizeAt(at) <= |bytes|
      && TextAt(at) + 4 <= |bytes| && TextAt(at) + 4 + Word32(bytes, TextAt(at)) <= |bytes|
    }

    /** The packet decoded there. */
    function MetaOf(at: nat): (p: Packet)
      requires MetaAt(at)
      ensures p.Meta?
    {
      Meta(Pre(MagicAt(at), Word32(PreambleAt(at), 4), HashAt(at), TimeAt(at)), bytes[at + 24..at + 32],
           bytes[at + 36..TextAt(at)], bytes[TextAt(at) + 4..TextAt(at) + 4 + Word32(bytes, TextAt(at))])
    }

    function Learn(at: nat, d: map<Image8, TypeInfo>): map<Image8, TypeInfo>
      requires MetaAt(at)
    {
      d[MetaOf(at).msgHash := TypeInfo(MetaOf(at).name, MetaOf(at).text)]
    }

    // ----- skipping metadata

    /** No metadata packet of size 0 is come to, which would be consumed forever. */
    predicate Skippable(at: nat)
      decreases |bytes| - at
    {
      MetaAt(at) ==> SizeAt(at) > 0 && Skippable(at + SizeAt(at))
    }

    /** Behind the metadata at a position. */
    function BehindMetas(at: nat): (e: nat)
      requires at <= |bytes| && Skippable(at)
      ensures at <= e <= |bytes| && !MetaAt(e)
      decreases |bytes| - at
    {
      if MetaAt(at) then BehindMetas(at + SizeAt(at)) else at
    }

    /** What is known behind it. */
    function LearnedBy(at: nat, d: map<Image8, TypeInfo>): map<Image8, TypeInfo>
      requires at <= |bytes| && Skippable(at)
      decreases |bytes| - at
    {
      hide SizeAt, Learn;
      if MetaAt(at) then LearnedBy(at + SizeAt(at), Learn(at, d)) else d
    }

    /** Where n attempts at consuming metadata lead. */
    function Steps(at: nat, n: nat): nat
      decreases n
    {
      if n > 0 && MetaAt(at) then Steps(at + SizeAt(at), n - 1) else at
    }

    lemma {:induction false} StepsEnd(at: nat)
      requires at <= |bytes| && Skippable(at)
      ensures exists n: nat :: !MetaAt(Steps(at, n))
      decreases |bytes| - at
    {
      hide MagicAt, HashAt, SizeAt, TextAt, PreambleAt;
      if MetaAt(at) {
        StepsEnd(at + SizeAt(at));
        var n: nat :| !MetaAt(Steps(at + SizeAt(at), n));
        assert Steps(at, n + 1) == Steps(at + SizeAt(at), n);
      } else {
        assert Steps(at, 0) == at;
      }
    }

    lemma {:induction false} StepsGoOn(at: nat, n: nat)
      requires at <= |bytes| && !Skippable(at)
      ensures MetaAt(Steps(at, n))
      decreases n
    {
      hide MagicAt, HashAt, SizeAt, TextAt, PreambleAt;
      if n > 0 {
        StepsGoOn(at + SizeAt(at), n - 1);
      }
    }

    /** Consuming metadata ends exactly if none of size 0 is come to. */
    lemma {:induction false} SkippingEnds(at: nat)
      requires at <= |bytes|
      ensures Skippable(at) <==> exists n: nat :: !MetaAt(Steps(at, n))
    {
      if Skippable(at) {
        StepsEnd(at);
      } else {
        forall n: nat
          ensures MetaAt(Steps(at, n))
        {
          StepsGoOn(at, n);
        }
      }
    }

    /** Takes a metadata packet off the stream, if one is next; one of size 0 stays where it is. */
    method ConsumeInternal() returns (consumed: bool)
      requires Valid()
      modifies this`pos, this`rem, this`dictionary
      ensures Valid() && consumed == MetaAt(old(pos))
      ensures consumed ==> pos == old(pos + SizeAt(pos)) && dictionary == Learn(old(pos), old(dictionary))
      ensures !consumed ==> pos == old(pos) && dictionary == old(dictionary)
    {
      hide PreambleAt, P.Size, Word32;
      if rem == 0 {
        return false;
      }
      var hash, size := HashAt(pos), SizeAt(pos);
      if MagicAt(pos) != P.MAGIC || hash != META_HASH {
        return false;
      }
      var ok, msgHash, info := DecodeMetadata();
      if !ok {
        return false;
      }
      dictionary := dictionary[msgHash := info];
      pos, rem := pos + size, rem - size;
      return true;
    }

    /** Decodes the metadata packet at the cursor. */
    method DecodeMetadata() returns (ok: bool, msgHash: Image8, info: TypeInfo)
      requires Valid()
      ensures ok == MetaAt(pos)
      ensures ok ==> msgHash == MetaOf(pos).msgHash && info == TypeInfo(MetaOf(pos).name, MetaOf(pos).text)
    {
      hide MetaAt, MetaOf, MetaValue, NetCode.Header, NetCode.HoldsMembers, NetCode.EncodesAll, FitsStruct;
      ghost var v := Object(None, []);
      MetaIsWellFormed();
      if MetaAt(pos) {
        v := MetaValue(MetaOf(pos));
        MembersThere(v);
      }
      var r := NetCode.DecodeNet(METADATA, bytes, pos, rem, v);
      match r {
        case Done(value, next) =>
          MetaMembers(value);
          var ms := value.members;
          MembersRead(next, ms[0].bytes, ms[1].chars, ms[2].chars);
          return true, ms[0].bytes, TypeInfo(ms[1].chars, ms[2].chars);
        case _ => return false, META_HASH, TypeInfo([], []);
      }
    }

    /** The members of decodable metadata stand behind its preamble. */
    lemma {:induction false} MembersThere(v: Value)
      requires Valid() && MetaAt(pos) && v == MetaValue(MetaOf(pos))
      ensures v.Object? && NetCode.Header(METADATA, bytes, pos, rem)
      ensures NetCode.HoldsMembers(METADATA, bytes, pos, rem, v.members)
    {
      hide PreambleAt, P.Size, Word32;
      var p := MetaOf(pos);
      PreambleWords(bytes, pos, PreambleAt(pos));
      MetaMembersFit(p);
      BodyThere(bytes, pos + 24, p);
    }

    /** Whatever was decoded was such metadata. */
    lemma {:induction false} MembersRead(next: nat, msgHash: seq<byte>, name: seq<byte>, text: seq<byte>)
      requires Valid() && NetCode.Header(METADATA, bytes, pos, rem) && |msgHash| == 8
      requires |name| < LIMIT32 && |text| < LIMIT32
      requires NetCode.EncodesAll(bytes, pos + P.PREAMBLE_BYTES, next, [Raw(msgHash), Chars(name), Chars(text)])
      ensures MetaAt(pos) && msgHash == MetaOf(pos).msgHash && name == MetaOf(pos).name && text == MetaOf(pos).text
    {
      hide PreambleAt, P.Size, Word32;
      PreambleWords(bytes, pos, PreambleAt(pos));
      MembersWire(msgHash, name, text);
      BodyParts(bytes, pos + 24, next, msgHash, name, text);
    }

    /** get_next_size and its like first consume all metadata at the cursor. */
    method SkipMetas()
      requires Valid() && Skippable(pos)
      modifies this`pos, this`rem, this`dictionary
      ensures Valid() && pos == BehindMetas(old(pos)) && dictionary == LearnedBy(old(pos), old(dictionary))
    {
      hide MetaAt, SizeAt, Learn;
      var consumed := true;
      while consumed
        invariant Valid() && Skippable(pos)
        invariant BehindMetas(pos) == BehindMetas(old(pos))
        invariant LearnedBy(pos, dictionary) == LearnedBy(old(pos), old(dictionary))
        invariant !consumed ==> !MetaAt(pos)
        decreases rem, consumed
      {
        consumed := ConsumeInternal();
      }
    }

    method GetNextSize() returns (size: nat)
      requires Valid() && Skippable(pos)
      modifies this`pos, this`rem, this`dictionary
      ensures Valid() && pos == BehindMetas(old(pos)) && dictionary == LearnedBy(old(pos), old(dictionary))
      ensures size == SizeAt(pos)
    {
      SkipMetas();
      size := SizeAt(pos);
    }

    method CheckNextPreamble() returns (good: bool)
      requires Valid() && Skippable(pos)
      modifies this`pos, this`rem, this`dictionary
      ensures Valid() && pos == BehindMetas(old(pos)) && dictionary == LearnedBy(old(pos), old(dictionary))
      ensures good == (MagicAt(pos) == P.MAGIC)
    {
      SkipMetas();
      good := MagicAt(pos) == P.MAGIC;
    }

    /** updatePtrAndSize: forward by n bytes, at most to the end of the file. */
    method Advance(n: nat)
      requires Valid()
      modifies this`pos, this`rem
      ensures Valid() && pos == old(pos) + (if n > old(rem) then old(rem) else n)
    {
      var size := if n > rem then rem else n;
      pos, rem := pos + size, rem - size;
    }

    /** Moves past what stands behind metadata, by its size, at most to the end of the file. */
    method SkipMessage() returns (ok: bool)
      requires Valid() && Skippable(pos)
      modifies this`pos, this`rem, this`dictionary
      ensures Valid() && dictionary == LearnedBy(old(pos), old(dictionary))
      ensures
        var e := BehindMetas(old(pos));
        ok == (e < |bytes| && SizeAt(e) > 0) && pos == if e + SizeAt(e) > |bytes| then |bytes| else e + SizeAt(e)
    {
      hide MetaAt, SizeAt, Learn;
      SkipMetas();
      if rem == 0 {
        return false;
      }
      var size := SizeAt(pos);
      if size == 0 {
        return false;
      }
      Advance(size);
      return true;
    }

    // ----- resynchronising

    /** The next offset at which a preamble is looked for and found; else the end. */
    function Found(at: nat): (r: nat)
      requires at <= |bytes|
      ensures at <= r <= |bytes| && (at < |bytes| ==> at < r)
      ensures r < |bytes| ==> Plausible(r) && r + P.PREAMBLE_BYTES - 1 <= |bytes|
      ensures forall i :: at < i < r && i + P.PREAMBLE_BYTES - 1 <= |bytes| ==> !Plausible(i)
      decreases |bytes| - at
    {
      if |bytes| - at < P.PREAMBLE_BYTES then |bytes|
      else if Plausible(at + 1) then at + 1
      else Found(at + 1)
    }

    /** From an offset where no packet can begin, forward to the next where one can, or the end. */
    method SkipCorrupted()
      requires Valid()
      modifies this`pos, this`rem
      ensures Valid() && pos == if old(rem) == 0 || Plausible(old(pos)) then old(pos) else Found(old(pos))
    {
      hide Plausible;
      if rem == 0 || Plausible(pos) {
        return;
      }
      while rem >= P.PREAMBLE_BYTES
        invariant Valid() && Found(pos) == Found(old(pos))
      {
        pos, rem := pos + 1, rem - 1;
        if Plausible(pos) {
          return;
        }
      }
      pos, rem := pos + rem, 0;
    }

    /** Resynchronising comes to no metadata of size 0. */
    predicate Recoverable(at: nat)
      requires at <= |bytes|
      decreases |bytes| - at
    {
      Plausible(at) || at == |bytes| || (Skippable(Found(at)) && Recoverable(BehindMetas(Found(at))))
    }

    /** Where the recovery loop ends, what is known there, and the corruptions counted on the way. */
    function Resync(at: nat): (r: nat)
      requires at <= |bytes| && Recoverable(at) && !MetaAt(at)
      ensures at <= r <= |bytes| && !MetaAt(r) && (Plausible(r) || r == |bytes|)
      decreases |bytes| - at
    {
      if Plausible(at) || at == |bytes| then at else Resync(BehindMetas(Found(at)))
    }

    function LearnedOn(at: nat, d: map<Image8, TypeInfo>): map<Image8, TypeInfo>
      requires at <= |bytes| && Recoverable(at)
      decreases |bytes| - at
    {
      if Plausible(at) || at == |bytes| then d else LearnedOn(BehindMetas(Found(at)), LearnedBy(Found(at), d))
    }

    function Corruptions(at: nat): nat
      requires at <= |bytes| && Recoverable(at)
      decreases |bytes| - at
    {
      if Plausible(at) || at == |bytes| then 0 else 1 + Corruptions(BehindMetas(Found(at)))
    }

    // ----- what reading from a position comes to, with or without recovery

    predicate Reachable(at: nat, recover: bool) {
      at <= |bytes| && Skippable(at) && (recover ==> Recoverable(BehindMetas(at)))
    }

    /** Nothing is left, or one metadata packet and nothing else. */
    predicate Emptied(at: nat) {
      at == |bytes| || (MetaAt(at) && at + SizeAt(at) == |bytes|)
    }

    function NextAt(at: nat, recover: bool): (n: Next)
      requires Reachable(at, recover)
      ensures n.Item? ==> at <= n.at < n.at + SizeAt(n.at) <= |bytes| && !MetaAt(n.at) && Plausible(n.at)
      ensures n == Stopped ==> !recover && !Plausible(BehindMetas(at))
    {
      var e := BehindMetas(at);
      if Emptied(at) then AtEnd
      else if !recover && !Plausible(e) then Stopped
      else
        var r := if recover then Resync(e) else e;
        if r == |bytes| || r + SizeAt(r) > |bytes| then AtEnd else Item(r)
    }

    function KnownAt(at: nat, d: map<Image8, TypeInfo>, recover: bool): map<Image8, TypeInfo>
      requires Reachable(at, recover)
    {
      if recover then LearnedOn(BehindMetas(at), LearnedBy(at, d)) else LearnedBy(at, d)
    }

    function CountAt(at: nat, recover: bool): nat
      requires Reachable(at, recover)
    {
      if Emptied(at) then 0
      else if recover then Corruptions(BehindMetas(at))
      else if NextAt(at, recover) == Stopped then 1 else 0
    }

    /** All of the file can be read: no metadata of size 0 is come to. */
    predicate Readable(at: nat, recover: bool)
      decreases |bytes| - at
    {
      && Reachable(at, recover)
      && match NextAt(at, recover)
         case Item(r) => Readable(r + SizeAt(r), recover)
         case _ => true
    }

    function EntryAt(at: nat, d: map<Image8, TypeInfo>): Entry
      requires at + SizeAt(at) <= |bytes|
    {
      Entry(at, TimeAt(at), if HashAt(at) in d then d[HashAt(at)] else UNTOLD, bytes[at..at + SizeAt(at)])
    }

    /** The packets that reading comes to. */
    function Trace(at: nat, d: map<Image8, TypeInfo>, recover: bool): seq<Entry>
      requires Readable(at, recover)
      decreases |bytes| - at
    {
      hide Reachable, NextAt, SizeAt, KnownAt;
      match NextAt(at, recover)
      case Item(r) =>
        var known := KnownAt(at, d, recover);
        [EntryAt(r, known)] + Trace(r + SizeAt(r), known, recover)
      case _ => []
    }

    /** What it comes to behind them. */
    function Finally(at: nat, recover: bool): (n: Next)
      requires Readable(at, recover)
      ensures !n.Item?
      decreases |bytes| - at
    {
      hide Reachable, NextAt, SizeAt;
      match NextAt(at, recover)
      case Item(r) => Finally(r + SizeAt(r), recover)
      case n => n
    }

    /** The corruptions counted on the way. */
    function TotalCount(at: nat, recover: bool): nat
      requires Readable(at, recover)
      decreases |bytes| - at
    {
      hide Reachable, NextAt, CountAt, SizeAt;
      match NextAt(at, recover)
      case Item(r) => CountAt(at, recover) + TotalCount(r + SizeAt(r), recover)
      case _ => CountAt(at, recover)
    }

    // ----- the state of the stream in these terms

    ghost predicate Ready(recover: bool)
      reads this
    {
      Valid() && Readable(pos, recover)
    }

    /** The packets still to come. */
    ghost function Left(recover: bool): seq<Entry>
      requires Ready(recover)
      reads this
    {
      Trace(pos, dictionary, recover)
    }

    ghost function Ending(recover: bool): Next
      requires Ready(recover)
      reads this
    {
      Finally(pos, recover)
    }

    ghost function Cost(recover: bool): nat
      requires Ready(recover)
      reads this
    {
      TotalCount(pos, recover)
    }

    /** Nothing more is come to, and no corruption. */
    predicate Spent(at: nat, recover: bool) {
      Readable(at, recover) && NextAt(at, recover) == AtEnd && CountAt(at, recover) == 0
    }

    /** The packet at r comes first, and then what comes behind it. */
    ghost predicate ComesFirst(r: nat, at: nat, d: map<Image8, TypeInfo>, known: map<Image8, TypeInfo>, recover: bool) {
      hide Reachable, NextAt, SizeAt, Trace, Finally, TotalCount, CountAt, EntryAt;
      && Readable(at, recover) && Readable(r, recover) && NextAt(r, recover) == Item(r)
      && Readable(r + SizeAt(r), recover)
      && Trace(r, known, recover) == Trace(at, d, recover)
      && Trace(at, d, recover) == [EntryAt(r, known)] + Trace(r + SizeAt(r), known, recover)
      && Finally(r, recover) == Finally(at, recover) == Finally(r + SizeAt(r), recover)
      && TotalCount(at, recover) == CountAt(at, recover) + TotalCount(r, recover)
      && TotalCount(r, recover) == TotalCount(r + SizeAt(r), recover)
    }

    /** Coming to a packet changes nothing of what follows. */
    lemma {:induction false} ItemStays(at: nat, d: map<Image8, TypeInfo>, recover: bool)
      requires Readable(at, recover) && NextAt(at, recover).Item?
      ensures ComesFirst(NextAt(at, recover).at, at, d, KnownAt(at, d, recover), recover)
    {
      hide MetaAt, SizeAt, MagicAt, EntryAt, Learn;
      var (r, known) := (NextAt(at, recover).at, KnownAt(at, d, recover));
      assert BehindMetas(r) == r && LearnedBy(r, known) == known;
      assert Resync(r) == r && LearnedOn(r, known) == known && Corruptions(r) == 0;
    }

    lemma {:induction false} EndStays(at: nat, d: map<Image8, TypeInfo>, known: map<Image8, TypeInfo>, recover: bool)
      requires Readable(at, recover) && NextAt(at, recover) == AtEnd
      ensures Readable(|bytes|, recover) && Trace(|bytes|, known, recover) == [] == Trace(at, d, recover)
      ensures Finally(|bytes|, recover) == AtEnd == Finally(at, recover)
      ensures TotalCount(at, recover) == CountAt(at, recover) && TotalCount(|bytes|, recover) == 0
    {
      hide MetaAt, SizeAt, MagicAt, Plausible;
      NothingLeft(this, recover);
    }

    lemma {:induction false} StopStays(at: nat, d: map<Image8, TypeInfo>, known: map<Image8, TypeInfo>, recover: bool)
      requires Readable(at, recover) && NextAt(at, recover) == Stopped
      ensures
        var e := BehindMetas(at);
        && Readable(e, recover) && Trace(e, known, recover) == [] == Trace(at, d, recover)
        && Finally(at, recover) == Stopped
    {
      hide MetaAt, SizeAt, MagicAt, Plausible;
      assert BehindMetas(BehindMetas(at)) == BehindMetas(at);
    }

    // ----- intact packets

    /** The rest of the file from a position is the given packets and a tail. */
    ghost predicate HoldsAt(at: nat, ps: seq<Packet>, tail: seq<byte>) {
      at <= |bytes| && bytes[at..] == FileBytes(ps) + tail && GoodPackets(ps)
    }

    ghost predicate Holds(ps: seq<Packet>, tail: seq<byte>)
      reads this
    {
      pos + rem == |bytes| && HoldsAt(pos, ps, tail)
    }

    lemma {:induction false} PreambleOf(at: nat, ps: seq<Packet>, tail: seq<byte>)
      requires HoldsAt(at, ps, tail)
      ensures ps != [] ==>
                && PreambleAt(at) == PreBytes(ps[0].pre)
                && MagicAt(at) == P.MAGIC && SizeAt(at) == |PacketBytes(ps[0])| && at + SizeAt(at) <= |bytes|
                && HashAt(at) == ps[0].pre.hash && TimeAt(at) == ps[0].pre.time
                && bytes[at..at + SizeAt(at)] == PacketBytes(ps[0])
      ensures ps == [] ==> |tail| == |bytes| - at
      ensures at == |bytes| <==> ps == [] && tail == []
    {
      hide FileBytes, PacketBytes, PreambleAt, P.Size, Word32;
      if ps != [] {
        FrontPacket(bytes[at..], ps, tail);
        assert GoodPacket(ps[0]);
        ReadPreamble(PreambleAt(at), ps[0].pre);
        SliceAt(bytes, at, SizeAt(at));
      }
      assert |bytes[at..]| == |bytes| - at;
      assert ps == [] ==> bytes[at..] == tail by {
        NoPackets(tail);
      }
    }

    lemma {:induction false} BehindPacket(at: nat, ps: seq<Packet>, tail: seq<byte>)
      requires HoldsAt(at, ps, tail) && ps != []
      ensures HoldsAt(at + |PacketBytes(ps[0])|, ps[1..], tail)
    {
      hide PacketBytes;
      FrontPacket(bytes[at..], ps, tail);
      SliceAt(bytes, at, |PacketBytes(ps[0])|);
    }

    /** Of intact packets, exactly the metadata decodes, as what was encoded. */
    lemma {:induction false} MetaIs(at: nat, ps: seq<Packet>, tail: seq<byte>)
      requires HoldsAt(at, ps, tail)
      ensures ps != [] ==> (MetaAt(at) <==> ps[0].Meta?)
      ensures ps != [] && MetaAt(at) ==>
                && MetaOf(at).msgHash == ps[0].msgHash
                && MetaOf(at).name == ps[0].name && MetaOf(at).text == ps[0].text
    {
      hide FileBytes, PacketBytes, PreambleAt, P.Size, Word32, GoodPacket, GoodPackets, Body, MagicAt, HashAt, SizeAt;
      PreambleOf(at, ps, tail);
      if ps != [] {
        FirstIsGood(ps);
        if ps[0].Meta? {
          MetaThere(at, ps[0]);
        }
      }
    }

    lemma {:induction false} MetaThere(at: nat, p: Packet)
      requires p.Meta? && |p.name| < LIMIT32 && |p.text| < LIMIT32 && HashAt(at) == META_HASH
      requires MagicAt(at) == P.MAGIC && SizeAt(at) == |PacketBytes(p)| && at + SizeAt(at) <= |bytes|
      requires bytes[at..at + SizeAt(at)] == PacketBytes(p)
      ensures MetaAt(at)
      ensures MetaOf(at).msgHash == p.msgHash && MetaOf(at).name == p.name && MetaOf(at).text == p.text
    {
      hide PreambleAt, P.Size, Word32, MagicAt, HashAt, SizeAt, PreBytes;
      BodyOf(at, p);
      BodyParts(bytes, at + 24, at + |PacketBytes(p)|, p.msgHash, p.name, p.text);
    }

    lemma {:induction false} BodyOf(at: nat, p: Packet)
      requires at + |PacketBytes(p)| <= |bytes| && bytes[at..at + |PacketBytes(p)|] == PacketBytes(p)
      ensures bytes[at + 24..at + |PacketBytes(p)|] == Body(p)
    {
      hide Body, PreBytes;
      var n := |PacketBytes(p)|;
      assert bytes[at + 24..at + n] == bytes[at..at + n][24..];
    }
  }

  // ----- metadata of size 0

  /** Metadata of a type without name and schema, whose preamble gives its size as 0. */
  const EMPTY_META: Packet := Meta(Pre(P.MAGIC, 0, META_HASH, META_HASH), META_HASH, [], [])

  /** At such a packet the stream never moves on. */
  lemma {:induction false} EmptyMetaStays(s: InputStream, rest: seq<byte>, n: nat)
    requires s.bytes == PacketBytes(EMPTY_META) + rest
    ensures s.MetaAt(0) && s.SizeAt(0) == 0 && !s.Skippable(0) && s.Steps(0, n) == 0
    decreases n
  {
    hide Le32, Word32, P.Size;
    EmptyMetaThere(s, rest);
    if n > 0 {
      EmptyMetaStays(s, rest, n - 1);
    }
  }

  lemma {:induction false} EmptyMetaThere(s: InputStream, rest: seq<byte>)
    requires s.bytes == PacketBytes(EMPTY_META) + rest
    ensures s.MetaAt(0) && s.SizeAt(0) == 0
  {
    hide Le32, Word32, s.PreambleAt, PreBytes;
    var packet := PacketBytes(EMPTY_META);
    assert s.bytes[0..|packet|] == packet && s.bytes[..P.PREAMBLE_BYTES] == PreBytes(EMPTY_META.pre);
    assert s.bytes[0..] == s.bytes;
    ReadPreamble(s.PreambleAt(0), EMPTY_META.pre);
    s.BodyOf(0, EMPTY_META);
    BodyParts(s.bytes, 24, |packet|, EMPTY_META.msgHash, [], []);
    SizeZero();
  }

  lemma SizeZero()
    ensures P.Size(0) == 0
  {
  }

  /** The same preamble before a name that would not end inside the file is no metadata, and not consumed. */
  lemma {:induction false} LongNameEnds(s: InputStream, rest: seq<byte>)
    requires s.bytes == PreBytes(EMPTY_META.pre) + rest && |rest| >= 12 && Word32(s.bytes, 32) > |rest| - 16
    ensures s.Skippable(0) && s.BehindMetas(0) == 0
  {
    hide s.PreambleAt, PreBytes;
  }

  // ----- where a file may have been cut off

  /** The part of a file's first n bytes that is behind its first k packets. */
  function TailOf(ps: seq<Packet>, k: nat, n: nat): seq<byte>
    requires k <= |ps| && |FileBytes(ps[..k])| <= n <= |FileBytes(ps)|
  {
    FileBytes(ps)[|FileBytes(ps[..k])|..n]
  }

  /** A file cut off anywhere holds the whole packets before the cut, and a tail. */
  lemma {:induction false} CutAnywhere(ps: seq<Packet>, n: nat) returns (k: nat)
    requires GoodPackets(ps) && n <= |FileBytes(ps)|
    ensures k <= |ps| && |FileBytes(ps[..k])| <= n
    ensures FileBytes(ps)[..n] == FileBytes(ps[..k]) + TailOf(ps, k, n) && GoodTail(TailOf(ps, k, n))
    ensures
      var tail := TailOf(ps, k, n);
      tail != [] ==> k < |ps| && |tail| < |PacketBytes(ps[k])| && tail == PacketBytes(ps[k])[..|tail|]
    decreases ps
  {
    hide PacketBytes, GoodTail, GoodPacket, FileBytes, TailOf;
    if ps == [] || n < |PacketBytes(ps[0])| {
      k := 0;
      CutAtFirst(ps, n);
    } else {
      GoodRest(ps);
      FirstOfFile(ps);
      var j := CutAnywhere(ps[1..], n - |PacketBytes(ps[0])|);
      k := j + 1;
      CutBehind(ps, j, n);
    }
  }

  lemma FirstOfFile(ps: seq<Packet>)
    requires ps != []
    ensures FileBytes(ps) == PacketBytes(ps[0]) + FileBytes(ps[1..])
  {
  }

  /** The cut is inside the first packet. */
  lemma CutAtFirst(ps: seq<Packet>, n: nat)
    requires GoodPackets(ps) && n <= |FileBytes(ps)| && (ps == [] || n < |PacketBytes(ps[0])|)
    ensures |FileBytes(ps[..0])| == 0 && FileBytes(ps)[..n] == FileBytes(ps[..0]) + TailOf(ps, 0, n)
    ensures GoodTail(TailOf(ps, 0, n)) && (ps == [] ==> TailOf(ps, 0, n) == [])
    ensures ps != [] ==> |TailOf(ps, 0, n)| == n && TailOf(ps, 0, n) == PacketBytes(ps[0])[..n]
  {
    hide PacketBytes, GoodTail, GoodPacket;
    assert ps[..0] == [];
    if ps == [] {
      NoTail();
    } else {
      assert FileBytes(ps)[..n] == PacketBytes(ps[0])[..n];
      CutPacket(ps[0], n);
    }
  }

  lemma CutBehind(ps: seq<Packet>, j: nat, n: nat)
    requires ps != [] && j < |ps| && |PacketBytes(ps[0])| <= n <= |FileBytes(ps)|
    requires |FileBytes(ps[1..][..j])| <= n - |PacketBytes(ps[0])|
    ensures |FileBytes(ps[..j + 1])| <= n
    ensures FileBytes(ps[..j + 1]) == PacketBytes(ps[0]) + FileBytes(ps[1..][..j])
    ensures TailOf(ps, j + 1, n) == TailOf(ps[1..], j, n - |PacketBytes(ps[0])|)
    ensures FileBytes(ps)[..n] == PacketBytes(ps[0]) + FileBytes(ps[1..])[..n - |PacketBytes(ps[0])|]
  {
    hide PacketBytes;
    var (head, rest) := (PacketBytes(ps[0]), FileBytes(ps[1..]));
    assert ps[..j + 1][1..] == ps[1..][..j] && ps[..j + 1][0] == ps[0];
    assert FileBytes(ps) == head + rest;
    var at := |FileBytes(ps[1..][..j])|;
    assert (head + rest)[|head| + at..n] == rest[at..n - |head|];
    assert (head + rest)[..n] == head + rest[..n - |head|];
  }

  lemma NoTail()
    ensures GoodTail([])
  {
  }

  lemma CutPacket(p: Packet, n: nat)
    requires GoodPacket(p) && n < |PacketBytes(p)|
    ensures GoodTail(PacketBytes(p)[..n])
    ensures n >= 8 ==>
              var tail := PacketBytes(p)[..n];
              Word32(tail, 0) == P.MAGIC && Word32(tail, 4) == p.pre.size
  {
    if n >= 8 {
      var tail := PacketBytes(p)[..n];
      assert tail[0..4] == PreBytes(p.pre)[0..4] == Le32(p.pre.magic);
      assert tail[4..8] == PreBytes(p.pre)[4..8] == Le32(p.pre.size);
      Le32Inverse(tail, 0, p.pre.magic);
      Le32Inverse(tail, 4, p.pre.size);
    }
  }

  /** What less than a preamble at the end of a file comes to, by the 24 bytes that are read there. */
  lemma {:induction false} ShortEnd(s: InputStream, at: nat, recover: bool)
    requires at < |s.bytes| < at + P.PREAMBLE_BYTES
    ensures s.Readable(at, recover)
    ensures s.NextAt(at, recover) ==
              if s.Plausible(at) then if at + s.SizeAt(at) > |s.bytes| then AtEnd else Item(at)
              else if recover then AtEnd else Stopped
    ensures s.CountAt(at, recover) == if s.Plausible(at) then 0 else 1
    decreases |s.bytes| - at
  {
    hide s.Plausible, s.SizeAt;
    if s.Plausible(at) && at + s.SizeAt(at) < |s.bytes| {
      SizeThere(s, at);
      ShortEnd(s, at + s.SizeAt(at), recover);
    }
    NothingLeft(s, recover);
    assert s.Found(at) == |s.bytes|;
  }

  lemma {:induction false} SizeThere(s: InputStream, at: nat)
    requires s.Plausible(at)
    ensures s.SizeAt(at) > 0
  {
  }

  lemma {:induction false} NothingLeft(s: InputStream, recover: bool)
    ensures s.Readable(|s.bytes|, recover) && s.NextAt(|s.bytes|, recover) == AtEnd && s.CountAt(|s.bytes|, recover) == 0
    ensures s.Skippable(|s.bytes|) && s.BehindMetas(|s.bytes|) == |s.bytes|
    ensures s.Recoverable(|s.bytes|) && s.Corruptions(|s.bytes|) == 0
  {
  }

  /** A preamble with more to come than is left is skipped. */
  lemma {:induction false} CutOffEnd(s: InputStream, at: nat, recover: bool)
    requires at < |s.bytes| < at + s.SizeAt(at) && s.MagicAt(at) == P.MAGIC
    ensures s.Spent(at, recover)
  {
    hide s.SizeAt, s.MagicAt;
  }

  /** Cut off behind its size, a packet is skipped; what the memory behind the file holds does not matter. */
  lemma {:induction false} LongTail(s: InputStream, p: Packet, n: nat, recover: bool)
    requires GoodPacket(p) && 8 <= n < |PacketBytes(p)| && n <= |s.bytes|
    requires s.bytes[|s.bytes| - n..] == PacketBytes(p)[..n]
    ensures s.Spent(|s.bytes| - n, recover)
  {
    hide PacketBytes, s.PreambleAt, P.Size, Word32, GoodTail, s.Spent;
    var (tail, at) := (PacketBytes(p)[..n], |s.bytes| - n);
    CutPacket(p, n);
    SeesTail(s, tail);
    assert |tail| == n;
    WordAlike(s.PreambleAt(at), tail, 0);
    WordAlike(s.PreambleAt(at), tail, 4);
    CutOffEnd(s, at, recover);
  }

  lemma WordAlike(a: seq<byte>, b: seq<byte>, at: nat)
    requires at + 4 <= |a| && at + 4 <= |b| && forall i: nat :: at <= i < at + 4 ==> a[i] == b[i]
    ensures Word32(a, at) == Word32(b, at)
  {
  }

  lemma {:induction false} SeesTail(s: InputStream, tail: seq<byte>)
    requires |tail| <= |s.bytes| && s.bytes[|s.bytes| - |tail|..] == tail
    ensures forall i: nat :: i < P.PREAMBLE_BYTES ==>
              s.PreambleAt(|s.bytes| - |tail|)[i]
              == if i < |tail| then tail[i] else s.beyond(|s.bytes| - |tail| + i)
  {
    var at := |s.bytes| - |tail|;
    forall i: nat | i < P.PREAMBLE_BYTES
      ensures s.PreambleAt(at)[i] == if i < |tail| then tail[i] else s.beyond(at + i)
    {
      assert i < |tail| ==> s.bytes[at + i] == tail[i];
    }
  }

  /**
    Cut off before the end of its size and with zeros behind the file, as a memory map has them: up
    to four bytes are no packet, and of more the bytes of the size decide.
  */
  lemma {:induction false} ShortTail(s: InputStream, p: Packet, n: nat)
    requires GoodPacket(p) && 0 < n < 8 && n <= |s.bytes| && s.bytes[|s.bytes| - n..] == PacketBytes(p)[..n]
    requires forall i :: s.beyond(i) == 0
    ensures
      var (at, tail) := (|s.bytes| - n, PacketBytes(p)[..n]);
      && (n <= 4 ==> !s.Plausible(at))
      && (n > 4 ==> s.MagicAt(at) == P.MAGIC && s.SizeAt(at) == Word32(tail + seq(8 - n, _ => 0), 4))
  {
    hide Body, PreBytes;
    var (at, tail) := (|s.bytes| - n, PacketBytes(p)[..n]);
    var read := s.PreambleAt(at);
    forall i: nat | i < 8
      ensures read[i] == (tail + seq(8 - n, _ => 0))[i]
    {
      assert i < n ==> s.bytes[at + i] == tail[i];
      assert i >= n ==> s.beyond(at + i) == 0;
    }
    if n > 4 {
      FirstWord(p, n);
      WordAlike(read, tail, 0);
      WordAlike(read, tail + seq(8 - n, _ => 0), 4);
    }
  }

  lemma FirstWord(p: Packet, n: nat)
    requires GoodPacket(p) && 4 <= n < |PacketBytes(p)|
    ensures Word32(PacketBytes(p)[..n], 0) == P.MAGIC
  {
    hide Body;
    var tail := PacketBytes(p)[..n];
    assert tail[0..4] == PreBytes(p.pre)[0..4] == Le32(p.pre.magic);
    Le32Inverse(tail, 0, p.pre.magic);
  }

  lemma FirstIsGood(ps: seq<Packet>)
    requires GoodPackets(ps) && ps != []
    ensures ps[0].pre.magic == P.MAGIC && P.Size(ps[0].pre.size) == |PacketBytes(ps[0])|
    ensures ps[0].Meta? <==> ps[0].pre.hash == META_HASH
    ensures ps[0].Meta? ==> |ps[0].name| < LIMIT32 && |ps[0].text| < LIMIT32
  {
    hide P.Size, PacketBytes;
    assert GoodPacket(ps[0]);
  }

  /** What may be left of a packet is never taken for metadata. */
  lemma {:induction false} TailIsNoMeta(s: InputStream, tail: seq<byte>)
    requires GoodTail(tail) && |tail| <= |s.bytes| && s.bytes[|s.bytes| - |tail|..] == tail
    ensures !s.MetaAt(|s.bytes| - |tail|)
  {
    hide s.PreambleAt, P.Size, Word32;
    var at := |s.bytes| - |tail|;
    if |tail| >= P.PREAMBLE_BYTES {
      SeesTail(s, tail);
      WordAlike(s.PreambleAt(at), tail, 0);
      WordAlike(s.PreambleAt(at), tail, 4);
    }
  }

  lemma GoodRest(ps: seq<Packet>)
    requires GoodPackets(ps) && ps != []
    ensures GoodPacket(ps[0]) && GoodPackets(ps[1..])
  {
  }

  lemma MetaIsWellFormed()
    ensures WellFormed(METADATA)
  {
    MetaFits(Meta(Pre(0, 0, META_HASH, META_HASH), META_HASH, [], []));
  }

  lemma PreambleWords(data: seq<byte>, at: nat, s: seq<byte>)
    requires at + P.PREAMBLE_BYTES <= |data| ==> s == data[at..][..P.PREAMBLE_BYTES]
    ensures at + P.PREAMBLE_BYTES <= |data| ==>
              && s == data[at..at + P.PREAMBLE_BYTES] && s[8..16] == data[at + 8..at + 16]
              && Word32(data, at) == Word32(s, 0) && Word32(data, at + 4) == Word32(s, 4)
  {
  }

  lemma FrontPacket(data: seq<byte>, ps: seq<Packet>, tail: seq<byte>)
    requires ps != [] && data == FileBytes(ps) + tail
    ensures |PacketBytes(ps[0])| <= |data| && data[..|PacketBytes(ps[0])|] == PacketBytes(ps[0])
    ensures data[..P.PREAMBLE_BYTES] == PreBytes(ps[0].pre)
    ensures data[|PacketBytes(ps[0])|..] == FileBytes(ps[1..]) + tail
  {
    hide PreBytes, Body;
    var pre, body, rest := PreBytes(ps[0].pre), Body(ps[0]), FileBytes(ps[1..]) + tail;
    assert data == pre + body + rest == pre + (body + rest);
    SplitFront(data, pre + body, rest);
    SplitFront(data, pre, body + rest);
  }

  lemma SplitFront(data: seq<byte>, head: seq<byte>, rest: seq<byte>)
    requires data == head + rest
    ensures |head| <= |data| && data[..|head|] == head && data[|head|..] == rest
  {
  }

  lemma NoPackets(tail: seq<byte>)
    ensures FileBytes([]) + tail == tail
  {
  }

  lemma SliceAt(data: seq<byte>, at: nat, n: nat)
    requires at + n <= |data|
    ensures data[at..][..n] == data[at..at + n] && data[at..][n..] == data[at + n..]
  {
  }

  lemma ReadPreamble(s: seq<byte>, pre: PreambleValue)
    requires s == PreBytes(pre)
    ensures Word32(s, 0) == pre.magic && Word32(s, 4) == pre.size && s[8..16] == pre.hash && s[16..24] == pre.time
  {
    assert s[0..4] == Le32(pre.magic) && s[4..8] == Le32(pre.size);
    Le32Inverse(s, 0, pre.magic);
    Le32Inverse(s, 4, pre.size);
  }

  lemma MetaMembers(v: Value)
    requires FitsStruct(METADATA, v)
    ensures v.Object? && |v.members| == 3 && v.members[0].Raw? && |v.members[0].bytes| == 8
    ensures v.members[1].Chars? && v.members[2].Chars? && v.pre.Some?
    ensures |v.members[1].chars| < LIMIT32 && |v.members[2].chars| < LIMIT32
    ensures v.members == [Raw(v.members[0].bytes), Chars(v.members[1].chars), Chars(v.members[2].chars)]
  {
    var fs, ms := METADATA.fields, v.members;
    assert FitsFields(fs[1..], ms[1..]) && FitsFields(fs[1..][1..], ms[1..][1..]);
    assert FitsField(fs[0], ms[0]) && FitsField(fs[1], ms[1]) && FitsField(fs[2], ms[2]);
    assert FitsItem(Number(U64), ms[0]) && FitsItem(Text, ms[1]) && FitsItem(Text, ms[2]);
    assert fs[1..][1..][1..] == [];
  }

  // ----- the body of a metadata packet

  lemma MetaMembersFit(p: Packet)
    requires p.Meta? && |p.name| < LIMIT32 && |p.text| < LIMIT32
    ensures
      var ms := MetaValue(p).members;
      && FitsFields(METADATA.fields, ms) && InitFields(METADATA.fields, ms)
      && StampAll(ms) == ms && SizesAllowedAll(ms) && WireAll(ms) == Body(p)
  {
    var q := Meta(Pre(0, 0, META_HASH, META_HASH), p.msgHash, p.name, p.text);
    MetaFits(q);
    MembersWire(p.msgHash, p.name, p.text);
  }

  lemma MembersWire(msgHash: seq<byte>, name: seq<byte>, text: seq<byte>)
    ensures
      var ms := [Raw(msgHash), Chars(name), Chars(text)];
      && StampAll(ms) == ms && SizesAllowedAll(ms)
      && WireAll(ms) == msgHash + Le32(|name|) + name + Le32(|text|) + text
  {
    hide Le32;
    var ms := [Raw(msgHash), Chars(name), Chars(text)];
    var last := [ms[2]];
    var rest := [ms[1]] + last;
    assert ms == [ms[0]] + rest && ms[1..] == rest && rest[1..] == last && last[1..] == [];
    assert StampAll(last[1..]) == [] && StampAll(last) == last && StampAll(rest) == rest && StampAll(ms) == ms;
    assert SizesAllowedAll(last[1..]) && SizesAllowedAll(last) && SizesAllowedAll(rest);
    assert WireAll(last) == Le32(|text|) + text + [] && WireAll(rest) == Le32(|name|) + name + WireAll(last);
  }

  /** The strings of a metadata packet's body, where their lengths say. */
  lemma BodyParts(data: seq<byte>, at: nat, next: nat, msgHash: seq<byte>, name: seq<byte>, text: seq<byte>)
    requires at <= next <= |data| && |msgHash| == 8 && |name| < LIMIT32 && |text| < LIMIT32
    requires data[at..next] == msgHash + Le32(|name|) + name + Le32(|text|) + text
    ensures at + 12 <= |data| && data[at..at + 8] == msgHash && Word32(data, at + 8) == |name|
    ensures
      var t := at + 12 + |name|;
      && t + 4 + |text| == next && data[at + 12..t] == name
      && Word32(data, t) == |text| && data[t + 4..t + 4 + |text|] == text
  {
    hide Word32, Le32;
    var t := at + 12 + |name|;
    FivePieces(data, at, next, msgHash, Le32(|name|), name, Le32(|text|), text);
    Le32Inverse(data, at + 8, |name|);
    Le32Inverse(data, t, |text|);
  }

  lemma FivePieces(data: seq<byte>, at: nat, next: nat,
                   a: seq<byte>, b: seq<byte>, c: seq<byte>, d: seq<byte>, e: seq<byte>)
    requires at <= next <= |data| && data[at..next] == a + b + c + d + e
    ensures
      var (i, j, k, l) := (at + |a|, at + |a| + |b|, at + |a| + |b| + |c|, at + |a| + |b| + |c| + |d|);
      && l + |e| == next && data[at..i] == a && data[i..j] == b && data[j..k] == c
      && data[k..l] == d && data[l..next] == e
  {
    TwoPieces(data, at, next, a + b + c + d, e);
    TwoPieces(data, at, next - |e|, a + b + c, d);
    TwoPieces(data, at, next - |e| - |d|, a + b, c);
    TwoPieces(data, at, next - |e| - |d| - |c|, a, b);
  }

  lemma TwoPieces(data: seq<byte>, at: nat, next: nat, a: seq<byte>, b: seq<byte>)
    requires at <= next <= |data| && data[at..next] == a + b
    ensures at + |a| + |b| == next && data[at..at + |a|] == a && data[at + |a|..next] == b
  {
    assert data[at..at + |a|] == data[at..next][..|a|];
    assert data[at + |a|..next] == data[at..next][|a|..];
  }

  /** Conversely, bytes read by these lengths are such a body. */
  lemma BodyThere(data: seq<byte>, at: nat, p: Packet)
    requires p.Meta? && |p.name| < LIMIT32 && |p.text| < LIMIT32
    requires
      var t := at + 12 + |p.name|;
      && t + 4 + |p.text| <= |data|
      && data[at..at + 8] == p.msgHash && Word32(data, at + 8) == |p.name| && data[at + 12..t] == p.name
      && Word32(data, t) == |p.text| && data[t + 4..t + 4 + |p.text|] == p.text
    ensures StartsWith(data, at, Body(p))
  {
    hide Word32, Le32;
    var t := at + 12 + |p.name|;
    Le32Inverse(data, at + 8, |p.name|);
    Le32Inverse(data, t, |p.text|);
    assert data[at..t + 4 + |p.text|]
        == data[at..at + 8] + data[at + 8..at + 12] + data[at + 12..t] + data[t..t + 4] + data[t + 4..t + 4 + |p.text|];
  }
}
