/** Merging complete log files into one, by time, keeping the types and times asked for. */
module LogMerge {
  import opened Bytes
  import opened Interleaving
  import opened LogFormat
  import LogLaws
  import opened LogStream
  import P = Preamble

  /** What to keep: the name filter, as a predicate on type names, and a range of times. */
  datatype Filter = Filter(wanted: seq<byte> -> bool, early: real, late: real)

  type Clock = Image8 -> real

  function TimeOf(clock: Clock, p: Packet): real {
    clock(p.pre.time)
  }

  function PacketTime(clock: Clock): Packet -> real {
    (p: Packet) => TimeOf(clock, p)
  }

  datatype Result = Merged | Refused | MissingMetadata

  /** The type a packet is of, or describes. */
  function TypeHash(p: Packet): Image8 {
    if p.Meta? then p.msgHash else p.pre.hash
  }

  predicate Wanted(f: Filter, clock: Clock, types: Image8 -> TypeInfo, p: Packet) {
    f.wanted(types(TypeHash(p)).name) && (p.Data? ==> f.early <= TimeOf(clock, p) <= f.late)
  }

  function Kept(f: Filter, clock: Clock, types: Image8 -> TypeInfo, log: seq<Taken<Packet>>): seq<Packet> {
    if log == [] then []
    else
      var p := log[|log| - 1].item;
      Kept(f, clock, types, log[..|log| - 1]) + if Wanted(f, clock, types, p) then [p] else []
  }

  /** The places of the packets that are kept. */
  function Places(f: Filter, clock: Clock, types: Image8 -> TypeInfo, log: seq<Taken<Packet>>): (ks: seq<nat>)
    ensures forall i :: 0 <= i < |ks| ==> ks[i] < |log|
    ensures forall i, j :: 0 <= i < j < |ks| ==> ks[i] < ks[j]
  {
    if log == [] then []
    else
      var n := |log| - 1;
      Places(f, clock, types, log[..n]) + if Wanted(f, clock, types, log[n].item) then [n] else []
  }

  /**
    Kept are, in their order, the metadata of types whose name is wanted, and those packets of such
    types whose time is in the range.
  */
  lemma {:induction false} KeptExactly(f: Filter, clock: Clock, types: Image8 -> TypeInfo, log: seq<Taken<Packet>>)
    ensures
      var ks := Places(f, clock, types, log);
      && |Kept(f, clock, types, log)| == |ks|
      && (forall i :: 0 <= i < |ks| ==> Kept(f, clock, types, log)[i] == log[ks[i]].item)
      && forall k :: 0 <= k < |log| ==>
           (k in ks <==>
              match log[k].item
              case Meta(_, hash, _, _) => f.wanted(types(hash).name)
              case Data(pre, _) => f.wanted(types(pre.hash).name) && clock(pre.time) >= f.early && clock(pre.time) <= f.late)
  {
    if log != [] {
      KeptExactly(f, clock, types, log[..|log| - 1]);
    }
  }

  /** All metadata in the file is that of the types. */
  predicate Agrees(ps: seq<Packet>, types: Image8 -> TypeInfo) {
    forall i :: 0 <= i < |ps| && ps[i].Meta? ==> TypeInfo(ps[i].name, ps[i].text) == types(ps[i].msgHash)
  }

  /** The schema kept for a type; the C++ map makes an empty one up. */
  function TextFor(texts: map<Image8, seq<byte>>, hash: Image8): seq<byte> {
    if hash in texts then texts[hash] else []
  }

  /** A metadata packet that describes a known type in another way. */
  predicate Contradicts(names: map<Image8, seq<byte>>, texts: map<Image8, seq<byte>>, p: Packet) {
    p.Meta? && p.msgHash in names && TextFor(texts, p.msgHash) != p.text
  }

  /** The packet is not metadata, or says of its type what is the case. */
  predicate Truthful(p: Packet, types: Image8 -> TypeInfo) {
    p.Meta? ==> TypeInfo(p.name, p.text) == types(p.msgHash)
  }

  /** What is known of types is true. */
  ghost predicate Same(names: map<Image8, seq<byte>>, texts: map<Image8, seq<byte>>, types: Image8 -> TypeInfo) {
    forall h :: h in names ==> h in texts && TypeInfo(names[h], texts[h]) == types(h)
  }

  /** Truthful metadata never contradicts what is known, and leaves it true. */
  lemma LearnKeeps(p: Packet, names: map<Image8, seq<byte>>, texts: map<Image8, seq<byte>>, types: Image8 -> TypeInfo)
    requires Same(names, texts, types) && Truthful(p, types)
    ensures !Contradicts(names, texts, p)
    ensures p.Meta? && p.msgHash !in names ==> Same(names[p.msgHash := p.name], texts[p.msgHash := p.text], types)
  {
  }

  class OutputStream {
    var file: seq<byte>
    var dictionary: map<Image8, seq<byte>>
    var metadictionary: map<Image8, seq<byte>>
    const clock: Clock
    const filter: Filter
    ghost var written: seq<Packet>

    constructor (time: Clock, keep: Filter)
      ensures clock == time && filter == keep && file == [] && written == []
      ensures dictionary == map[] && metadictionary == map[]
    {
      file, dictionary, metadictionary, written := [], map[], map[], [];
      clock, filter := time, keep;
    }

    /** The types known are the given ones, and the file describes those of them it keeps. */
    ghost predicate Knows(types: Image8 -> TypeInfo)
      reads this
    {
      && file == FileBytes(written) && Describes(written, dictionary.Keys, types, filter.wanted)
      && Same(dictionary, metadictionary, types)
    }

    /** Copies the next packet of an input, or skips it; what contradicts or lacks metadata ends the merge. */
    method MergePacket(s: InputStream, ghost ps: seq<Packet>, ghost types: Image8 -> TypeInfo) returns (r: Result)
      requires s.Holds(ps, []) && ps != [] && Knows(types)
      modifies this, s`pos, s`rem
      ensures r == if Contradicts(old(dictionary), old(metadictionary), ps[0]) then Refused
                   else if ps[0].Data? && ps[0].pre.hash !in old(dictionary) then MissingMetadata else Merged
      ensures r != Merged ==>
                && s.pos == old(s.pos) && file == old(file) && written == old(written)
                && dictionary == old(dictionary) && metadictionary == old(metadictionary)
      ensures r == Merged ==>
                && s.Holds(ps[1..], []) && dictionary.Keys == old(dictionary).Keys + {TypeHash(ps[0])}
      ensures r == Merged && Truthful(ps[0], types) ==>
                && Knows(types)
                && written == old(written) + (if Wanted(filter, clock, types, ps[0]) then [ps[0]] else [])
    {
      hide FileBytes, PacketBytes, Describes, s.PreambleAt, Contradicts, P.Size, Word32, Learned, GoodPackets;
      s.PreambleOf(s.pos, ps, []);
      s.BehindPacket(s.pos, ps, []);
      GoodRest(ps);
      if Truthful(ps[0], types) {
        LearnKeeps(ps[0], dictionary, metadictionary, types);
      }
      var size := s.SizeAt(s.pos);
      var ok, hash, isMeta := LearnType(s, ps);
      if !ok {
        return Refused;
      }
      if hash !in dictionary {
        return MissingMetadata;
      }
      var time := clock(s.TimeAt(s.pos));
      var keep := filter.wanted(dictionary[hash]) && (isMeta || !(time < filter.early || time > filter.late));
      assert dictionary.Keys == old(dictionary).Keys + {hash};
      assert written + [] == written;
      if Truthful(ps[0], types) {
        Describing(written, old(dictionary).Keys, types, filter.wanted, ps[0], keep);
      }
      if keep {
        OnePacket(written, ps[0]);
        file := file + s.bytes[s.pos..s.pos + size];
        written := written + [ps[0]];
      }
      s.Advance(size);
      r := Merged;
    }

    /** The type of the next packet; metadata is learned, unless it contradicts what is known. */
    method LearnType(s: InputStream, ghost ps: seq<Packet>) returns (ok: bool, hash: Image8, isMeta: bool)
      requires s.Holds(ps, []) && ps != []
      modifies this`dictionary, this`metadictionary
      ensures ok == !Contradicts(old(dictionary), old(metadictionary), ps[0])
      ensures hash == TypeHash(ps[0]) && isMeta == ps[0].Meta?
      ensures if ps[0].Meta? && hash !in old(dictionary) then
                && dictionary == old(dictionary)[hash := ps[0].name]
                && metadictionary == old(metadictionary)[hash := ps[0].text]
              else dictionary == old(dictionary) && metadictionary == old(metadictionary)
      ensures !ok ==> dictionary == old(dictionary) && metadictionary == old(metadictionary)
    {
      hide FileBytes, PacketBytes, s.PreambleAt, s.MetaAt, s.MetaOf;
      s.PreambleOf(s.pos, ps, []);
      s.MetaIs(s.pos, ps, []);
      assert GoodPacket(ps[0]);
      ok, hash, isMeta := true, s.HashAt(s.pos), false;
      if hash == META_HASH {
        var decoded, msgHash, info := s.DecodeMetadata();
        if !decoded {
          return false, hash, true;
        }
        hash, isMeta := msgHash, true;
        if hash !in dictionary {
          dictionary, metadictionary := dictionary[hash := info.name], metadictionary[hash := info.text];
        } else if TextFor(metadictionary, hash) != info.text {
          return false, hash, true;
        }
      }
    }
  }

  /** The file is self-contained, and describes every one of the types that it keeps. */
  ghost predicate Describes(ps: seq<Packet>, hashes: set<Image8>, types: Image8 -> TypeInfo, wanted: seq<byte> -> bool) {
    && GoodPackets(ps) && SelfContained(ps, types)
    && forall h :: h in hashes && wanted(types(h).name) ==>
         h in Learned(map[], ps) && Learned(map[], ps)[h] == types(h)
  }

  lemma Describing(ps: seq<Packet>, hashes: set<Image8>, types: Image8 -> TypeInfo, wanted: seq<byte> -> bool,
                   p: Packet, keep: bool)
    requires Describes(ps, hashes, types, wanted) && GoodPacket(p)
    requires p.Meta? ==> TypeInfo(p.name, p.text) == types(p.msgHash) && keep == wanted(types(p.msgHash).name)
    requires p.Data? ==> p.pre.hash in hashes && (keep ==> wanted(types(p.pre.hash).name))
    ensures Describes(ps + if keep then [p] else [], hashes + {TypeHash(p)}, types, wanted)
  {
    hide Learned, SelfContained, GoodPacket;
    if keep {
      LogLaws.SelfContainedAppend(ps, p, types);
      LogLaws.LearnedOne(map[], ps, p);
    } else {
      assert ps + [] == ps;
    }
  }

  // ----- the loop

  /** Each stream is behind what was taken from it. */
  ghost predicate PartWay(streams: seq<InputStream>, files: seq<seq<Packet>>, rests: seq<seq<Packet>>, log: seq<Taken<Packet>>)
    reads streams
  {
    && |streams| == |files| && Progress(files, rests, log)
    && (forall k :: 0 <= k < |streams| ==> streams[k].Holds(rests[k], []))
  }

  /** Every type that the packets taken describe is known. */
  ghost predicate AllKnown(hashes: set<Image8>, n: nat, log: seq<Taken<Packet>>) {
    forall k, h :: 0 <= k < n && h in Learned(map[], From(log, k)) ==> h in hashes
  }

  method FindEarliest(streams: seq<InputStream>, clock: Clock, ghost rests: seq<seq<Packet>>) returns (next: int)
    requires |streams| == |rests| && forall k :: 0 <= k < |streams| ==> streams[k].Holds(rests[k], [])
    requires forall k, i :: 0 <= k < |rests| && 0 <= i < |rests[k]| ==> TimeOf(clock, rests[k][i]) >= 0.0
    ensures next == -1 || 0 <= next < |streams|
    ensures next == -1 ==> forall k :: 0 <= k < |rests| ==> rests[k] == []
    ensures next != -1 ==>
              && rests[next] != []
              && forall k :: 0 <= k < |rests| && rests[k] != [] ==>
                   TimeOf(clock, rests[next][0]) <= TimeOf(clock, rests[k][0])
  {
    hide InputStream.HoldsAt, InputStream.PreambleAt, InputStream.TimeAt;
    next := -1;
    var early := -1.0;
    var k := 0;
    while k < |streams|
      invariant k <= |streams| && (next == -1 || 0 <= next < k)
      invariant if next == -1 then early == -1.0 else rests[next] != [] && early == TimeOf(clock, rests[next][0])
      invariant next == -1 ==> forall j :: 0 <= j < k ==> rests[j] == []
      invariant next != -1 ==> forall j :: 0 <= j < k && rests[j] != [] ==> early <= TimeOf(clock, rests[j][0])
    {
      streams[k].PreambleOf(streams[k].pos, rests[k], []);
      if streams[k].rem > 0 {
        var time := clock(streams[k].TimeAt(streams[k].pos));
        if early < 0.0 || time < early {
          early, next := time, k;
        }
      }
      k := k + 1;
    }
  }

  /**
    Merging complete, self-contained files succeeds. The output is an interleaving of the inputs,
    taken earliest first, of which exactly the wanted packets are kept; it is self-contained too.
  */
  method Merge(streams: seq<InputStream>, out: OutputStream, ghost files: seq<seq<Packet>>,
               ghost types: Image8 -> TypeInfo)
    returns (r: Result, ghost log: seq<Taken<Packet>>)
    requires PartWay(streams, files, files, [])
    requires forall j, k :: 0 <= j < k < |streams| ==> streams[j] != streams[k]
    requires forall k :: 0 <= k < |files| ==> Agrees(files[k], types) && SelfContained(files[k], types)
    requires forall k, i :: 0 <= k < |files| && 0 <= i < |files[k]| ==> TimeOf(out.clock, files[k][i]) >= 0.0
    requires out.file == [] && out.written == [] && out.dictionary == map[]
    modifies out, streams
    ensures r == Merged && LeastFirst(PacketTime(out.clock), files, log)
    ensures forall k :: 0 <= k < |files| ==> From(log, k) == files[k]
    ensures out.written == Kept(out.filter, out.clock, types, log)
    ensures out.file == FileBytes(out.written) && GoodPackets(out.written) && SelfContained(out.written, types)
  {
    hide PartWay, LeastFirst, AllKnown, Kept, OutputStream.Knows, Agrees, SelfContained, FileBytes, GoodPackets;
    log := [];
    ghost var rests := files;
    var done := false;
    r := Merged;
    StartMerge(out, files, types);
    while !done
      invariant PartWay(streams, files, rests, log) && out.Knows(types) && r == Merged
      invariant AllKnown(out.dictionary.Keys, |files|, log) && LeastFirst(PacketTime(out.clock), files, log)
      invariant out.written == Kept(out.filter, out.clock, types, log)
      invariant done ==> forall k :: 0 <= k < |files| ==> From(log, k) == files[k]
      decreases !done, Total(rests)
    {
      done, r, rests, log := MergeOne(streams, out, files, rests, log, types);
    }
    EndMerge(out, types);
  }

  /** One round of that loop. */
  method MergeOne(streams: seq<InputStream>, out: OutputStream, ghost files: seq<seq<Packet>>,
                  ghost rests: seq<seq<Packet>>, ghost log: seq<Taken<Packet>>, ghost types: Image8 -> TypeInfo)
    returns (done: bool, r: Result, ghost rests': seq<seq<Packet>>, ghost log': seq<Taken<Packet>>)
    requires PartWay(streams, files, rests, log)
    requires forall j, k :: 0 <= j < k < |streams| ==> streams[j] != streams[k]
    requires forall k :: 0 <= k < |files| ==> Agrees(files[k], types) && SelfContained(files[k], types)
    requires forall k, i :: 0 <= k < |files| && 0 <= i < |files[k]| ==> TimeOf(out.clock, files[k][i]) >= 0.0
    requires out.Knows(types) && AllKnown(out.dictionary.Keys, |files|, log) && LeastFirst(PacketTime(out.clock), files, log)
    requires out.written == Kept(out.filter, out.clock, types, log)
    modifies out, streams
    ensures r == Merged && PartWay(streams, files, rests', log')
    ensures out.Knows(types) && AllKnown(out.dictionary.Keys, |files|, log') && LeastFirst(PacketTime(out.clock), files, log')
    ensures out.written == Kept(out.filter, out.clock, types, log')
    ensures if done then forall k :: 0 <= k < |files| ==> From(log', k) == files[k]
            else Total(rests') < Total(rests)
  {
    hide AllKnown, LeastFirst, Kept, OutputStream.Knows, Agrees, SelfContained, Wanted, FileBytes, InputStream.Holds;
    RestTimes(out.clock, files, rests, log);
    var next := FindEarliest(streams, out.clock, rests);
    rests', log', r := rests, log, Merged;
    if next == -1 {
      return true, r, rests', log';
    }
    ghost var p := rests[next][0];
    HeadKnown(files[next], From(log, next), rests[next], types);
    NoContradiction(out, p, types);
    KnownType(out.dictionary.Keys, |files|, log, next);
    r := out.MergePacket(streams[next], rests[next], types);
    done, log', rests' := false, log + [Taken(next, p)], rests[next := rests[next][1..]];
    TotalDecreases(rests, rests', next);
    KeptNext(out.filter, out.clock, types, log, next, p);
    KnownNext(old(out.dictionary).Keys, |files|, log, next, p);
    TakeNext(PacketTime(out.clock), files, rests, log, next);
  }

  lemma {:induction false} NoContradiction(out: OutputStream, p: Packet, types: Image8 -> TypeInfo)
    requires out.Knows(types) && Truthful(p, types)
    ensures !Contradicts(out.dictionary, out.metadictionary, p)
  {
    hide Describes;
    LearnKeeps(p, out.dictionary, out.metadictionary, types);
  }

  lemma RestTimes(clock: Clock, files: seq<seq<Packet>>, rests: seq<seq<Packet>>, log: seq<Taken<Packet>>)
    requires |files| == |rests| && forall k :: 0 <= k < |files| ==> files[k] == From(log, k) + rests[k]
    requires forall k, i :: 0 <= k < |files| && 0 <= i < |files[k]| ==> TimeOf(clock, files[k][i]) >= 0.0
    ensures forall k, i :: 0 <= k < |rests| && 0 <= i < |rests[k]| ==> TimeOf(clock, rests[k][i]) >= 0.0
  {
    hide From, TimeOf;
    forall k, i | 0 <= k < |rests| && 0 <= i < |rests[k]|
      ensures TimeOf(clock, rests[k][i]) >= 0.0
    {
      assert rests[k][i] == files[k][|From(log, k)| + i];
    }
  }

  /** In a self-contained file, the types of the packets are described before them. */
  lemma HeadKnown(file: seq<Packet>, done: seq<Packet>, rest: seq<Packet>, types: Image8 -> TypeInfo)
    requires file == done + rest && rest != [] && SelfContained(file, types) && Agrees(file, types)
    ensures rest[0].Data? ==> rest[0].pre.hash in Learned(map[], done)
    ensures rest[0].Meta? ==> TypeInfo(rest[0].name, rest[0].text) == types(rest[0].msgHash)
  {
    assert file[|done|] == rest[0] && file[..|done|] == done;
  }

  lemma KnownType(hashes: set<Image8>, n: nat, log: seq<Taken<Packet>>, k: nat)
    requires AllKnown(hashes, n, log) && k < n
    ensures forall h :: h in Learned(map[], From(log, k)) ==> h in hashes
  {
  }

  lemma KeptNext(f: Filter, clock: Clock, types: Image8 -> TypeInfo, log: seq<Taken<Packet>>, source: nat, p: Packet)
    ensures Kept(f, clock, types, log + [Taken(source, p)])
         == Kept(f, clock, types, log) + if Wanted(f, clock, types, p) then [p] else []
  {
    assert (log + [Taken(source, p)])[..|log|] == log;
  }

  lemma KnownNext(hashes: set<Image8>, n: nat, log: seq<Taken<Packet>>, source: nat, p: Packet)
    requires AllKnown(hashes, n, log)
    ensures AllKnown(hashes + {TypeHash(p)}, n, log + [Taken(source, p)])
  {
    hide Learned, From;
    forall k, h | 0 <= k < n && h in Learned(map[], From(log + [Taken(source, p)], k))
      ensures h in hashes + {TypeHash(p)}
    {
      FromNext(log, k, p, source);
      LogLaws.LearnedOne(map[], From(log, k), p);
      assert From(log, k) + [] == From(log, k);
    }
  }

  lemma {:induction false} StartMerge(out: OutputStream, files: seq<seq<Packet>>, types: Image8 -> TypeInfo)
    requires out.file == [] && out.written == [] && out.dictionary == map[]
    ensures out.Knows(types) && AllKnown(out.dictionary.Keys, |files|, []) && LeastFirst(PacketTime(out.clock), files, [])
    ensures out.written == Kept(out.filter, out.clock, types, [])
  {
  }

  lemma {:induction false} EndMerge(out: OutputStream, types: Image8 -> TypeInfo)
    requires out.Knows(types)
    ensures out.file == FileBytes(out.written) && GoodPackets(out.written) && SelfContained(out.written, types)
  {
  }
}
