/**
  What reading comes to in files of intact packets, complete, cut off, or with corrupted bytes
  between packets.
*/
module LogTrace {
  import opened Bytes
  import opened LogFormat
  import opened LogStream
  import P = Preamble

  function InfoOf(d: map<Image8, TypeInfo>, p: Packet): TypeInfo {
    if p.pre.hash in d then d[p.pre.hash] else UNTOLD
  }

  /** The data packets as they are delivered, from a position in the file. */
  function Entries(at: nat, d: map<Image8, TypeInfo>, ps: seq<Packet>): seq<Entry>
    decreases ps
  {
    if ps == [] then []
    else
      var p := ps[0];
      if p.Meta? then Entries(at + |PacketBytes(p)|, d[p.msgHash := TypeInfo(p.name, p.text)], ps[1..])
      else [Entry(at, p.pre.time, InfoOf(d, p), PacketBytes(p))] + Entries(at + |PacketBytes(p)|, d, ps[1..])
  }

  /** The file does not end in several metadata packets. */
  predicate Ends(ps: seq<Packet>, tail: seq<byte>) {
    tail == [] && |ps| >= 2 ==> ps[|ps| - 1].Data? || ps[|ps| - 2].Data?
  }

  // ----- one step

  /** Reading from one position comes to the given packets, and then to what it comes to from another. */
  ghost predicate Leads(s: InputStream, at: nat, d: map<Image8, TypeInfo>, es: seq<Entry>, to: nat,
                        known: map<Image8, TypeInfo>, recover: bool) {
    && s.Readable(at, recover) && s.Readable(to, recover)
    && s.Trace(at, d, recover) == es + s.Trace(to, known, recover)
  }

  /** Behind them it ends in the same way. */
  ghost predicate EndsAlike(s: InputStream, at: nat, to: nat, recover: bool) {
    && s.Readable(at, recover) && s.Readable(to, recover)
    && s.Finally(at, recover) == s.Finally(to, recover) && s.TotalCount(at, recover) == s.TotalCount(to, recover)
  }

  ghost predicate StopsAt(s: InputStream, at: nat, recover: bool) {
    s.Readable(at, recover) && s.Finally(at, recover) == Stopped
  }

  /** One metadata packet and nothing else. */
  predicate OneMetaLeft(s: InputStream, at: nat) {
    s.MetaAt(at) && at + s.SizeAt(at) == |s.bytes|
  }

  /** Behind one metadata packet reading comes to the same, except that one more at the end is not passed over. */
  lemma {:induction false} MetaNext(s: InputStream, at: nat, next: nat, d: map<Image8, TypeInfo>, recover: bool)
    requires at < next <= |s.bytes| && s.MetaAt(at) && next == at + s.SizeAt(at) && s.Reachable(next, recover)
    ensures s.Reachable(at, recover) && s.KnownAt(at, d, recover) == s.KnownAt(next, s.Learn(at, d), recover)
    ensures
      if !recover && !s.Plausible(|s.bytes|) && OneMetaLeft(s, next) then
        s.NextAt(at, recover) == Stopped && s.NextAt(next, recover) == AtEnd
      else
        s.NextAt(at, recover) == s.NextAt(next, recover) && s.CountAt(at, recover) == s.CountAt(next, recover)
  {
    hide s.SizeAt, s.MagicAt, s.Learn, s.MetaAt, s.Plausible, s.Found;
    assert s.Skippable(at) && s.BehindMetas(at) == s.BehindMetas(next);
    NothingLeft(s, recover);
    if s.Emptied(next) {
      assert s.BehindMetas(next) == |s.bytes| by {
        if next != |s.bytes| {
          assert s.BehindMetas(next) == s.BehindMetas(next + s.SizeAt(next));
        }
      }
    }
  }

  lemma {:induction false} MetaStep(s: InputStream, at: nat, next: nat, d: map<Image8, TypeInfo>, recover: bool)
    requires at < next <= |s.bytes| && s.MetaAt(at) && next == at + s.SizeAt(at) && s.Readable(next, recover)
    ensures Leads(s, at, d, [], next, s.Learn(at, d), recover)
    ensures !recover && !s.Plausible(|s.bytes|) && OneMetaLeft(s, next) ==> StopsAt(s, at, recover)
    ensures recover || s.Plausible(|s.bytes|) || !OneMetaLeft(s, next) ==> EndsAlike(s, at, next, recover)
  {
    hide s.SizeAt, s.Learn, s.MetaAt, s.EntryAt, s.Plausible, s.NextAt, s.Reachable, s.KnownAt, s.CountAt, OneMetaLeft;
    MetaNext(s, at, next, d, recover);
    assert s.Trace(at, d, recover) == [] + s.Trace(next, s.Learn(at, d), recover);
  }

  /** A packet that stands at the position is what reading comes to. */
  lemma {:induction false} DataStep(s: InputStream, at: nat, next: nat, d: map<Image8, TypeInfo>, recover: bool)
    requires at < next <= |s.bytes| && !s.MetaAt(at) && s.Plausible(at) && next == at + s.SizeAt(at)
    requires s.Readable(next, recover)
    ensures Leads(s, at, d, [s.EntryAt(at, d)], next, d, recover) && EndsAlike(s, at, next, recover)
  {
    hide s.SizeAt, s.MagicAt, s.MetaAt, s.EntryAt, s.Found;
    assert s.Skippable(at) && s.BehindMetas(at) == at && s.LearnedBy(at, d) == d;
    assert s.Recoverable(at) && s.Resync(at) == at && s.LearnedOn(at, d) == d && s.Corruptions(at) == 0;
    assert s.NextAt(at, recover) == Item(at);
  }

  // ----- intact packets and what is behind them

  /** Reading comes to the data packets, and then to what the tail comes to. */
  lemma {:induction false} TraceOf(s: InputStream, at: nat, ps: seq<Packet>, tail: seq<byte>, z: nat,
                                   d: map<Image8, TypeInfo>, recover: bool)
    requires s.HoldsAt(at, ps, tail) && z == |s.bytes| - |tail| && !s.MetaAt(z) && s.Readable(z, recover)
    ensures Leads(s, at, d, Entries(at, d, ps), z, Learned(d, ps), recover)
    ensures recover || tail != [] || s.Plausible(|s.bytes|) || Ends(ps, tail) ==> EndsAlike(s, at, z, recover)
    ensures !(recover || tail != [] || s.Plausible(|s.bytes|) || Ends(ps, tail)) ==> StopsAt(s, at, recover)
    decreases ps
  {
    hide s.Readable, s.Trace, s.Plausible, s.MetaAt, PacketBytes, s.SizeAt, s.MagicAt, s.PreambleAt;
    hide s.TimeAt, s.HashAt, s.MetaOf, GoodPackets, EndsAlike, StopsAt, OneMetaLeft, Ends;
    s.PreambleOf(at, ps, tail);
    s.MetaIs(at, ps, tail);
    if ps == [] {
      assert Entries(at, d, ps) == [] && Learned(d, ps) == d;
      LeadsNowhere(s, at, d, recover);
      NoneEnds(tail);
    } else {
      s.BehindPacket(at, ps, tail);
      var next := at + |PacketBytes(ps[0])|;
      TailFits(s, next, ps[1..], tail);
      EndsNext(ps, tail);
      if ps[0].Meta? {
        TraceOf(s, next, ps[1..], tail, z, s.Learn(at, d), recover);
        MetaStep(s, at, next, d, recover);
        LastMeta(s, next, ps[1..], tail);
        assert [] + Entries(next, s.Learn(at, d), ps[1..]) == Entries(at, d, ps);
        LeadsOn(s, at, d, [], next, s.Learn(at, d), Entries(next, s.Learn(at, d), ps[1..]), z, Learned(d, ps), recover);
      } else {
        TraceOf(s, next, ps[1..], tail, z, d, recover);
        PacketPlausible(s, at, ps, tail);
        DataStep(s, at, next, d, recover);
        LeadsOn(s, at, d, [s.EntryAt(at, d)], next, d, Entries(next, d, ps[1..]), z, Learned(d, ps), recover);
      }
    }
  }

  lemma {:induction false} LeadsNowhere(s: InputStream, at: nat, d: map<Image8, TypeInfo>, recover: bool)
    requires s.Readable(at, recover)
    ensures Leads(s, at, d, [], at, d, recover) && EndsAlike(s, at, at, recover)
  {
    assert [] + s.Trace(at, d, recover) == s.Trace(at, d, recover);
  }

  lemma {:induction false} LeadsOn(s: InputStream, a: nat, d: map<Image8, TypeInfo>, es: seq<Entry>,
                                   b: nat, e: map<Image8, TypeInfo>, more: seq<Entry>,
                                   c: nat, f: map<Image8, TypeInfo>, recover: bool)
    requires Leads(s, a, d, es, b, e, recover) && Leads(s, b, e, more, c, f, recover)
    ensures Leads(s, a, d, es + more, c, f, recover)
    ensures EndsAlike(s, a, b, recover) && EndsAlike(s, b, c, recover) ==> EndsAlike(s, a, c, recover)
    ensures EndsAlike(s, a, b, recover) && StopsAt(s, b, recover) ==> StopsAt(s, a, recover)
  {
    hide s.Readable, s.Trace, s.Finally, s.TotalCount;
    assert es + (more + s.Trace(c, f, recover)) == es + more + s.Trace(c, f, recover);
  }

  lemma NoneEnds(tail: seq<byte>)
    ensures Ends([], tail)
  {
  }

  lemma {:induction false} TailFits(s: InputStream, at: nat, ps: seq<Packet>, tail: seq<byte>)
    requires s.HoldsAt(at, ps, tail)
    ensures |tail| <= |s.bytes| && at + |FileBytes(ps)| + |tail| == |s.bytes|
  {
    hide FileBytes;
    assert |s.bytes[at..]| == |s.bytes| - at;
  }

  lemma {:induction false} PacketPlausible(s: InputStream, at: nat, ps: seq<Packet>, tail: seq<byte>)
    requires s.HoldsAt(at, ps, tail) && ps != []
    ensures s.Plausible(at) && s.SizeAt(at) == |PacketBytes(ps[0])| >= P.PREAMBLE_BYTES && at + s.SizeAt(at) <= |s.bytes|
  {
    hide s.MagicAt, s.SizeAt, Body;
    s.PreambleOf(at, ps, tail);
  }

  /** Whether one metadata packet and nothing else is left. */
  lemma {:induction false} LastMeta(s: InputStream, at: nat, ps: seq<Packet>, tail: seq<byte>)
    requires s.HoldsAt(at, ps, tail) && (ps == [] ==> !s.MetaAt(at))
    ensures OneMetaLeft(s, at) <==> ps != [] && ps[0].Meta? && |ps| == 1 && tail == []
  {
    hide s.MetaAt, s.SizeAt, PacketBytes, s.PreambleAt, s.HashAt, s.MagicAt, s.TimeAt, s.MetaOf;
    s.MetaIs(at, ps, tail);
    s.PreambleOf(at, ps, tail);
    if ps != [] {
      s.BehindPacket(at, ps, tail);
      s.PreambleOf(at + |PacketBytes(ps[0])|, ps[1..], tail);
    }
  }

  lemma EndsNext(ps: seq<Packet>, tail: seq<byte>)
    requires ps != []
    ensures ps[0].Data? ==> Ends(ps, tail) == Ends(ps[1..], tail)
    ensures ps[0].Meta? ==>
              Ends(ps, tail) == (Ends(ps[1..], tail) && !(tail == [] && |ps| == 2 && ps[1].Meta?))
  {
  }

  // ----- a file that was cut off

  /**
    Of a file that was cut off anywhere, reading comes to the data packets before the cut, and then
    to what is left of one more packet; if that is eight bytes or more, to nothing, and it ends there.
  */
  lemma {:induction false} TraceOfCut(s: InputStream, ps: seq<Packet>, n: nat, recover: bool) returns (k: nat)
    requires GoodPackets(ps) && n <= |FileBytes(ps)| && s.bytes == FileBytes(ps)[..n]
    ensures k <= |ps| && |FileBytes(ps[..k])| <= n && (k < |ps| ==> n < |FileBytes(ps[..k + 1])|)
    ensures
      var z := |FileBytes(ps[..k])|;
      && Leads(s, 0, map[], Entries(0, map[], ps[..k]), z, Learned(map[], ps[..k]), recover)
      && (z < n ==> EndsAlike(s, 0, z, recover))
      && (n - z >= 8 || n == z ==> s.Trace(0, map[], recover) == Entries(0, map[], ps[..k]))
      && (n - z >= 8 ==> s.Finally(0, recover) == AtEnd && s.TotalCount(0, recover) == 0)
  {
    hide s.Readable, s.Trace, s.MetaAt, s.Finally, s.TotalCount, FileBytes, Entries, TailOf, GoodTail, s.Spent, GoodPackets;
    hide s.Plausible, s.SizeAt, s.CountAt, PacketBytes;
    k := CutAnywhere(ps, n);
    var (z, tail, d) := (|FileBytes(ps[..k])|, TailOf(ps, k, n), Learned(map[], ps[..k]));
    CutHolds(s, ps, k, n);
    TailIsNoMeta(s, tail);
    EndTrace(s, d, recover);
    if |tail| >= 8 {
      LongTail(s, ps[k], |tail|, recover);
      SpentTrace(s, z, d, recover);
    } else if tail != [] {
      ShortEnd(s, z, recover);
    }
    TraceOf(s, 0, ps[..k], tail, z, map[], recover);
    var es := Entries(0, map[], ps[..k]);
    assert es + [] == es;
  }

  lemma {:induction false} CutHolds(s: InputStream, ps: seq<Packet>, k: nat, n: nat)
    requires GoodPackets(ps) && n <= |FileBytes(ps)| && s.bytes == FileBytes(ps)[..n]
    requires k <= |ps| && |FileBytes(ps[..k])| <= n
    requires s.bytes == FileBytes(ps[..k]) + TailOf(ps, k, n)
    requires TailOf(ps, k, n) != [] ==> k < |ps| && |TailOf(ps, k, n)| < |PacketBytes(ps[k])|
    ensures s.HoldsAt(0, ps[..k], TailOf(ps, k, n)) && |TailOf(ps, k, n)| == n - |FileBytes(ps[..k])|
    ensures s.bytes[|FileBytes(ps[..k])|..] == TailOf(ps, k, n)
    ensures k < |ps| ==> n < |FileBytes(ps[..k + 1])| && GoodPacket(ps[k])
  {
    hide FileBytes, PacketBytes, GoodPacket;
    assert s.bytes[0..] == s.bytes;
    if k < |ps| {
      assert ps[..k + 1] == ps[..k] + [ps[k]];
      OnePacket(ps[..k], ps[k]);
    }
  }

  lemma {:induction false} SpentTrace(s: InputStream, at: nat, d: map<Image8, TypeInfo>, recover: bool)
    requires s.Spent(at, recover)
    ensures s.Readable(at, recover) && s.Trace(at, d, recover) == []
    ensures s.Finally(at, recover) == AtEnd && s.TotalCount(at, recover) == 0
  {
  }

  // ----- corrupted bytes

  /** Bytes in which nothing looks like a preamble are skipped, as one corruption. */
  lemma {:induction false} GapSkipped(s: InputStream, z: nat, y: nat, d: map<Image8, TypeInfo>)
    requires z < y && y + P.PREAMBLE_BYTES <= |s.bytes| && s.Plausible(y) && !s.MetaAt(z)
    requires forall i :: z <= i < y ==> !s.Plausible(i)
    requires s.Readable(y, true)
    ensures Leads(s, z, d, [], y, d, true)
    ensures s.Finally(z, true) == s.Finally(y, true) && s.TotalCount(z, true) == 1 + s.TotalCount(y, true)
  {
    hide s.SizeAt, s.MagicAt, s.MetaAt, s.EntryAt, s.Plausible, s.Learn;
    FoundIs(s, z, y);
    NothingLeft(s, true);
    assert s.Skippable(z) && s.BehindMetas(z) == z && s.LearnedBy(z, d) == d;
    assert s.Resync(z) == s.Resync(s.BehindMetas(y)) && s.Corruptions(z) == 1 + s.Corruptions(s.BehindMetas(y));
    assert s.LearnedOn(z, d) == s.LearnedOn(s.BehindMetas(y), s.LearnedBy(y, d));
    if s.Emptied(y) {
      assert s.BehindMetas(y) == |s.bytes|;
    }
    assert s.NextAt(z, true) == s.NextAt(y, true) && s.KnownAt(z, d, true) == s.KnownAt(y, d, true);
    assert s.CountAt(z, true) == 1 + s.CountAt(y, true);
    assert s.Trace(z, d, true) == [] + s.Trace(y, d, true);
  }

  lemma {:induction false} FoundIs(s: InputStream, z: nat, y: nat)
    requires z < y && y + P.PREAMBLE_BYTES <= |s.bytes| && s.Plausible(y)
    requires forall i :: z <= i < y ==> !s.Plausible(i)
    ensures s.Found(z) == y
    decreases y - z
  {
    hide s.Plausible;
    if z + 1 < y {
      FoundIs(s, z + 1, y);
    }
  }

  /** Packets, and corrupted bytes behind them. */
  datatype Segment = Segment(ps: seq<Packet>, junk: seq<byte>)

  /** A file with corrupted bytes between its packets. */
  function SegmentBytes(segs: seq<Segment>, last: seq<Packet>): seq<byte> {
    if segs == [] then FileBytes(last)
    else FileBytes(segs[0].ps) + (segs[0].junk + SegmentBytes(segs[1..], last))
  }

  /** All packets of such a file. */
  function PacketsOf(segs: seq<Segment>, last: seq<Packet>): seq<Packet> {
    if segs == [] then last else segs[0].ps + PacketsOf(segs[1..], last)
  }

  /** The first packets behind some corrupted bytes. */
  function FirstOf(segs: seq<Segment>, last: seq<Packet>): seq<Packet> {
    if segs == [] then last else segs[0].ps
  }

  /**
    Corrupted bytes are followed by packets, and at no offset in them, read together with what
    follows, there is a preamble with the magic number and a size, or metadata of no size.
  */
  ghost predicate Separated(s: InputStream, at: nat, segs: seq<Segment>, last: seq<Packet>)
    decreases segs
  {
    if segs == [] then GoodPackets(last)
    else
      var (z, y) := (at + |FileBytes(segs[0].ps)|, at + |FileBytes(segs[0].ps)| + |segs[0].junk|);
      && GoodPackets(segs[0].ps) && segs[0].junk != [] && FirstOf(segs[1..], last) != [] && !s.MetaAt(z)
      && (forall i :: z <= i < y ==> !s.Plausible(i))
      && Separated(s, y, segs[1..], last)
  }

  function SegmentEntries(at: nat, d: map<Image8, TypeInfo>, segs: seq<Segment>, last: seq<Packet>): seq<Entry>
    decreases segs
  {
    if segs == [] then Entries(at, d, last)
    else
      Entries(at, d, segs[0].ps)
      + SegmentEntries(at + |FileBytes(segs[0].ps)| + |segs[0].junk|, Learned(d, segs[0].ps), segs[1..], last)
  }

  /** With recovery, reading comes to the packets on both sides of corrupted bytes, one corruption each. */
  lemma {:induction false} TraceOfSegments(s: InputStream, at: nat, segs: seq<Segment>, last: seq<Packet>,
                                           d: map<Image8, TypeInfo>)
    requires at <= |s.bytes| && s.bytes[at..] == SegmentBytes(segs, last) && Separated(s, at, segs, last)
    ensures s.Readable(at, true) && s.Trace(at, d, true) == SegmentEntries(at, d, segs, last)
    ensures s.Finally(at, true) == AtEnd && s.TotalCount(at, true) == |segs|
    decreases segs
  {
    hide s.Readable, s.Trace, s.Finally, s.TotalCount, s.Plausible, s.MetaAt, FileBytes, Entries, GoodPackets;
    NothingLeft(s, true);
    EndTrace(s, Learned(d, last), true);
    if segs == [] {
      WholeFile(s, at, last);
      TraceOf(s, at, last, [], |s.bytes|, d, true);
      assert Entries(at, d, last) + [] == Entries(at, d, last);
    } else {
      var (ps, junk, rest) := (segs[0].ps, segs[0].junk, SegmentBytes(segs[1..], last));
      var z := at + |FileBytes(ps)|;
      TwoParts(s.bytes, at, FileBytes(ps), junk, rest);
      TraceOfSegments(s, z + |junk|, segs[1..], last, Learned(d, ps));
      FirstPacket(s, z + |junk|, segs[1..], last);
      GapSkipped(s, z, z + |junk|, Learned(d, ps));
      TraceOf(s, at, ps, junk + rest, z, d, true);
      assert [] + SegmentEntries(z + |junk|, Learned(d, ps), segs[1..], last)
          == SegmentEntries(z + |junk|, Learned(d, ps), segs[1..], last);
    }
  }

  lemma {:induction false} FirstPacket(s: InputStream, at: nat, segs: seq<Segment>, last: seq<Packet>)
    requires at <= |s.bytes| && s.bytes[at..] == SegmentBytes(segs, last) && Separated(s, at, segs, last)
    requires FirstOf(segs, last) != []
    ensures s.Plausible(at) && at + P.PREAMBLE_BYTES <= |s.bytes|
  {
    hide FileBytes, GoodPackets, s.Plausible, s.MetaAt, PacketBytes;
    var ps, tail := FirstOf(segs, last), if segs == [] then [] else segs[0].junk + SegmentBytes(segs[1..], last);
    assert FileBytes(last) + [] == FileBytes(last);
    PacketPlausible(s, at, ps, tail);
  }

  lemma {:induction false} WholeFile(s: InputStream, at: nat, ps: seq<Packet>)
    requires at <= |s.bytes| && s.bytes[at..] == FileBytes(ps) && GoodPackets(ps)
    ensures s.HoldsAt(at, ps, [])
  {
    assert FileBytes(ps) + [] == FileBytes(ps);
  }

  lemma {:induction false} EndTrace(s: InputStream, d: map<Image8, TypeInfo>, recover: bool)
    ensures s.Readable(|s.bytes|, recover) && !s.MetaAt(|s.bytes|) && s.Trace(|s.bytes|, d, recover) == []
    ensures s.Finally(|s.bytes|, recover) == AtEnd && s.TotalCount(|s.bytes|, recover) == 0
  {
    NothingLeft(s, recover);
  }

  lemma TwoParts(data: seq<byte>, at: nat, a: seq<byte>, b: seq<byte>, c: seq<byte>)
    requires at <= |data| && data[at..] == a + (b + c)
    ensures at + |a| + |b| <= |data| && data[at + |a| + |b|..] == c && data[at + |a|..] == b + c
  {
    assert data[at + |a|..] == data[at..][|a|..];
    assert data[at + |a| + |b|..] == data[at + |a|..][|b|..];
  }
}
