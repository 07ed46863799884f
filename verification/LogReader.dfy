/** Reading many log files at once, in the order of their packets' times. */
module LogReader {
  import opened Bytes
  import opened Interleaving
  import opened LogFormat
  import opened LogStream

  const VERY_LARGE_TIMESTAMP: real := 1000000000000000.0

  /** What a handler is given: the name and schema of the type as its file told them, and the bytes. */
  datatype Message = Message(source: nat, info: TypeInfo, bytes: seq<byte>)

  /** The time of a stream's next packet; a stream without one counts as very late. */
  function HeadTime(timeOf: Image8 -> real, entries: seq<Entry>): real {
    if entries == [] then VERY_LARGE_TIMESTAMP else timeOf(entries[0].time)
  }

  function Sum(ns: seq<nat>): nat {
    if ns == [] then 0 else ns[0] + Sum(ns[1..])
  }

  lemma {:induction false} SumWith(ns: seq<nat>, k: nat, n: nat)
    requires k < |ns|
    ensures Sum(ns[k := n]) + ns[k] == Sum(ns) + n
  {
    if k > 0 {
      SumWith(ns[1..], k - 1, n);
      assert ns[k := n][1..] == ns[1..][k - 1 := n];
    } else {
      assert ns[0 := n][1..] == ns[1..];
    }
  }

  class Reader {
    const timeOf: Image8 -> real
    const endTime: real
    const tryRecovery: bool
    const streams: seq<InputStream>
    var times: seq<real>
    var next: nat
    var finished: bool
    var corruptions: nat

    /** The streams are different objects, and reading them comes to no metadata of size 0. */
    ghost predicate Valid()
      reads this`times, streams
    {
      && |streams| == |times|
      && (forall j, k :: 0 <= j < k < |streams| ==> streams[j] != streams[k])
      && (forall k :: 0 <= k < |streams| ==> streams[k].Ready(tryRecovery))
    }

    constructor (open: seq<InputStream>, clock: Image8 -> real, latest: real, recover: bool)
      requires forall j, k :: 0 <= j < k < |open| ==> open[j] != open[k]
      requires forall k :: 0 <= k < |open| ==> open[k].Ready(recover)
      ensures Valid() && streams == open && timeOf == clock && endTime == latest && tryRecovery == recover
      ensures !finished && corruptions == 0
    {
      streams, timeOf, endTime, tryRecovery := open, clock, latest, recover;
      times := seq(|open|, _ => 0.0);
      next, finished, corruptions := 0, false, 0;
    }

    // For each stream: the packets still to come, what it comes to behind them, and the corruptions
    // still to be counted.

    ghost function Lefts(): (r: seq<seq<Entry>>)
      requires Valid()
      reads this`times, streams
      ensures |r| == |streams| && forall k :: 0 <= k < |streams| ==> r[k] == streams[k].Left(tryRecovery)
    {
      LeftsOf(|streams|)
    }

    ghost function LeftsOf(n: nat): (r: seq<seq<Entry>>)
      requires Valid() && n <= |streams|
      reads this`times, streams
      ensures |r| == n && forall k :: 0 <= k < n ==> r[k] == streams[k].Left(tryRecovery)
    {
      if n == 0 then [] else LeftsOf(n - 1) + [streams[n - 1].Left(tryRecovery)]
    }

    ghost function Endings(): (r: seq<Next>)
      requires Valid()
      reads this`times, streams
      ensures |r| == |streams| && forall k :: 0 <= k < |streams| ==> r[k] == streams[k].Ending(tryRecovery)
    {
      EndingsOf(|streams|)
    }

    ghost function EndingsOf(n: nat): (r: seq<Next>)
      requires Valid() && n <= |streams|
      reads this`times, streams
      ensures |r| == n && forall k :: 0 <= k < n ==> r[k] == streams[k].Ending(tryRecovery)
    {
      if n == 0 then [] else EndingsOf(n - 1) + [streams[n - 1].Ending(tryRecovery)]
    }

    ghost function Costs(): (r: seq<nat>)
      requires Valid()
      reads this`times, streams
      ensures |r| == |streams| && forall k :: 0 <= k < |streams| ==> r[k] == streams[k].Cost(tryRecovery)
    {
      CostsOf(|streams|)
    }

    ghost function CostsOf(n: nat): (r: seq<nat>)
      requires Valid() && n <= |streams|
      reads this`times, streams
      ensures |r| == n && forall k :: 0 <= k < n ==> r[k] == streams[k].Cost(tryRecovery)
    {
      if n == 0 then [] else CostsOf(n - 1) + [streams[n - 1].Cost(tryRecovery)]
    }

    /** Where no packet is to come, no corruption is either. */
    ghost predicate NothingOwed()
      requires Valid()
      reads this`times, streams
    {
      forall k :: 0 <= k < |streams| && Lefts()[k] == [] ==> Costs()[k] == 0
    }

    /** Some stream is at an end at which reading stops. */
    ghost predicate Halts()
      requires Valid()
      reads this`times, streams
    {
      exists k :: 0 <= k < |streams| && Lefts()[k] == [] && Endings()[k] == Stopped
    }

    method Corrupted(s: InputStream) returns (corrupted: bool)
      requires s.Valid() && s.Skippable(s.pos)
      modifies s
      ensures s.Valid() && s.pos == s.BehindMetas(old(s.pos))
      ensures s.dictionary == s.LearnedBy(old(s.pos), old(s.dictionary))
      ensures corrupted == !s.Plausible(s.pos)
    {
      hide s.MagicAt, s.SizeAt, s.MetaAt;
      var good := s.CheckNextPreamble();
      if !good {
        return true;
      }
      var size := s.GetNextSize();
      return size == 0;
    }

    /** Skips over corrupted bytes: every round leaves less of the file. */
    method Recover(s: InputStream) returns (corrupted: bool)
      requires s.Valid() && !s.Plausible(s.pos) && !s.MetaAt(s.pos) && s.Recoverable(s.pos) && s.rem > 0
      modifies this`corruptions, s
      ensures s.Valid() && s.pos == s.Resync(old(s.pos))
      ensures s.dictionary == s.LearnedOn(old(s.pos), old(s.dictionary))
      ensures corruptions == old(corruptions + s.Corruptions(s.pos))
      ensures corrupted ==> s.rem == 0
    {
      hide s.Plausible, s.MetaAt, s.SizeAt, s.MagicAt, s.Learn, s.Found;
      corrupted := true;
      while corrupted && s.rem > 0
        invariant s.Valid() && s.pos <= |s.bytes| && !s.MetaAt(s.pos) && s.Recoverable(s.pos)
        invariant corrupted == !s.Plausible(s.pos)
        invariant s.Resync(s.pos) == s.Resync(old(s.pos))
        invariant s.LearnedOn(s.pos, s.dictionary) == s.LearnedOn(old(s.pos), old(s.dictionary))
        invariant corruptions + s.Corruptions(s.pos) == old(corruptions + s.Corruptions(s.pos))
        decreases s.rem
      {
        corruptions := corruptions + 1;
        var _ := s.GetNextSize();
        s.SkipCorrupted();
        if s.rem == 0 {
          AtEndOfFile(s);
          return false;
        }
        corrupted := Corrupted(s);
      }
    }

    lemma {:induction false} AtEndOfFile(s: InputStream)
      ensures s.Skippable(|s.bytes|) && s.BehindMetas(|s.bytes|) == |s.bytes| && !s.MetaAt(|s.bytes|)
      ensures forall d :: s.LearnedBy(|s.bytes|, d) == d
      ensures s.Recoverable(|s.bytes|) && s.Resync(|s.bytes|) == |s.bytes| && s.Corruptions(|s.bytes|) == 0
      ensures forall d :: s.LearnedOn(|s.bytes|, d) == d
    {
    }

    /** The time of what stands at the cursor; a packet cut off by the end of the file is skipped. */
    method TimeHere(s: InputStream) returns (time: real)
      requires s.Valid() && !s.MetaAt(s.pos) && s.Plausible(s.pos) && s.rem > 0
      modifies s
      ensures s.Valid() && s.dictionary == old(s.dictionary)
      ensures
        var at := old(s.pos);
        if at + s.SizeAt(at) > |s.bytes| then s.rem == 0 && time == VERY_LARGE_TIMESTAMP
        else s.pos == at && time == timeOf(s.TimeAt(at))
    {
      hide s.MetaAt, s.MagicAt, s.TimeAt, s.SizeAt;
      assert s.Skippable(s.pos) && s.BehindMetas(s.pos) == s.pos && s.LearnedBy(s.pos, s.dictionary) == s.dictionary;
      var size := s.GetNextSize();
      if size > s.rem {
        var _ := s.SkipMessage();
        return VERY_LARGE_TIMESTAMP;
      }
      return timeOf(s.TimeAt(s.pos));
    }

    /** Brings a stream to what it comes to next, and gives its time. */
    method PacketTime(s: InputStream) returns (ok: bool, time: real)
      requires s.Ready(tryRecovery)
      modifies this`corruptions, s
      ensures s.Valid()
      ensures
        var n := old(s.NextAt(s.pos, tryRecovery));
        && ok == (n != Stopped)
        && (n.Item? ==> s.pos == n.at && time == timeOf(s.TimeAt(n.at)))
        && (n == AtEnd ==> s.rem == 0 && time == VERY_LARGE_TIMESTAMP)
        && (n == Stopped ==> s.pos == s.BehindMetas(old(s.pos)))
      ensures old(s.NextAt(s.pos, tryRecovery)).Item? ==> s.dictionary == old(s.KnownAt(s.pos, s.dictionary, tryRecovery))
      ensures corruptions == old(corruptions + s.CountAt(s.pos, tryRecovery))
    {
      hide s.Plausible, s.MetaAt, s.SizeAt, s.MagicAt, s.Learn, s.TimeAt, s.Found;
      ghost var at, d, recover := s.pos, s.dictionary, tryRecovery;
      ghost var e := s.BehindMetas(at);
      AtEndOfFile(s);
      var consumed := s.ConsumeInternal();
      if s.rem == 0 {
        return true, VERY_LARGE_TIMESTAMP;
      }
      assert s.Skippable(s.pos) && s.BehindMetas(s.pos) == e && s.LearnedBy(s.pos, s.dictionary) == s.LearnedBy(at, d);
      var corrupted := Corrupted(s);
      if !tryRecovery && corrupted {
        corruptions := corruptions + 1;
        return false, VERY_LARGE_TIMESTAMP;
      }
      if corrupted && s.rem > 0 {
        corrupted := Recover(s);
      }
      if corrupted || s.rem == 0 {
        return true, VERY_LARGE_TIMESTAMP;
      }
      time := TimeHere(s);
      return true, time;
    }

    /** A stream that has been brought to what it comes to next comes to the same packets. */
    method PrepareStream(s: InputStream) returns (ok: bool, time: real)
      requires s.Ready(tryRecovery)
      modifies this`corruptions, s
      ensures s.Ready(tryRecovery) && s.Left(tryRecovery) == old(s.Left(tryRecovery))
      ensures ok == !old(s.Left(tryRecovery) == [] && s.Ending(tryRecovery) == Stopped)
      ensures ok ==> Prepared(s) && time == HeadTime(timeOf, s.Left(tryRecovery))
      ensures ok ==> s.Ending(tryRecovery) == old(s.Ending(tryRecovery))
      ensures ok ==> corruptions + s.Cost(tryRecovery) == old(corruptions + s.Cost(tryRecovery))
    {
      hide s.MetaAt, s.SizeAt, s.Plausible, s.NextAt, s.KnownAt, s.CountAt, s.Reachable, s.HashAt, s.BehindMetas;
      ghost var at, d, n := s.pos, s.dictionary, s.NextAt(s.pos, tryRecovery);
      ok, time := PacketTime(s);
      match n {
        case Item(r) => s.ItemStays(at, d, tryRecovery);
        case AtEnd => s.EndStays(at, d, s.dictionary, tryRecovery);
        case Stopped => s.StopStays(at, d, s.dictionary, tryRecovery);
      }
    }

    /** The stream is at a packet, or at its end. */
    ghost predicate Prepared(s: InputStream)
      reads s
    {
      && s.Ready(tryRecovery)
      && if s.Left(tryRecovery) == [] then s.rem == 0 else s.rem > 0 && s.NextAt(s.pos, tryRecovery) == Item(s.pos)
    }

    /** Brings every stream to its next packet, up to one at which reading stops. */
    method PrepareStreams() returns (ok: bool)
      requires Valid()
      modifies this`times, this`corruptions, streams
      ensures Valid() && ok == !old(Halts()) && Lefts() == old(Lefts())
      ensures ok ==> Endings() == old(Endings()) && corruptions + Sum(Costs()) == old(corruptions + Sum(Costs()))
      ensures ok ==> NothingOwed() && forall k :: 0 <= k < |streams| ==>
                Prepared(streams[k]) && times[k] == HeadTime(timeOf, Lefts()[k])
    {
      hide InputStream.Left, InputStream.Ending, InputStream.Cost, HeadTime, InputStream.Ready, Lefts, Endings, Costs;
      hide Prepared, NothingOwed;
      var k := 0;
      ok := true;
      while ok && k < |streams|
        invariant k <= |streams| && Valid() && Lefts() == old(Lefts())
        invariant ok ==> Endings() == old(Endings()) && corruptions + Sum(Costs()) == old(corruptions + Sum(Costs()))
        invariant ok ==> forall j :: 0 <= j < k ==>
                    && Prepared(streams[j]) && times[j] == HeadTime(timeOf, Lefts()[j])
                    && !(old(Lefts())[j] == [] && old(Endings())[j] == Stopped)
        invariant !ok ==> old(Halts())
      {
        ok := PrepareNext(k);
        k := k + 1;
      }
      if ok {
        AllCounted();
      }
    }

    lemma {:induction false} AllCounted()
      requires Valid() && forall k :: 0 <= k < |streams| ==> Prepared(streams[k])
      ensures NothingOwed()
    {
      hide Lefts, Costs, InputStream.Readable, InputStream.Trace, InputStream.NextAt;
      forall k | 0 <= k < |streams| && Lefts()[k] == []
        ensures Costs()[k] == 0
      {
        NothingLeft(streams[k], tryRecovery);
      }
    }

    method PrepareNext(k: nat) returns (ok: bool)
      requires Valid() && k < |streams|
      modifies this`times, this`corruptions, streams[k]
      ensures Valid() && ok == !old(Lefts()[k] == [] && Endings()[k] == Stopped) && Lefts() == old(Lefts())
      ensures ok ==>
                && Prepared(streams[k]) && times == old(times)[k := HeadTime(timeOf, Lefts()[k])]
                && Endings() == old(Endings()) && corruptions + Sum(Costs()) == old(corruptions + Sum(Costs()))
    {
      hide InputStream.Left, InputStream.Ending, InputStream.Cost, HeadTime, InputStream.Ready, Prepared, Lefts, Endings, Costs;
      ghost var lefts, endings, costs := Lefts(), Endings(), Costs();
      var t;
      ok, t := PrepareStream(streams[k]);
      if ok {
        times := times[k := t];
      }
      SumWith(costs, k, streams[k].Cost(tryRecovery));
      assert Lefts() == lefts && (ok ==> Endings() == endings);
      assert Costs() == costs[k := streams[k].Cost(tryRecovery)];
    }

    /** The first stream with the least time. */
    method FindEarliest()
      requires 0 < |streams| == |times|
      modifies this`next
      ensures next < |streams| && forall k :: 0 <= k < |streams| ==> times[next] <= times[k]
      ensures forall k :: 0 <= k < next ==> times[next] < times[k]
    {
      next := 0;
      var k := 0;
      while k < |streams|
        invariant k <= |streams| && next < |streams| && next <= k
        invariant forall j :: 0 <= j < k ==> times[next] <= times[j]
        invariant forall j :: 0 <= j < next ==> times[next] < times[j]
      {
        if times[k] < times[next] {
          next := k;
        }
        k := k + 1;
      }
    }

    /** Late, or no time that a packet can have. */
    predicate NotBefore(t: real) {
      Late(endTime, t) || t >= VERY_LARGE_TIMESTAMP
    }

    /**
      Finds the stream whose next packet is the earliest of all, unless there is none left in
      time, or reading stops.
    */
    method ComputeNextSi() returns (found: bool)
      requires Valid()
      modifies this`times, this`next, this`finished, this`corruptions, streams
      ensures Valid() && Lefts() == old(Lefts())
      ensures old(finished) || streams == [] ==>
                !found && finished == old(finished) && corruptions == old(corruptions)
      ensures !old(finished) && old(Halts()) ==> !found && !finished
      ensures !old(finished) && streams != [] && !old(Halts()) ==>
                && finished == !found && Endings() == old(Endings())
                && corruptions + Sum(Costs()) == old(corruptions + Sum(Costs()))
                && (found || NothingOwed())
                && if found then
                     && next < |streams| && Earliest(next, Lefts()) && Prepared(streams[next])
                   else forall k :: 0 <= k < |streams| ==> NotBefore(HeadTime(timeOf, Lefts()[k]))
    {
      hide InputStream.Left, InputStream.Ending, InputStream.Ready, Costs, Lefts, Endings, InputStream.NextAt, NothingOwed;
      hide Prepared, NotBefore, Earliest, HeadTime;
      if finished || streams == [] {
        return false;
      }
      var ok := PrepareStreams();
      if !ok {
        return false;
      }
      FindEarliest();
      Decided();
      if streams[next].rem == 0 || Late(endTime, times[next]) {
        finished := true;
        return false;
      }
      return true;
    }

    /** By the stream with the least time it is decided whether there is a packet in time. */
    lemma {:induction false} Decided()
      requires Valid() && next < |streams| && forall k :: 0 <= k < |streams| ==> times[next] <= times[k]
      requires forall k :: 0 <= k < |streams| ==> Prepared(streams[k]) && times[k] == HeadTime(timeOf, Lefts()[k])
      ensures if streams[next].rem == 0 || Late(endTime, times[next]) then
                forall k :: 0 <= k < |streams| ==> NotBefore(HeadTime(timeOf, Lefts()[k]))
              else Earliest(next, Lefts())
    {
      hide Lefts, InputStream.Readable, InputStream.Trace, InputStream.NextAt;
    }

    /** The stream has a packet in time, and none has an earlier one. */
    ghost predicate Earliest(n: nat, lefts: seq<seq<Entry>>) {
      && n < |lefts| && lefts[n] != [] && !Late(endTime, HeadTime(timeOf, lefts[n]))
      && forall k :: 0 <= k < |lefts| ==> HeadTime(timeOf, lefts[n]) <= HeadTime(timeOf, lefts[k])
    }

    /** Delivers the next message: its type's name and schema, as far as its own file has told, and its bytes. */
    method ProcessMessage() returns (ok: bool, message: Message)
      requires Valid()
      modifies this`times, this`next, this`finished, this`corruptions, streams
      ensures Valid()
      ensures old(finished) || streams == [] ==> !ok && finished == old(finished) && corruptions == old(corruptions)
      ensures !old(finished) && old(Halts()) ==> !ok && !finished
      ensures !old(finished) && streams != [] && !old(Halts()) ==>
                && finished == !ok && Endings() == old(Endings())
                && corruptions + Sum(Costs()) == old(corruptions + Sum(Costs()))
                && (!ok ==> NothingOwed() && forall k :: 0 <= k < |streams| ==> NotBefore(HeadTime(timeOf, Lefts()[k])))
      ensures if ok then
                var was := old(Lefts());
                && Earliest(next, was) && message == MessageOf(next, was[next][0])
                && Lefts() == was[next := was[next][1..]]
              else Lefts() == old(Lefts())
    {
      hide InputStream.Left, InputStream.Ending, InputStream.Ready, InputStream.Cost, HeadTime, NotBefore, Lefts, Endings, Costs;
      ok := ComputeNextSi();
      message := Message(0, UNTOLD, []);
      if ok {
        message := DeliverNext();
      }
    }

    /** Delivers from the stream that was found. */
    method DeliverNext() returns (message: Message)
      requires Valid() && next < |streams| && Lefts()[next] != [] && Prepared(streams[next])
      modifies streams[next]
      ensures Valid() && message == MessageOf(next, old(Lefts())[next][0])
      ensures Lefts() == old(Lefts())[next := old(Lefts())[next][1..]]
      ensures Endings() == old(Endings()) && Costs() == old(Costs())
    {
      hide InputStream.Left, InputStream.Ending, InputStream.Cost, InputStream.Ready, Prepared, Lefts, Endings, Costs;
      ghost var lefts, endings, costs := Lefts(), Endings(), Costs();
      message := Deliver(streams[next]);
      assert Lefts() == lefts[next := lefts[next][1..]] && Endings() == endings && Costs() == costs;
    }

    method Deliver(s: InputStream) returns (message: Message)
      requires Prepared(s) && s.Left(tryRecovery) != []
      modifies s
      ensures s.Ready(tryRecovery) && s.Left(tryRecovery) == old(s.Left(tryRecovery))[1..]
      ensures s.Ending(tryRecovery) == old(s.Ending(tryRecovery)) && s.Cost(tryRecovery) == old(s.Cost(tryRecovery))
      ensures message == MessageOf(next, old(s.Left(tryRecovery))[0])
    {
      hide s.MetaAt, s.SizeAt, s.MagicAt, s.PreambleAt, s.Found, s.Recoverable;
      ghost var at, d := s.pos, s.dictionary;
      s.ItemStays(at, d, tryRecovery);
      AtPacket(s, at, d);
      var size := s.GetNextSize();
      var hash := s.HashAt(s.pos);
      message := Message(next, if hash in s.dictionary then s.dictionary[hash] else UNTOLD,
                         s.bytes[s.pos..s.pos + size]);
      var _ := s.SkipMessage();
    }

    lemma {:induction false} AtPacket(s: InputStream, at: nat, d: map<Image8, TypeInfo>)
      requires s.Readable(at, tryRecovery) && s.NextAt(at, tryRecovery) == Item(at)
      ensures s.Skippable(at) && s.BehindMetas(at) == at && s.LearnedBy(at, d) == d
      ensures s.KnownAt(at, d, tryRecovery) == d && s.SizeAt(at) > 0 && at + s.SizeAt(at) <= |s.bytes|
    {
      hide s.MetaAt, s.SizeAt, s.MagicAt;
    }
  }

  function MessageOf(source: nat, e: Entry): Message {
    Message(source, e.info, e.bytes)
  }
}
