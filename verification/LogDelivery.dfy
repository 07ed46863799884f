/**
  Reading a set of log files to the end: of each file everything that reading comes to before the
  first late packet is delivered, each once, the earliest first; and when reading stops before the
  end. The files may hold any bytes.
*/
module LogDelivery {
  import opened Bytes
  import opened Interleaving
  import opened LogFormat
  import opened LogStream
  import opened LogReader

  type Clock = Image8 -> real

  function TimeOf(clock: Clock, p: Packet): real {
    clock(p.pre.time)
  }

  function EntryTime(clock: Clock): Entry -> real {
    (e: Entry) => clock(e.time)
  }

  /** The messages are those of the packets taken. */
  ghost predicate Told(log: seq<Taken<Entry>>, messages: seq<Message>) {
    |messages| == |log| && forall i :: 0 <= i < |log| ==> messages[i] == MessageOf(log[i].source, log[i].item)
  }

  /** Everything that is come to has a time that a packet can have. */
  ghost predicate AllTimed(clock: Clock, lefts: seq<seq<Entry>>) {
    forall k, i :: 0 <= k < |lefts| && 0 <= i < |lefts[k]| ==> clock(lefts[k][i].time) < VERY_LARGE_TIMESTAMP
  }

  ghost predicate AllInOrder(clock: Clock, lefts: seq<seq<Entry>>) {
    forall k :: 0 <= k < |lefts| ==> InOrder(EntryTime(clock), lefts[k])
  }

  /** As long as packets were taken, no file that stops the reading was at its end. */
  ghost predicate NotStopped(lefts: seq<seq<Entry>>, endings: seq<Next>, log: seq<Taken<Entry>>)
    requires |lefts| == |endings|
  {
    forall i, b :: 0 <= i < |log| && 0 <= b < |lefts| && endings[b] == Stopped ==> From(log[..i], b) != lefts[b]
  }

  /** All of a file that stops the reading has been taken. */
  ghost predicate HasStopped(lefts: seq<seq<Entry>>, endings: seq<Next>, log: seq<Taken<Entry>>)
    requires |lefts| == |endings|
  {
    exists b :: 0 <= b < |lefts| && endings[b] == Stopped && From(log, b) == lefts[b]
  }

  /** All of some file that stops the reading is in time. */
  ghost predicate WillStop(clock: Clock, endTime: real, lefts: seq<seq<Entry>>, endings: seq<Next>)
    requires |lefts| == |endings|
  {
    exists b :: 0 <= b < |lefts| && endings[b] == Stopped && UntilLate(EntryTime(clock), endTime, lefts[b]) == lefts[b]
  }

  /**
    Reading any files to the end, whatever bytes they hold and whether or not their packets are in
    time order. Reading finishes, with everything come to that is not late or behind a late packet
    delivered and each corruption passed counted, exactly if no file stops it; otherwise it stops as
    soon as such a file is at its end, and the rest of all files is lost.
  */
  method ReadAll(reader: Reader) returns (messages: seq<Message>, ghost log: seq<Taken<Entry>>)
    requires reader.Valid() && !reader.finished && reader.streams != []
    modifies reader, reader.streams
    ensures reader.Valid() && Told(log, messages)
    ensures forall i :: 0 <= i < |log| ==> log[i].source < |reader.streams|
    ensures Progress(old(reader.Lefts()), reader.Lefts(), log)
    ensures LeastFirst(EntryTime(reader.timeOf), old(reader.Lefts()), log)
    ensures NoneLate(EntryTime(reader.timeOf), reader.endTime, log)
    ensures AllInOrder(reader.timeOf, old(reader.Lefts())) ==>
              forall i, j :: 0 <= i < j < |log| ==> reader.timeOf(log[i].item.time) <= reader.timeOf(log[j].item.time)
    ensures NotStopped(old(reader.Lefts()), old(reader.Endings()), log)
    ensures reader.finished == !HasStopped(old(reader.Lefts()), old(reader.Endings()), log)
    ensures AllTimed(reader.timeOf, old(reader.Lefts())) ==>
              && (reader.finished ==> forall k :: 0 <= k < |reader.streams| ==>
                    From(log, k) == UntilLate(EntryTime(reader.timeOf), reader.endTime, old(reader.Lefts())[k]))
              && reader.finished
                 == !WillStop(reader.timeOf, reader.endTime, old(reader.Lefts()), old(reader.Endings()))
    ensures reader.finished ==>
              && reader.corruptions + Sum(reader.Costs()) == old(reader.corruptions + Sum(reader.Costs()))
              && reader.NothingOwed()
  {
    hide Told, Progress, LeastFirst, NoneLate, NotStopped, HasStopped, WillStop, Total;
    hide Reader.Lefts, Reader.Endings, Reader.Costs, Reader.Valid, UntilLate;
    messages, log := [], [];
    ghost var lefts, endings := reader.Lefts(), reader.Endings();
    ghost var clock, endTime := reader.timeOf, reader.endTime;
    Nothing(clock, endTime, lefts, endings);
    var ok := true;
    while ok
      invariant reader.Valid() && (ok ==> !reader.finished && reader.Endings() == endings)
      invariant Progress(lefts, reader.Lefts(), log) && LeastFirst(EntryTime(clock), lefts, log)
      invariant NoneLate(EntryTime(clock), endTime, log) && Told(log, messages)
      invariant forall i :: 0 <= i < |log| ==> log[i].source < |lefts|
      invariant NotStopped(lefts, endings, log)
      invariant !ok ==> reader.finished == !HasStopped(lefts, endings, log) && (reader.finished ==> reader.NothingOwed())
      invariant !ok && reader.finished && AllTimed(clock, lefts) ==> forall k :: 0 <= k < |lefts| ==>
                  From(log, k) == UntilLate(EntryTime(clock), endTime, lefts[k])
      invariant ok || reader.finished ==>
                  reader.corruptions + Sum(reader.Costs()) == old(reader.corruptions + Sum(reader.Costs()))
      decreases ok, Total(reader.Lefts())
    {
      var message;
      ok, message, log := TakeOne(reader, lefts, endings, log, messages);
      if ok {
        messages := messages + [message];
      }
    }
    InTimeOrder(clock, lefts, reader.Lefts(), log);
    StopsOrNot(clock, endTime, lefts, endings, log);
  }

  lemma Nothing(clock: Clock, endTime: real, lefts: seq<seq<Entry>>, endings: seq<Next>)
    requires |lefts| == |endings|
    ensures Progress(lefts, lefts, []) && LeastFirst(EntryTime(clock), lefts, [])
    ensures NoneLate(EntryTime(clock), endTime, []) && Told([], []) && NotStopped(lefts, endings, [])
  {
  }

  lemma InTimeOrder(clock: Clock, lefts: seq<seq<Entry>>, rests: seq<seq<Entry>>, log: seq<Taken<Entry>>)
    requires Progress(lefts, rests, log) && LeastFirst(EntryTime(clock), lefts, log)
    requires forall i :: 0 <= i < |log| ==> log[i].source < |lefts|
    ensures AllInOrder(clock, lefts) ==>
              forall i, j :: 0 <= i < j < |log| ==> clock(log[i].item.time) <= clock(log[j].item.time)
  {
    hide Progress, LeastFirst;
    if AllInOrder(clock, lefts) {
      forall i, j | 0 <= i < j < |log|
        ensures clock(log[i].item.time) <= clock(log[j].item.time)
      {
        Ordered(EntryTime(clock), lefts, rests, log, i, j);
      }
    }
  }

  /** Whether reading stops can be told from the files. */
  lemma StopsOrNot(clock: Clock, endTime: real, lefts: seq<seq<Entry>>, endings: seq<Next>, log: seq<Taken<Entry>>)
    requires |lefts| == |endings| && NoneLate(EntryTime(clock), endTime, log)
    ensures (HasStopped(lefts, endings, log)
             || forall k :: 0 <= k < |lefts| ==> From(log, k) == UntilLate(EntryTime(clock), endTime, lefts[k])) ==>
              HasStopped(lefts, endings, log) == WillStop(clock, endTime, lefts, endings)
  {
    hide From, UntilLate, NoneLate;
    if HasStopped(lefts, endings, log) {
      var b :| 0 <= b < |lefts| && endings[b] == Stopped && From(log, b) == lefts[b];
      FromInTime(EntryTime(clock), endTime, log, b);
      SplitUntilLate(EntryTime(clock), endTime, From(log, b), []);
      assert From(log, b) + [] == From(log, b);
    }
  }

  /** One round of that loop. */
  method TakeOne(reader: Reader, ghost lefts: seq<seq<Entry>>, ghost endings: seq<Next>, ghost log: seq<Taken<Entry>>,
                 ghost messages: seq<Message>)
    returns (ok: bool, message: Message, ghost log': seq<Taken<Entry>>)
    requires reader.Valid() && !reader.finished && reader.streams != []
    requires |lefts| == |endings| && reader.Endings() == endings
    requires Progress(lefts, reader.Lefts(), log) && LeastFirst(EntryTime(reader.timeOf), lefts, log)
    requires NoneLate(EntryTime(reader.timeOf), reader.endTime, log) && Told(log, messages)
    requires forall i :: 0 <= i < |log| ==> log[i].source < |lefts|
    requires NotStopped(lefts, endings, log)
    modifies reader, reader.streams
    ensures reader.Valid() && (ok ==> !reader.finished && reader.Endings() == endings)
    ensures Progress(lefts, reader.Lefts(), log') && LeastFirst(EntryTime(reader.timeOf), lefts, log')
    ensures NoneLate(EntryTime(reader.timeOf), reader.endTime, log')
    ensures Told(log', if ok then messages + [message] else messages)
    ensures forall i :: 0 <= i < |log'| ==> log'[i].source < |lefts|
    ensures NotStopped(lefts, endings, log')
    ensures ok ==> Total(reader.Lefts()) < old(Total(reader.Lefts()))
    ensures !ok ==> reader.finished == !HasStopped(lefts, endings, log') && (reader.finished ==> reader.NothingOwed())
    ensures !ok && reader.finished && AllTimed(reader.timeOf, lefts) ==> forall k :: 0 <= k < |lefts| ==>
              From(log', k) == UntilLate(EntryTime(reader.timeOf), reader.endTime, lefts[k])
    ensures ok || reader.finished ==>
              reader.corruptions + Sum(reader.Costs()) == old(reader.corruptions + Sum(reader.Costs()))
  {
    hide Progress, LeastFirst, NoneLate, NotStopped, HasStopped, Told, Total, AllTimed, UntilLate;
    hide Reader.Lefts, Reader.Endings, Reader.Costs, Reader.Valid, Reader.NotBefore, HeadTime;
    ghost var clock, endTime, was, n := reader.timeOf, reader.endTime, reader.Lefts(), |reader.streams|;
    HaltsIfStopped(reader, lefts, log);
    ok, message := reader.ProcessMessage();
    log' := log;
    if ok {
      ghost var next := reader.next;
      log' := log + [Taken(next, was[next][0])];
      HeadTimes(reader, was, next);
      TakeNext(EntryTime(clock), lefts, was, log, next);
      TotalDecreases(was, reader.Lefts(), next);
      OneMore(clock, endTime, lefts, was, endings, log, messages, log'[|log|]);
    } else if reader.finished {
      if AllTimed(clock, lefts) {
        forall k | 0 <= k < |lefts|
          ensures From(log, k) == UntilLate(EntryTime(clock), endTime, lefts[k])
        {
          LateHeads(reader, lefts, was, log, k);
          AtTheEnd(EntryTime(clock), endTime, lefts, was, log, k);
        }
      }
    }
  }

  /** Reading is about to stop exactly if a file that stops it is at its end. */
  lemma {:induction false} HaltsIfStopped(reader: Reader, lefts: seq<seq<Entry>>, log: seq<Taken<Entry>>)
    requires reader.Valid() && Progress(lefts, reader.Lefts(), log) && |lefts| == |reader.Endings()|
    ensures reader.Halts() == HasStopped(lefts, reader.Endings(), log)
  {
    hide Reader.Valid, Reader.Lefts, Reader.Endings, From;
    forall k | 0 <= k < |lefts|
      ensures reader.Lefts()[k] == [] <==> From(log, k) == lefts[k]
    {
      if reader.Lefts()[k] != [] {
        assert |From(log, k) + reader.Lefts()[k]| > |From(log, k)|;
      } else {
        assert From(log, k) + [] == From(log, k);
      }
    }
  }

  lemma {:induction false} HeadTimes(reader: Reader, was: seq<seq<Entry>>, n: nat)
    requires reader.Earliest(n, was)
    ensures n < |was| && was[n] != [] && !Late(reader.endTime, EntryTime(reader.timeOf)(was[n][0]))
    ensures forall k :: 0 <= k < |was| && was[k] != [] ==>
              EntryTime(reader.timeOf)(was[n][0]) <= EntryTime(reader.timeOf)(was[k][0])
  {
    forall k | 0 <= k < |was| && was[k] != []
      ensures EntryTime(reader.timeOf)(was[n][0]) <= EntryTime(reader.timeOf)(was[k][0])
    {
      assert HeadTime(reader.timeOf, was[n]) <= HeadTime(reader.timeOf, was[k]);
    }
  }

  lemma {:induction false} LateHeads(reader: Reader, lefts: seq<seq<Entry>>, was: seq<seq<Entry>>, log: seq<Taken<Entry>>,
                                     k: nat)
    requires Progress(lefts, was, log) && AllTimed(reader.timeOf, lefts) && k < |was|
    requires reader.NotBefore(HeadTime(reader.timeOf, was[k]))
    ensures was[k] == [] || Late(reader.endTime, EntryTime(reader.timeOf)(was[k][0]))
  {
    hide From;
    if was[k] != [] {
      assert lefts[k][|From(log, k)|] == was[k][0];
    }
  }

  lemma OneMore(clock: Clock, endTime: real, lefts: seq<seq<Entry>>, was: seq<seq<Entry>>, endings: seq<Next>,
                log: seq<Taken<Entry>>, messages: seq<Message>, t: Taken<Entry>)
    requires |lefts| == |endings| && NoneLate(EntryTime(clock), endTime, log) && !Late(endTime, clock(t.item.time))
    requires Told(log, messages) && NotStopped(lefts, endings, log) && !HasStopped(lefts, endings, log)
    ensures NoneLate(EntryTime(clock), endTime, log + [t])
    ensures Told(log + [t], messages + [MessageOf(t.source, t.item)])
    ensures NotStopped(lefts, endings, log + [t])
  {
    hide From;
    var log' := log + [t];
    forall i, b | 0 <= i < |log'| && 0 <= b < |lefts| && endings[b] == Stopped
      ensures From(log'[..i], b) != lefts[b]
    {
      assert log'[..i] == log[..i];
      assert i == |log| ==> log[..i] == log;
    }
  }
}
