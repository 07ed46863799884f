/** What holds of the ring buffer and the logger thread over whole runs. */
module RingTheorems {
  import opened Bytes
  import opened RingState
  import opened RingBuffers
  import opened RingProtocol

  // ----- every run

  lemma InitHolds(s: System)
    requires Init(s)
    ensures Inv(s)
  {
  }

  /** In every run, every state keeps the invariant and every step is safe. */
  lemma {:induction false} RunsAreSafe(states: seq<System>, steps: seq<Step>, n: nat)
    requires IsRun(states, steps) && n < |states|
    ensures Inv(states[n])
    ensures forall i :: 0 <= i < n ==>
      && Enabled(states[i], steps[i]) && Safe(states[i], steps[i])
      && states[i + 1] == Do(states[i], steps[i])
  {
    hide Inv, Safe, Do, Enabled;
    if n == 0 {
      InitHolds(states[0]);
    } else {
      RunsAreSafe(states, steps, n - 1);
      assert Next(states[n - 1], steps[n - 1], states[n - 1 + 1]);
      StepKeeps(states[n - 1], steps[n - 1]);
    }
  }

  /** What an allocation was, and its content once it has one, never changes again. */
  ghost predicate Extends(h: seq<Record>, k: seq<Record>) {
    && |h| <= |k|
    && (forall i :: 0 <= i < |h| ==>
          && k[i].tag == h[i].tag && k[i].size == h[i].size && k[i].begin == h[i].begin
          && (h[i].content.Some? ==> k[i].content == h[i].content))
  }

  lemma StepExtends(s: System, step: Step)
    requires Inv(s) && Enabled(s, step) && Safe(s, step)
    ensures Extends(s.history, Do(s, step).history) && s.first <= Do(s, step).first
  {
    hide Chain, Mapped, Counts, Contents, Consuming, Past, AllocInner, Store, LastUnread, Dequeue, PacketsTo;
    assert Counts(s);
  }

  lemma {:induction false} RunExtends(states: seq<System>, steps: seq<Step>, i: nat, j: nat)
    requires IsRun(states, steps) && i <= j < |states|
    ensures Extends(states[i].history, states[j].history) && states[i].first <= states[j].first
    decreases j - i
  {
    hide Inv, Safe, Do, Enabled, Next;
    if i < j {
      RunExtends(states, steps, i, j - 1);
      RunsAreSafe(states, steps, j);
      RunsAreSafe(states, steps, j - 1);
      StepIsEnabled(states, steps, j - 1);
      StepExtends(states[j - 1], steps[j - 1]);
      assert states[j] == Do(states[j - 1], steps[j - 1]);
    }
  }

  lemma StepIsEnabled(states: seq<System>, steps: seq<Step>, i: nat)
    requires IsRun(states, steps) && i < |steps|
    ensures Enabled(states[i], steps[i])
  {
    assert Next(states[i], steps[i], states[i + 1]);
  }

  lemma {:induction false} PacketAt(h: seq<Record>, id: nat, n: nat)
    requires id < n <= |h| && h[id].content.Some?
    ensures |PacketsTo(h, id)| < |PacketsTo(h, n)|
    ensures PacketsTo(h, n)[|PacketsTo(h, id)|] == Delivered(h[id].tag, h[id].content.value)
  {
    if id < n - 1 {
      PacketAt(h, id, n - 1);
    }
  }

  /**
    In every run, the packets handed to the logger so far are exactly those of the allocations
    freed so far (and the one in hand), in allocation order.
  */
  lemma DeliveredInOrder(states: seq<System>, steps: seq<Step>, n: nat)
    requires IsRun(states, steps) && n < |states|
    ensures
      var s := states[n];
      && s.first <= |s.history| && (s.consumer.Holding? ==> s.first < |s.history|)
      && s.out == PacketsTo(s.history, if s.consumer.Holding? then s.first + 1 else s.first)
      && forall id :: 0 <= id < s.first ==> s.history[id].dummy || s.history[id].content.Some?
  {
    hide Chain, Mapped, Counts, Contents, Consuming;
    RunsAreSafe(states, steps, n);
  }

  /**
    A populated allocation that has been freed was delivered once, at its place in the order,
    with the bytes that its range of the buffer held when it was populated.
  */
  lemma PopulatedBytesDelivered(states: seq<System>, steps: seq<Step>, i: nat, j: nat, id: nat)
    requires IsRun(states, steps) && i < j < |states|
    requires steps[i] == Finish(id) && id < states[j].first
    ensures id < |states[i + 1].history| && id < |states[j].history|
    ensures
      var (r, buf, s) := (states[i + 1].history[id], states[i].ring.buf, states[j]);
      && r.begin + r.size <= |buf|
      && |PacketsTo(s.history, id)| < |s.out|
      && s.out[|PacketsTo(s.history, id)|] == Delivered(r.tag, buf[r.begin..r.begin + r.size])
  {
    hide Init, Next, Do, Enabled, Safe, Inv, Extends, PacketsTo;
    RunsAreSafe(states, steps, i + 1);
    RunsAreSafe(states, steps, i);
    RunsAreSafe(states, steps, j);
    RunExtends(states, steps, i + 1, j);
    FinishedPacket(states[i], states[i + 1], states[j], id);
  }

  lemma FinishedPacket(s: System, t: System, u: System, id: nat)
    requires Inv(s) && Enabled(s, Finish(id)) && Safe(s, Finish(id)) && t == Do(s, Finish(id))
    requires Extends(t.history, u.history) && Inv(u) && id < u.first
    ensures id < |t.history| && id < |u.history|
    ensures
      var (r, buf) := (t.history[id], s.ring.buf);
      && r.begin + r.size <= |buf|
      && |PacketsTo(u.history, id)| < |u.out|
      && u.out[|PacketsTo(u.history, id)|] == Delivered(r.tag, buf[r.begin..r.begin + r.size])
  {
    hide Chain, Mapped, Contents, Consuming, PacketsTo, Key, Id64;
    HandleFindsIts(s, id);
    PacketAt(u.history, id, if u.consumer.Holding? then u.first + 1 else u.first);
  }

  /** In every run, live allocations are disjoint and together shorter than the buffer. */
  lemma LiveAllocationsDisjoint(states: seq<System>, steps: seq<Step>, n: nat)
    requires IsRun(states, steps) && n < |states|
    ensures
      var s := states[n];
      && s.first <= |s.history| && LiveSize(s.history, s.first) < s.ring.cap
      && forall i, j :: s.first <= i < j < |s.history| ==>
           s.history[i].begin + s.history[i].size <= s.history[j].begin
           || s.history[j].begin + s.history[j].size <= s.history[i].begin
  {
    hide Chain, Mapped, Contents, Consuming, Past;
    RunsAreSafe(states, steps, n);
    var s := states[n];
    forall i, j | s.first <= i < j < |s.history|
      ensures s.history[i].begin + s.history[i].size <= s.history[j].begin
              || s.history[j].begin + s.history[j].size <= s.history[i].begin
    {
      LiveDisjoint(s, i, j);
    }
  }

  lemma LiveInBuffer(s: System, id: nat)
    requires Inv(s) && id < |s.history|
    ensures s.history[id].begin + s.history[id].size <= |s.ring.buf|
  {
    assert GoodRecord(s.ring.cap, s.history[id]);
  }

  /** An unlocked write changes no byte of any other live allocation. */
  lemma WritesStayInside(s: System, id: nat, k: nat, b: byte, other: nat)
    requires Inv(s) && Enabled(s, Write(id, k, b)) && s.first <= other < |s.history| && other != id
    ensures Safe(s, Write(id, k, b))
    ensures
      var (r, buf) := (s.history[other], Do(s, Write(id, k, b)).ring.buf);
      && r.begin + r.size <= |buf| == |s.ring.buf|
      && buf[r.begin..r.begin + r.size] == s.ring.buf[r.begin..r.begin + r.size]
  {
    hide Chain, Mapped, Contents, Consuming, Past, Key, Id64;
    HandleFindsIts(s, id);
    LiveDisjoint(s, if id < other then id else other, if id < other then other else id);
    LiveInBuffer(s, id);
    LiveInBuffer(s, other);
    StoreElsewhere(s.ring.buf, s.history[id].begin + k, b, s.history[other].begin, s.history[other].size);
  }

  /**
    Conservation, in every run: the byte count is the live sizes plus one for every padding of
    no bytes ever issued, and no subtraction underflows.
  */
  lemma Conservation(states: seq<System>, steps: seq<Step>, n: nat)
    requires IsRun(states, steps) && n < |states|
    ensures
      var s := states[n];
      && s.first <= |s.history|
      && s.ring.used == LiveSize(s.history, s.first) + ZerosTo(s.history, |s.history|) < s.ring.cap
  {
    hide Chain, Mapped, Contents, Consuming, Past;
    RunsAreSafe(states, steps, n);
  }

  /** In every run, the ids of live allocations cut to 32 bits are distinct. */
  lemma LiveKeysDistinct(states: seq<System>, steps: seq<Step>, n: nat)
    requires IsRun(states, steps) && n < |states|
    ensures
      var s := states[n];
      && |s.history| - s.first <= s.ring.used < LIMIT32
      && forall i, j :: s.first <= i < j < |s.history| ==> Key(i) != Key(j)
  {
    hide Inv;
    RunsAreSafe(states, steps, n);
    IdWindow(states[n]);
  }

  // ----- draining

  predicate Drained(s: System) {
    s.first == |s.history| && s.consumer.Idle?
  }

  /** With nothing left to free, the count is zero exactly if no padding of no bytes was ever issued. */
  lemma DrainedCount(s: System)
    requires Inv(s) && Drained(s)
    ensures s.ring.used == ZerosTo(s.history, |s.history|)
  {
  }

  /** If one was, the logger thread keeps waiting for a packet: no step of its changes anything. */
  lemma DrainLoopSticks(s: System, step: Step)
    requires Inv(s) && Drained(s) && s.ring.used > 0
    requires Enabled(s, step) && !step.Alloc? && !step.Write? && !step.Finish?
    ensures Safe(s, step) && Do(s, step) == s
  {
    HeadFound(s);
  }

  /** Every producer is done: only the logger thread's drain loop is left. */
  predicate AllPopulated(s: System) {
    forall i :: 0 <= i < |s.history| ==> s.history[i].dummy || s.history[i].content.Some?
  }

  /** The packet's bytes read one by one, and handed over. */
  lemma ReadWhole(s: System, got: seq<byte>) returns (t: System)
    requires Inv(s) && s.consumer.Reading?
    requires s.consumer.begin + s.consumer.size <= |s.ring.buf|
    requires got == s.ring.buf[s.consumer.begin..s.consumer.begin + s.consumer.size]
    ensures Inv(t)
    ensures t == s.(consumer := Holding(s.consumer.begin, s.consumer.size),
                    out := s.out + [Delivered(s.consumer.tag, got)])
  {
    hide Chain, Mapped;
    var r := s.history[s.first];
    assert Intact(s.ring.buf, r);
    assert r.content.value[..r.size] == r.content.value;
    t := s.(consumer := s.consumer.(got := got));
    assert Inv(t);
    ProcessKeeps(t);
    t := Do(t, Process);
  }

  /**
    All steps of the logger thread from lastUnread to dequeue, with the packet's bytes read. They
    are taken as soon as the oldest allocation is padding or populated, whatever the others are.
  */
  lemma FreeOne(s: System, got: seq<byte>) returns (t: System)
    requires Inv(s) && s.consumer.Idle? && s.first < |s.history| && HeadPresent(s.ring)
    requires s.history[s.first].dummy || s.history[s.first].content.Some?
    requires LastUnread(s.ring).Packet? ==>
      var p := LastUnread(s.ring);
      p.begin + p.size <= |s.ring.buf| && got == s.ring.buf[p.begin..p.begin + p.size]
    ensures Inv(t) && t.consumer.Idle? && t.history == s.history && t.first == s.first + 1
    ensures s.ring.used > 0 && t.ring == Dequeue(s.ring).0
    ensures !LastUnread(s.ring).Nothing?
    ensures t.out == s.out + match LastUnread(s.ring)
                             case Packet(_, _, tag) => [Delivered(tag, got)]
                             case _ => []
  {
    hide Chain, Mapped;
    HeadFound(s);
    LiveCount(s.ring.cap, s.history, s.first);
    PeekKeeps(s);
    var u := Do(s, Peek);
    if u.consumer.Reading? {
      u := ReadWhole(u, got);
    }
    FreeKeeps(u);
    t := Do(u, Free);
  }

  /**
    The loop that empties the queue at shutdown. It ends if no padding of no bytes was ever
    issued, having handed over everything that was still queued, in order.
  */
  method Drain(ring: RingBuffer, ghost s: System) returns (packets: seq<Delivered>)
    requires Inv(s) && ring.Valid() && ring.State() == s.ring && s.consumer.Idle? && AllPopulated(s)
    requires ZerosTo(s.history, |s.history|) == 0
    modifies ring
    ensures ring.used == 0
    ensures s.out + packets == PacketsTo(s.history, |s.history|)
  {
    hide Chain, Mapped, Contents, Consuming, PacketsTo;
    ghost var t := s;
    packets := [];
    while ring.used > 0
      invariant ring.Valid() && Inv(t) && ring.State() == t.ring && t.consumer.Idle? && AllPopulated(t)
      invariant t.history == s.history && t.out == s.out + packets
      decreases |t.history| - t.first
    {
      assert t.first < |t.history|;
      HeadFound(t);
      var r := ring.LastUnread();
      var got: seq<byte> := [];
      if r.Packet? {
        HeadInBuffer(t);
        got := ring.buf[r.begin..r.begin + r.size];
        packets := packets + [Delivered(r.tag, got)];
      }
      t := FreeOne(t, got);
      var _ := ring.Dequeue();
    }
    IdWindow(t);
  }

  lemma HeadInBuffer(s: System)
    requires Inv(s) && HeadPresent(s.ring) && LastUnread(s.ring).Packet?
    ensures LastUnread(s.ring).begin + LastUnread(s.ring).size <= |s.ring.buf|
  {
    HeadFound(s);
  }

  // ----- progress

  /**
    From a drained state, a request that would leave one spare byte is granted at once, or after
    one round of padding that the logger thread frees.
  */
  lemma TwoRounds(s: System, size: nat, tag: Tag)
    requires Inv(s) && Drained(s) && size > 0 && s.ring.used + size + 1 < s.ring.cap
    ensures Enabled(s, Alloc(size, tag))
    ensures
      var t := Do(s, Alloc(size, tag));
      || AllocInner(s.ring, size, tag).1.Some?
      || (Enabled(t, Peek) && Safe(t, Peek) &&
          var u := Do(t, Peek);
          Enabled(u, Free) && Safe(u, Free) &&
          var v := Do(u, Free);
          Room(v.ring, size) && AllocInner(v.ring, size, tag).1.Some?)
  {
    if AllocInner(s.ring, size, tag).1.None? {
      PaddingRound(s, size, tag);
    }
  }

  lemma PaddingRound(s: System, size: nat, tag: Tag)
    requires Inv(s) && Drained(s) && size > 0 && s.ring.used + size + 1 < s.ring.cap
    requires AllocInner(s.ring, size, tag).1.None?
    ensures
      var t := Do(s, Alloc(size, tag));
      Enabled(t, Peek) && Safe(t, Peek) &&
      var u := Do(t, Peek);
      Enabled(u, Free) && Safe(u, Free) &&
      var v := Do(u, Free);
      v.ring.write == 0 && v.ring.used <= s.ring.used + 1 && v.ring.cap == s.ring.cap
  {
    hide Chain, Mapped, Contents, Past, ZerosTo, LiveSize;
    AllocKeeps(s, size, tag);
    var t := Do(s, Alloc(size, tag));
    DrainedCount(s);
    HeadFound(t);
    assert t.history[t.first].dummy;
    PeekKeeps(t);
    var u := Do(t, Peek);
    FreeKeeps(u);
    DrainedCount(Do(u, Free));
    ZerosAppend(s.history, t.history[t.first], |s.history|);
    ZerosLast(t.history);
  }

  lemma ZerosLast(h: seq<Record>)
    requires h != []
    ensures ZerosTo(h, |h|) <= ZerosTo(h, |h| - 1) + 1
  {
  }

  /** Each padding of no bytes costs a byte for good; once they add up, no request is ever granted. */
  lemma LeakedAway(s: System, size: nat, tag: Tag)
    requires Inv(s) && ZerosTo(s.history, |s.history|) == s.ring.cap - 1
    ensures !Enabled(s, Alloc(size, tag))
  {
  }

  predicate IsLast(states: seq<System>, s: System) {
    states != [] && states[|states| - 1] == s
  }

  lemma Extend(states: seq<System>, steps: seq<Step>, s: System, step: Step)
    returns (states': seq<System>, steps': seq<Step>, t: System)
    requires IsRun(states, steps) && IsLast(states, s) && Inv(s) && Enabled(s, step)
    ensures Safe(s, step) && t == Do(s, step) && Inv(t)
    ensures IsRun(states', steps') && IsLast(states', t)
  {
    hide Init, Inv, Do, Enabled, Safe;
    StepKeeps(s, step);
    t := Do(s, step);
    states', steps' := states + [t], steps + [step];
    forall i | 0 <= i < |steps'|
      ensures Next(states'[i], steps'[i], states'[i + 1])
    {
      if i < |steps| {
        assert Next(states[i], steps[i], states[i + 1]);
      }
    }
  }

  /**
    Such a run, with a buffer of two bytes: two one-byte packets go through it, the third request
    is answered with padding of no bytes, and once that is freed no request is granted any more.
  */
  lemma LeakExample(buf: seq<byte>, tag: Tag) returns (states: seq<System>, steps: seq<Step>, s: System)
    requires |buf| == 2
    ensures IsRun(states, steps) && IsLast(states, s)
    ensures Drained(s) && s.ring.used == 1 && forall size :: !Enabled(s, Alloc(size, tag))
  {
    hide Inv, IsRun, IsLast;
    s := System(Ring(2, 0, 0, map[], 0, 0, buf), [], 0, Idle, []);
    states, steps := FirstState(s);
    states, steps, s := OneByteThrough(states, steps, s, tag);
    states, steps, s := OneByteThrough(states, steps, s, tag);
    states, steps, s := PaddingThrough(states, steps, s, tag);
  }

  lemma FirstState(s: System) returns (states: seq<System>, steps: seq<Step>)
    requires Init(s)
    ensures IsRun(states, steps) && IsLast(states, s) && Inv(s)
  {
    InitHolds(s);
    states, steps := [s], [];
  }

  lemma OneByteThrough(states: seq<System>, steps: seq<Step>, s: System, tag: Tag)
    returns (states': seq<System>, steps': seq<Step>, t: System)
    requires IsRun(states, steps) && IsLast(states, s) && Inv(s)
    requires Drained(s) && s.ring.write < s.ring.cap == 2 && s.ring.used == 0
    ensures IsRun(states', steps') && IsLast(states', t) && Inv(t)
    ensures Drained(t) && t.ring.cap == 2 && t.ring.used == 0 && t.ring.write == s.ring.write + 1
  {
    states', steps', t := OneByteIn(states, steps, s, tag);
    states', steps', t := OneByteOut(states', steps', t);
  }

  lemma OneByteIn(states: seq<System>, steps: seq<Step>, s: System, tag: Tag)
    returns (states': seq<System>, steps': seq<Step>, t: System)
    requires IsRun(states, steps) && IsLast(states, s) && Inv(s)
    requires Drained(s) && s.ring.write < s.ring.cap == 2 && s.ring.used == 0
    ensures IsRun(states', steps') && IsLast(states', t) && Inv(t)
    ensures t.first + 1 == |t.history| && t.consumer.Idle? && t.history[t.first].size == 1
    ensures t.history[t.first].content.Some? && !t.history[t.first].dummy
    ensures t.ring.cap == 2 && t.ring.used == 1 && t.ring.write == s.ring.write + 1
  {
    hide IsRun, IsLast, Mapped, Contents, Past, Id64, Key;
    states', steps', t := Extend(states, steps, s, Alloc(1, tag));
    states', steps', t := Extend(states', steps', t, Finish(s.first));
  }

  lemma OneByteOut(states: seq<System>, steps: seq<Step>, s: System)
    returns (states': seq<System>, steps': seq<Step>, t: System)
    requires IsRun(states, steps) && IsLast(states, s) && Inv(s)
    requires s.first + 1 == |s.history| && s.consumer.Idle? && s.history[s.first].size == 1
    requires s.history[s.first].content.Some? && !s.history[s.first].dummy && s.ring.used == 1
    ensures IsRun(states', steps') && IsLast(states', t) && Inv(t)
    ensures Drained(t) && t.ring.cap == s.ring.cap && t.ring.used == 0 && t.ring.write == s.ring.write
  {
    hide IsRun, IsLast, Mapped, Contents, Past, Id64, Key, Chain, Counts;
    HeadFound(s);
    states', steps', t := Extend(states, steps, s, Peek);
    states', steps', t := Extend(states', steps', t, ReadByte);
    states', steps', t := Extend(states', steps', t, Process);
    HeadFound(t);
    states', steps', t := Extend(states', steps', t, Free);
  }

  lemma PaddingThrough(states: seq<System>, steps: seq<Step>, s: System, tag: Tag)
    returns (states': seq<System>, steps': seq<Step>, t: System)
    requires IsRun(states, steps) && IsLast(states, s) && Inv(s)
    requires Drained(s) && s.ring.write == s.ring.cap == 2 && s.ring.used == 0
    ensures IsRun(states', steps') && IsLast(states', t)
    ensures Drained(t) && t.ring.cap == 2 && t.ring.used == 1
  {
    hide IsRun, IsLast, Mapped, Contents, Past, Id64, Key;
    states', steps', t := Extend(states, steps, s, Alloc(1, tag));
    HeadFound(t);
    states', steps', t := Extend(states', steps', t, Peek);
    HeadFound(t);
    states', steps', t := Extend(states', steps', t, Free);
  }
}
