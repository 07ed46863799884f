/** What the ring buffer grants, what its writes do, and that what was written is what is delivered. */
module RingProgress {
  import opened Bytes
  import opened RingState
  import opened RingProtocol
  import opened RingTheorems

  // ----- requests

  /** What a granted request adds: the space at the write position, or padding up to the end. */
  ghost predicate Granted(s: System, size: nat, tag: Tag, t: System) {
    && |t.history| == |s.history| + 1 && t.history[..|s.history|] == s.history
    && (t.first, t.consumer, t.out, t.ring.buf) == (s.first, s.consumer, s.out, s.ring.buf)
    && var r := t.history[|s.history|];
       && r.begin == s.ring.write && r.content.None?
       && if s.ring.write + size <= s.ring.cap then
            !r.dummy && r.size == size && r.tag == tag && t.ring.write == s.ring.write + size
          else
            r.dummy && r.size == s.ring.cap - s.ring.write && t.ring.write == 0
  }

  /** In every state of every run, a request is granted exactly if fewer bytes are in use than it leaves. */
  lemma GrantedExactly(states: seq<System>, steps: seq<Step>, n: nat, size: nat, tag: Tag)
    requires IsRun(states, steps) && n < |states|
    ensures
      var s := states[n];
      && (Enabled(s, Alloc(size, tag)) <==> size > 0 && s.ring.used + size < s.ring.cap)
      && (Enabled(s, Alloc(size, tag)) ==>
            Safe(s, Alloc(size, tag)) && Granted(s, size, tag, Do(s, Alloc(size, tag))))
  {
    hide Chain, Mapped, Contents, Consuming, Past, Id64, Key;
    RunsAreSafe(states, steps, n);
  }

  function Sum(sizes: seq<nat>): nat {
    if sizes == [] then 0 else Sum(sizes[..|sizes| - 1]) + sizes[|sizes| - 1]
  }

  /** Packets of the given sizes, side by side and all live. */
  ghost predicate Holds(s: System, sizes: seq<nat>) {
    && s.first == 0 && s.consumer.Idle? && |s.history| == |sizes|
    && s.ring.used == s.ring.write == Sum(sizes)
    && forall i :: 0 <= i < |sizes| ==>
         && !s.history[i].dummy && s.history[i].content.None?
         && s.history[i].size == sizes[i] && s.history[i].begin == Sum(sizes[..i])
  }

  /** Whatever packets fit together, there is a run in which they are live at once. */
  lemma {:induction false} ManyLive(buf: seq<byte>, sizes: seq<nat>, tag: Tag)
    returns (states: seq<System>, steps: seq<Step>, s: System)
    requires Sum(sizes) < |buf| < 0x8000_0000 && forall i :: 0 <= i < |sizes| ==> sizes[i] > 0
    ensures IsRun(states, steps) && IsLast(states, s) && Inv(s) && s.ring.cap == |buf| && Holds(s, sizes)
    decreases |sizes|
  {
    hide IsRun, IsLast, Chain, Mapped, Contents, Past, Consuming, Id64, Key;
    if sizes == [] {
      s := System(Ring(|buf|, 0, 0, map[], 0, 0, buf), [], 0, Idle, []);
      states, steps := FirstState(s);
    } else {
      var (front, last) := (sizes[..|sizes| - 1], sizes[|sizes| - 1]);
      var was;
      states, steps, was := ManyLive(buf, front, tag);
      states, steps, s := Extend(states, steps, was, Alloc(last, tag));
      OneMoreLive(was, s, front, last, tag);
      assert sizes == front + [last];
    }
  }

  lemma OneMoreLive(was: System, s: System, front: seq<nat>, last: nat, tag: Tag)
    requires Inv(was) && Holds(was, front) && last > 0 && Sum(front) + last < was.ring.cap
    requires Enabled(was, Alloc(last, tag)) && Safe(was, Alloc(last, tag)) && s == Do(was, Alloc(last, tag))
    ensures s.ring.cap == was.ring.cap && Holds(s, front + [last])
  {
    hide Chain, Mapped, Contents, Past, Consuming, Id64, Key;
    var sizes := front + [last];
    assert sizes[..|sizes| - 1] == front;
    WordOfSmall(was.ring.used + last);
    forall i | 0 <= i < |sizes|
      ensures !s.history[i].dummy && s.history[i].content.None?
      ensures s.history[i].size == sizes[i] && s.history[i].begin == Sum(sizes[..i])
    {
      assert i < |front| ==> sizes[..i] == front[..i];
    }
  }

  // ----- writes

  /** The byte at an offset of an allocation. */
  predicate ByteIs(s: System, id: nat, k: nat, b: byte) {
    && id < |s.history| && k < s.history[id].size && s.history[id].begin + k < |s.ring.buf|
    && s.ring.buf[s.history[id].begin + k] == b
  }

  /** A write stores its byte at its place, and changes no other. */
  lemma WriteStores(s: System, id: nat, k: nat, b: byte)
    requires Inv(s) && Enabled(s, Write(id, k, b)) && Safe(s, Write(id, k, b))
    ensures
      var (t, at) := (Do(s, Write(id, k, b)), s.history[id].begin + k);
      && ByteIs(t, id, k, b) && at < |s.ring.buf| == |t.ring.buf| && t.history == s.history
      && forall i :: 0 <= i < |s.ring.buf| && i != at ==> t.ring.buf[i] == s.ring.buf[i]
  {
    hide Chain, Mapped, Contents, Past, Consuming, Id64, Key;
    HandleFindsIts(s, id);
  }

  /** The logger's stamp changes one byte of the packet it holds, and no other. */
  lemma StampStores(s: System, k: nat, b: byte)
    requires Inv(s) && Enabled(s, Stamp(k, b)) && Safe(s, Stamp(k, b))
    ensures
      var (t, at) := (Do(s, Stamp(k, b)), s.history[s.first].begin + k);
      && ByteIs(t, s.first, k, b) && at < |s.ring.buf| == |t.ring.buf|
      && forall i :: 0 <= i < |s.ring.buf| && i != at ==> t.ring.buf[i] == s.ring.buf[i]
  {
    hide Chain, Mapped, Contents, Past, Id64, Key;
  }

  /** A byte of an allocation whose producer has not finished is changed by no step but its own writes to it. */
  lemma ByteStays(s: System, step: Step, id: nat, k: nat, b: byte)
    requires Inv(s) && Enabled(s, step) && Safe(s, step) && Owned(s, id) && ByteIs(s, id, k, b)
    requires !(step.Write? && step.id == id && step.k == k)
    ensures ByteIs(Do(s, step), id, k, b)
  {
    hide Chain, Mapped, Contents, Id64, Key;
    match step
    case Write(other, l, c) =>
      WriteStores(s, other, l, c);
      HandleFindsIts(s, id);
      HandleFindsIts(s, other);
      if other != id {
        LiveDisjoint(s, if id < other then id else other, if id < other then other else id);
      }
    case Stamp(l, c) =>
      StampStores(s, l, c);
      HandleFindsIts(s, id);
      LiveDisjoint(s, s.first, id);
    case _ =>
  }

  /** An allocation is its producer's until the step that finishes it. */
  lemma {:induction false} OwnedUntil(states: seq<System>, steps: seq<Step>, n: nat, i: nat, id: nat)
    requires IsRun(states, steps) && n <= i < |steps| && steps[i] == Finish(id) && id < |states[n].history|
    ensures Owned(states[n], id)
  {
    hide Inv, Do, Safe, Init, Next;
    RunExtends(states, steps, n, i);
    StepIsEnabled(states, steps, i);
    RunsAreSafe(states, steps, n);
    RunsAreSafe(states, steps, i);
    DummyStays(states, steps, n, i, id);
  }

  lemma {:induction false} DummyStays(states: seq<System>, steps: seq<Step>, n: nat, i: nat, id: nat)
    requires IsRun(states, steps) && n <= i < |states| && id < |states[n].history|
    ensures id < |states[i].history| && states[i].history[id].dummy == states[n].history[id].dummy
    decreases i - n
  {
    hide Inv, Safe, Enabled, Init, Next, Do;
    if n < i {
      DummyStays(states, steps, n, i - 1, id);
      RunsAreSafe(states, steps, i);
      StepIsEnabled(states, steps, i - 1);
      StepKeepsDummy(states[i - 1], steps[i - 1], id);
    }
  }

  lemma StepKeepsDummy(s: System, step: Step, id: nat)
    requires Enabled(s, step) && Safe(s, step) && id < |s.history|
    ensures id < |Do(s, step).history| && Do(s, step).history[id].dummy == s.history[id].dummy
  {
    hide AllocInner, NewRecord, Store, Populate, Dequeue, LastUnread;
  }

  lemma {:induction false} ByteUntil(states: seq<System>, steps: seq<Step>, w: nat, n: nat, i: nat, id: nat, k: nat, b: byte)
    requires IsRun(states, steps) && w < n <= i < |steps| && steps[w] == Write(id, k, b) && steps[i] == Finish(id)
    requires forall m :: w < m < i ==> !(steps[m].Write? && steps[m].id == id && steps[m].k == k)
    ensures ByteIs(states[n], id, k, b)
    decreases n
  {
    hide Inv, Do, Safe, Enabled, Init, Next, ByteIs, Owned;
    RunsAreSafe(states, steps, n);
    if n == w + 1 {
      RunsAreSafe(states, steps, w);
      WriteStores(states[w], id, k, b);
    } else {
      ByteUntil(states, steps, w, n - 1, i, id, k, b);
      RunsAreSafe(states, steps, n - 1);
      InHistory(states[n - 1], id, k, b);
      OwnedUntil(states, steps, n - 1, i, id);
      ByteStays(states[n - 1], steps[n - 1], id, k, b);
    }
  }

  lemma InHistory(s: System, id: nat, k: nat, b: byte)
    ensures ByteIs(s, id, k, b) ==> id < |s.history|
  {
  }

  /**
    What was written is what is delivered: in every run, byte k of a packet handed to the logger is
    the last byte that its producer wrote there before populating it.
  */
  lemma LastWriteDelivered(states: seq<System>, steps: seq<Step>, w: nat, i: nat, j: nat, id: nat, k: nat, b: byte)
    requires IsRun(states, steps) && w < i < j < |states| && id < states[j].first
    requires steps[w] == Write(id, k, b) && steps[i] == Finish(id)
    requires forall m :: w < m < i ==> !(steps[m].Write? && steps[m].id == id && steps[m].k == k)
    ensures id < |states[j].history|
    ensures
      var (s, at) := (states[j], |PacketsTo(states[j].history, id)|);
      at < |s.out| && k < |s.out[at].bytes| && s.out[at].bytes[k] == b
  {
    hide Inv, Do, Safe, Enabled, Init, Next, PacketsTo;
    ByteUntil(states, steps, w, i, i, id, k, b);
    PopulatedBytesDelivered(states, steps, i, j, id);
    RunExtends(states, steps, i, i + 1);
  }
}
