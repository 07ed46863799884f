/**
  Many producers and one logger thread over the ring buffer, as a step system whose atomic steps
  are the lock regions and the unlocked accesses of single bytes. The history is a ghost: it
  gives every allocation an id and a position that never wrap.
*/
module RingProtocol {
  import opened Bytes
  import opened WireFormat
  import opened RingState

  /**
    An allocation ever made. Positions count all bytes ever allocated; base is the position at
    which its lap of the buffer starts. The content is set by populate.
  */
  datatype Record = Record(size: nat, begin: nat, pos: nat, base: nat, dummy: bool, tag: Tag,
                           content: Option<seq<byte>>)

  datatype Delivered = Delivered(tag: Tag, bytes: seq<byte>)

  /** Where the logger thread is between lastUnread and dequeue. */
  datatype Consumer =
    | Idle
    | Skipping
    | Reading(begin: nat, size: nat, tag: Tag, got: seq<byte>)
    | Holding(begin: nat, size: nat)

  datatype System = System(ring: Ring, history: seq<Record>, first: nat, consumer: Consumer, out: seq<Delivered>)

  datatype Step =
    | Alloc(size: nat, tag: Tag)
    | Write(id: nat, k: nat, b: byte)
    | Finish(id: nat)
    | Peek
    | ReadByte
    | Process
    | Stamp(k: nat, b: byte)
    | Free

  ghost predicate Init(s: System) {
    && 0 < s.ring.cap < 0x8000_0000 && |s.ring.buf| == s.ring.cap
    && s == System(Ring(s.ring.cap, 0, 0, map[], 0, 0, s.ring.buf), [], 0, Idle, [])
  }

  /** A producer owns what it allocated until it has populated it. */
  predicate Owned(s: System, id: nat) {
    id < |s.history| && !s.history[id].dummy && s.history[id].content.None?
  }

  /** The step is one that some thread can take: its wait condition holds and it is its turn. */
  predicate Enabled(s: System, step: Step) {
    match step
    case Alloc(size, _) => size > 0 && Room(s.ring, size)
    case Write(id, k, _) => Owned(s, id) && k < s.history[id].size
    case Finish(id) => Owned(s, id)
    case Peek => s.consumer.Idle? && s.ring.used > 0
    case ReadByte => s.consumer.Reading? && |s.consumer.got| < s.consumer.size
    case Process => s.consumer.Reading? && |s.consumer.got| == s.consumer.size
    case Stamp(k, _) => s.consumer.Holding? && k < s.consumer.size
    case Free => (s.consumer.Skipping? || s.consumer.Holding?) && s.ring.used > 0
  }

  /** The lookups find an allocation and the accesses are within the buffer. */
  predicate Safe(s: System, step: Step) {
    match step
    case Alloc(_, _) => s.ring.write <= s.ring.cap
    case Write(id, k, _) => Handled(s.ring, Id64(id)) && k < s.ring.allocations[Key(Id64(id))].size
    case Finish(id) => Handled(s.ring, Id64(id)) && s.ring.allocations[Key(Id64(id))].kind.Empty?
    case Peek => HeadPresent(s.ring)
    case ReadByte => s.consumer.Reading? && s.consumer.begin + |s.consumer.got| < |s.ring.buf|
    case Process => s.consumer.Reading?
    case Stamp(k, _) => s.consumer.Holding? && s.consumer.begin + k < |s.ring.buf|
    case Free => HeadPresent(s.ring)
  }

  /** The record of the allocation that alloc is about to make. */
  function NewRecord(s: System, size: nat, tag: Tag): Record
    requires s.ring.write <= s.ring.cap
  {
    var (pos, base) := (End(s.history), EndBase(s.ring.cap, s.history));
    if AllocInner(s.ring, size, tag).1.Some? then Record(size, s.ring.write, pos, base, false, tag, None)
    else Record(s.ring.cap - s.ring.write, s.ring.write, pos, base, true, NO_TAG, None)
  }

  function Do(s: System, step: Step): System
    requires Enabled(s, step) && Safe(s, step)
  {
    match step
    case Alloc(size, tag) =>
      s.(ring := AllocInner(s.ring, size, tag).0, history := s.history + [NewRecord(s, size, tag)])
    case Write(id, k, b) => s.(ring := Store(s.ring, Id64(id), k, b))
    case Finish(id) =>
      var a := s.ring.allocations[Key(Id64(id))];
      var content := s.ring.buf[a.begin..a.begin + a.size];
      s.(ring := Populate(s.ring, Id64(id)), history := s.history[id := s.history[id].(content := Some(content))])
    case Peek =>
      s.(consumer := match LastUnread(s.ring)
                     case Nothing => Idle
                     case Padding => Skipping
                     case Packet(begin, size, tag) => Reading(begin, size, tag, []))
    case ReadByte =>
      var c := s.consumer;
      s.(consumer := c.(got := c.got + [s.ring.buf[c.begin + |c.got|]]))
    case Process =>
      var c := s.consumer;
      s.(consumer := Holding(c.begin, c.size), out := s.out + [Delivered(c.tag, c.got)])
    case Stamp(k, b) => s.(ring := s.ring.(buf := s.ring.buf[s.consumer.begin + k := b]))
    case Free =>
      var (ring, ok) := Dequeue(s.ring);
      s.(ring := ring, first := if ok then s.first + 1 else s.first, consumer := Idle)
  }

  /** An unsafe step could lead anywhere. */
  ghost predicate Next(s: System, step: Step, t: System) {
    Enabled(s, step) && (Safe(s, step) ==> t == Do(s, step))
  }

  ghost predicate IsRun(states: seq<System>, steps: seq<Step>) {
    && |states| == |steps| + 1
    && Init(states[0])
    && forall i :: 0 <= i < |steps| ==> Next(states[i], steps[i], states[i + 1])
  }

  // ----- the history

  /** The position behind the last allocation. */
  function End(h: seq<Record>): nat {
    if h == [] then 0 else h[|h| - 1].pos + h[|h| - 1].size
  }

  function EndBase(cap: nat, h: seq<Record>): nat {
    if h == [] then 0 else h[|h| - 1].base + if h[|h| - 1].dummy then cap else 0
  }

  /** How many of the first n allocations were padding of no bytes. */
  function ZerosTo(h: seq<Record>, n: nat): nat
    requires n <= |h|
  {
    if n == 0 then 0 else ZerosTo(h, n - 1) + if h[n - 1].size == 0 then 1 else 0
  }

  function LiveSize(h: seq<Record>, first: nat): nat
    requires first <= |h|
    decreases |h| - first
  {
    if first == |h| then 0 else h[first].size + LiveSize(h, first + 1)
  }

  /** The packets among the first n allocations, in allocation order. */
  function PacketsTo(h: seq<Record>, n: nat): seq<Delivered>
    requires n <= |h|
  {
    if n == 0 then []
    else
      var r := h[n - 1];
      PacketsTo(h, n - 1) + if r.content.Some? then [Delivered(r.tag, r.content.value)] else []
  }

  // ----- the invariant

  predicate GoodRecord(cap: nat, r: Record) {
    && r.base + r.begin == r.pos
    && r.begin + r.size <= cap
    && (if r.dummy then r.begin + r.size == cap && r.content.None? else r.size > 0)
    && (r.content.Some? ==> |r.content.value| == r.size)
  }

  /** Each allocation starts where the one before it ends, or at the start of the next lap. */
  ghost predicate Chain(cap: nat, h: seq<Record>) {
    && (forall i :: 0 <= i < |h| ==> GoodRecord(cap, h[i]))
    && (h != [] ==> h[0].pos == 0 && h[0].base == 0)
    && (forall i, j :: 0 <= i < |h| && j == i + 1 < |h| ==>
          && h[j].pos == h[i].pos + h[i].size
          && h[j].base == h[i].base + if h[i].dummy then cap else 0)
  }

  function AllocationOf(id: nat, r: Record): Allocation {
    var kind := if r.dummy then Dummy else if r.content.Some? then Populated else Empty;
    Allocation(r.size, r.begin, kind, Id64(id), r.tag)
  }

  /** The map holds exactly the live allocations, each under its cut id. */
  ghost predicate Mapped(m: map<nat, Allocation>, h: seq<Record>, first: nat) {
    && (forall i :: first <= i < |h| ==> Key(i) in m && m[Key(i)] == AllocationOf(i, h[i]))
    && (forall k :: k in m ==> exists i :: first <= i < |h| && Key(i) == k)
  }

  ghost predicate Counts(s: System) {
    && 0 < s.ring.cap < 0x8000_0000 && |s.ring.buf| == s.ring.cap
    && s.first <= |s.history|
    && s.ring.nextId == Id64(|s.history|) && s.ring.unfreed == Id64(s.first)
    && s.ring.write + EndBase(s.ring.cap, s.history) == End(s.history) && s.ring.write <= s.ring.cap
    && s.ring.used == LiveSize(s.history, s.first) + ZerosTo(s.history, |s.history|)
    && s.ring.used < s.ring.cap
  }

  /** The buffer still holds what was there when the allocation was populated. */
  predicate Intact(buf: seq<byte>, r: Record) {
    r.begin + r.size <= |buf| && (r.content.Some? ==> buf[r.begin..r.begin + r.size] == r.content.value)
  }

  ghost predicate Contents(s: System) {
    forall i :: s.first <= i < |s.history| && !(i == s.first && s.consumer.Holding?) ==>
      Intact(s.ring.buf, s.history[i])
  }

  predicate Consuming(s: System) {
    && (s.consumer.Idle? ||
        (s.first < |s.history| &&
         var r := s.history[s.first];
         match s.consumer
         case Skipping => r.dummy
         case Reading(begin, size, tag, got) =>
           && begin == r.begin && size == r.size && tag == r.tag
           && r.content.Some? && |got| <= size == |r.content.value| && got == r.content.value[..|got|]
         case Holding(begin, size) => begin == r.begin && size == r.size && r.content.Some?))
  }

  ghost predicate Past(s: System) {
    && s.first <= |s.history|
    && (forall i :: 0 <= i < s.first ==> s.history[i].dummy || s.history[i].content.Some?)
    && (s.consumer.Holding? ==> s.first < |s.history|)
    && s.out == PacketsTo(s.history, if s.consumer.Holding? then s.first + 1 else s.first)
  }

  ghost predicate Inv(s: System) {
    && Chain(s.ring.cap, s.history)
    && Counts(s)
    && Mapped(s.ring.allocations, s.history, s.first)
    && Contents(s)
    && Consuming(s)
    && Past(s)
  }

  // ----- ids

  lemma KeyOfHandle(id: nat)
    ensures Key(Id64(id)) == Key(id)
  {
    assert id == id / LIMIT64 * LIMIT64 + id % LIMIT64;
    assert LIMIT64 == LIMIT32 * LIMIT32;
  }

  lemma KeysDiffer(i: nat, j: nat)
    requires i < j < i + LIMIT32
    ensures Key(i) != Key(j)
  {
  }

  lemma {:induction false} LiveCount(cap: nat, h: seq<Record>, first: nat)
    requires Chain(cap, h) && first <= |h|
    ensures |h| - first <= LiveSize(h, first) + ZerosTo(h, |h|) - ZerosTo(h, first)
    decreases |h| - first
  {
    if first < |h| {
      LiveCount(cap, h, first + 1);
    }
  }

  /** The window of live ids is never longer than the bytes in use, so cut ids do not collide. */
  lemma IdWindow(s: System)
    requires Inv(s)
    ensures |s.history| - s.first <= s.ring.used < LIMIT32
    ensures forall i, j :: s.first <= i < j < |s.history| ==> Key(i) != Key(j)
  {
    LiveCount(s.ring.cap, s.history, s.first);
    forall i, j | s.first <= i < j < |s.history|
      ensures Key(i) != Key(j)
    {
      KeysDiffer(i, j);
    }
  }

  /** A handle finds the allocation it was given out for. */
  lemma HandleFindsIts(s: System, id: nat)
    requires Inv(s) && Owned(s, id)
    ensures s.first <= id && Handled(s.ring, Id64(id))
    ensures s.ring.allocations[Key(Id64(id))] == AllocationOf(id, s.history[id])
  {
    KeyOfHandle(id);
  }

  lemma HeadFound(s: System)
    requires Inv(s)
    ensures HeadPresent(s.ring)
    ensures s.ring.allocations == map[] <==> s.first == |s.history|
    ensures s.first < |s.history| ==>
              Key(s.ring.unfreed) in s.ring.allocations
              && s.ring.allocations[Key(s.ring.unfreed)] == AllocationOf(s.first, s.history[s.first])
  {
    KeyOfHandle(s.first);
    if s.first == |s.history| {
      assert s.ring.allocations.Keys == {};
    }
  }

  // ----- disjointness

  lemma {:induction false} Laps(cap: nat, h: seq<Record>, i: nat, j: nat)
    requires Chain(cap, h) && i < j < |h|
    ensures h[j].base == h[i].base || h[j].base >= h[i].base + cap
    ensures h[j].pos >= h[i].pos + h[i].size
    ensures LiveSize(h, i) - LiveSize(h, j) == h[j].pos - h[i].pos
    decreases j - i
  {
    if j > i + 1 {
      Laps(cap, h, i + 1, j);
    }
  }

  /** Two live allocations never share a byte of the buffer. */
  lemma LiveDisjoint(s: System, i: nat, j: nat)
    requires Inv(s) && s.first <= i < j < |s.history|
    ensures var a, b := s.history[i], s.history[j];
            a.begin + a.size <= b.begin || b.begin + b.size <= a.begin
  {
    var h := s.history;
    Laps(s.ring.cap, h, i, j);
    LiveSizeFrom(s.ring.cap, h, s.first, i);
  }

  lemma {:induction false} LiveSizeFrom(cap: nat, h: seq<Record>, i: nat, j: nat)
    requires i <= j <= |h|
    ensures LiveSize(h, i) >= LiveSize(h, j)
    decreases j - i
  {
    if i < j {
      LiveSizeFrom(cap, h, i + 1, j);
    }
  }

  // ----- every step keeps the invariant

  /** In a reachable state no step's lookup fails and no access leaves the buffer. */
  lemma StepIsSafe(s: System, step: Step)
    requires Inv(s) && Enabled(s, step)
    ensures Safe(s, step)
  {
    match step
    case Write(id, _, _) => HandleFindsIts(s, id);
    case Finish(id) => HandleFindsIts(s, id);
    case Peek => HeadFound(s);
    case Free => HeadFound(s);
    case _ =>
  }

  lemma {:induction false} ZerosAppend(h: seq<Record>, r: Record, n: nat)
    requires n <= |h|
    ensures ZerosTo(h + [r], n) == ZerosTo(h, n)
  {
    if n > 0 {
      ZerosAppend(h, r, n - 1);
    }
  }

  lemma {:induction false} LiveSizeAppend(h: seq<Record>, r: Record, first: nat)
    requires first <= |h|
    ensures LiveSize(h + [r], first) == LiveSize(h, first) + r.size
    decreases |h| - first
  {
    if first < |h| {
      LiveSizeAppend(h, r, first + 1);
    }
  }

  lemma {:induction false} PacketsAppend(h: seq<Record>, r: Record, n: nat)
    requires n <= |h|
    ensures PacketsTo(h + [r], n) == PacketsTo(h, n)
  {
    if n > 0 {
      PacketsAppend(h, r, n - 1);
    }
  }

  /** Setting a content changes no sizes, and no packets of earlier allocations. */
  lemma {:induction false} ContentFrame(h: seq<Record>, id: nat, content: Option<seq<byte>>, first: nat, n: nat)
    requires id < |h| && first <= |h| && n <= |h|
    ensures LiveSize(h[id := h[id].(content := content)], first) == LiveSize(h, first)
    ensures ZerosTo(h[id := h[id].(content := content)], n) == ZerosTo(h, n)
    ensures n <= id ==> PacketsTo(h[id := h[id].(content := content)], n) == PacketsTo(h, n)
    decreases |h| - first, n
  {
    if first < |h| {
      ContentFrame(h, id, content, first + 1, n);
    }
    if n > 0 {
      ContentFrame(h, id, content, first, n - 1);
    }
  }

  lemma WordOfSmall(n: nat)
    requires n < LIMIT32
    ensures Word(n) == n
  {
  }

  lemma NextHandle(n: nat)
    ensures Id64(Id64(n) + 1) == Id64(n + 1)
  {
  }

  lemma AllocKeeps(s: System, size: nat, tag: Tag)
    requires Inv(s) && Enabled(s, Alloc(size, tag))
    ensures Inv(Do(s, Alloc(size, tag)))
  {
    hide Id64, Word, Contents, Past, Consuming, Mapped, Chain, Counts, AllocInner, NewRecord;
    AllocKeepsChain(s, size, tag);
    AllocKeepsCounts(s, size, tag);
    AllocKeepsMap(s, size, tag);
    AllocKeepsRest(s, size, tag);
  }

  lemma AllocKeepsChain(s: System, size: nat, tag: Tag)
    requires Inv(s) && Enabled(s, Alloc(size, tag))
    ensures var t := Do(s, Alloc(size, tag)); t.ring.cap == s.ring.cap && Chain(t.ring.cap, t.history)
  {
    hide Contents, Past, Consuming, Mapped;
    var h, r := s.history, NewRecord(s, size, tag);
    assert GoodRecord(s.ring.cap, r);
    assert r.pos == End(h) && r.base == EndBase(s.ring.cap, h);
  }

  lemma AllocKeepsCounts(s: System, size: nat, tag: Tag)
    requires Inv(s) && Enabled(s, Alloc(size, tag))
    ensures Counts(Do(s, Alloc(size, tag)))
  {
    hide Contents, Past, Consuming, Mapped, Chain, Id64, Word, Key;
    var h, r := s.history, NewRecord(s, size, tag);
    LiveSizeAppend(h, r, s.first);
    ZerosAppend(h, r, |h|);
    NextHandle(|h|);
    UsedBelowWrite(s, size);
    WordOfSmall(s.ring.used + r.size);
    WordOfSmall(s.ring.used + 1);
  }

  /** When a request does not fit behind the write position, fewer bytes are in use than lie before it. */
  lemma UsedBelowWrite(s: System, size: nat)
    requires Inv(s) && Room(s.ring, size)
    ensures s.ring.used + size < s.ring.cap
    ensures s.ring.write + size > s.ring.cap ==> s.ring.used + (s.ring.cap - s.ring.write) < s.ring.cap
  {
  }

  lemma AllocKeepsMap(s: System, size: nat, tag: Tag)
    requires Inv(s) && Enabled(s, Alloc(size, tag))
    ensures var t := Do(s, Alloc(size, tag)); Mapped(t.ring.allocations, t.history, t.first)
  {
    hide Id64, Word, Key, Chain, Contents, Past, Consuming;
    var h, r := s.history, NewRecord(s, size, tag);
    IdWindow(s);
    KeyOfHandle(|h|);
    MapAppend(s.ring.allocations, h, s.first, r);
  }

  lemma MapAppend(m: map<nat, Allocation>, h: seq<Record>, first: nat, r: Record)
    requires Mapped(m, h, first) && first <= |h| < first + LIMIT32 - 1
    ensures Mapped(m[Key(|h|) := AllocationOf(|h|, r)], h + [r], first)
  {
    hide Key, AllocationOf;
    var n := |h|;
    forall i | first <= i < n
      ensures Key(i) != Key(n)
    {
      KeysDiffer(i, n);
    }
    forall k | k in m
      ensures exists i :: first <= i < n + 1 && Key(i) == k
    {
      var i :| first <= i < n && Key(i) == k;
      assert i < n + 1;
    }
  }

  lemma AllocKeepsRest(s: System, size: nat, tag: Tag)
    requires Inv(s) && Enabled(s, Alloc(size, tag))
    ensures var t := Do(s, Alloc(size, tag)); Contents(t) && Consuming(t) && Past(t)
  {
    hide Chain, Mapped;
    var h, r := s.history, NewRecord(s, size, tag);
    PacketsAppend(h, r, if s.consumer.Holding? then s.first + 1 else s.first);
  }

  lemma WriteKeeps(s: System, id: nat, k: nat, b: byte)
    requires Inv(s) && Enabled(s, Write(id, k, b))
    ensures Safe(s, Write(id, k, b)) && Inv(Do(s, Write(id, k, b)))
  {
    hide Chain, Mapped;
    HandleFindsIts(s, id);
    var t := Do(s, Write(id, k, b));
    forall i | s.first <= i < |s.history| && !(i == s.first && s.consumer.Holding?)
      ensures Intact(t.ring.buf, t.history[i])
    {
      if i != id {
        LiveDisjoint(s, if i < id then i else id, if i < id then id else i);
        StoreElsewhere(s.ring.buf, s.history[id].begin + k, b, s.history[i].begin, s.history[i].size);
      }
    }
  }

  lemma StoreElsewhere(buf: seq<byte>, at: nat, b: byte, begin: nat, size: nat)
    requires at < |buf| && begin + size <= |buf| && !(begin <= at < begin + size)
    ensures buf[at := b][begin..begin + size] == buf[begin..begin + size]
  {
  }

  lemma StampKeeps(s: System, k: nat, b: byte)
    requires Inv(s) && Enabled(s, Stamp(k, b))
    ensures Safe(s, Stamp(k, b)) && Inv(Do(s, Stamp(k, b)))
  {
    hide Mapped;
    assert GoodRecord(s.ring.cap, s.history[s.first]);
    var t := Do(s, Stamp(k, b));
    forall i | s.first < i < |s.history|
      ensures Intact(t.ring.buf, t.history[i])
    {
      LiveDisjoint(s, s.first, i);
      StoreElsewhere(s.ring.buf, s.consumer.begin + k, b, s.history[i].begin, s.history[i].size);
    }
  }

  lemma FinishKeeps(s: System, id: nat)
    requires Inv(s) && Enabled(s, Finish(id))
    ensures Safe(s, Finish(id)) && Inv(Do(s, Finish(id)))
  {
    hide Mapped, Chain, Counts, Contents, Past, Consuming, PacketsTo;
    HandleFindsIts(s, id);
    FinishKeepsCounts(s, id);
    FinishKeepsMap(s, id);
    FinishKeepsRest(s, id);
  }

  lemma ContentChain(cap: nat, h: seq<Record>, id: nat, content: Option<seq<byte>>)
    requires Chain(cap, h) && id < |h| && !h[id].dummy
    requires content.Some? ==> |content.value| == h[id].size
    ensures Chain(cap, h[id := h[id].(content := content)])
    ensures End(h[id := h[id].(content := content)]) == End(h)
    ensures EndBase(cap, h[id := h[id].(content := content)]) == EndBase(cap, h)
  {
  }

  lemma FinishKeepsCounts(s: System, id: nat)
    requires Inv(s) && Enabled(s, Finish(id)) && Safe(s, Finish(id))
    ensures var t := Do(s, Finish(id)); Chain(t.ring.cap, t.history) && Counts(t)
  {
    hide Chain, GoodRecord, Contents, Past, Consuming, Id64, Word, Key, Mapped;
    HandleFindsIts(s, id);
    ContentChain(s.ring.cap, s.history, id, Do(s, Finish(id)).history[id].content);
    ContentFrame(s.history, id, Do(s, Finish(id)).history[id].content, s.first, |s.history|);
  }

  lemma FinishKeepsMap(s: System, id: nat)
    requires Inv(s) && Enabled(s, Finish(id)) && Safe(s, Finish(id))
    ensures var t := Do(s, Finish(id)); Mapped(t.ring.allocations, t.history, t.first)
  {
    hide Id64, Word, Key, Contents, Consuming, Chain;
    HandleFindsIts(s, id);
    KeyOfHandle(id);
    IdWindow(s);
    var t := Do(s, Finish(id));
    assert t.ring.allocations == s.ring.allocations[Key(id) := AllocationOf(id, t.history[id])];
    assert t.ring.allocations.Keys == s.ring.allocations.Keys;
  }

  lemma FinishKeepsRest(s: System, id: nat)
    requires Inv(s) && Enabled(s, Finish(id)) && Safe(s, Finish(id))
    ensures var t := Do(s, Finish(id)); Contents(t) && Consuming(t) && Past(t)
  {
    hide Chain, Mapped;
    HandleFindsIts(s, id);
    ContentFrame(s.history, id, Do(s, Finish(id)).history[id].content, s.first,
                 if s.consumer.Holding? then s.first + 1 else s.first);
  }

  lemma PeekKeeps(s: System)
    requires Inv(s) && Enabled(s, Peek)
    ensures Safe(s, Peek) && Inv(Do(s, Peek))
  {
    hide Chain, Mapped;
    HeadFound(s);
  }

  lemma ReadByteKeeps(s: System)
    requires Inv(s) && Enabled(s, ReadByte)
    ensures Safe(s, ReadByte) && Inv(Do(s, ReadByte))
  {
    hide Chain, Mapped;
    var r, n := s.history[s.first], |s.consumer.got|;
    assert Intact(s.ring.buf, r);
    assert s.ring.buf[r.begin..r.begin + r.size][n] == r.content.value[n];
    assert r.content.value[..n + 1] == r.content.value[..n] + [r.content.value[n]];
  }

  lemma ProcessKeeps(s: System)
    requires Inv(s) && Enabled(s, Process)
    ensures Inv(Do(s, Process))
  {
    hide Chain, Mapped;
    var r := s.history[s.first];
    assert r.content.value[..r.size] == r.content.value;
  }

  lemma FreeKeeps(s: System)
    requires Inv(s) && Enabled(s, Free)
    ensures Safe(s, Free) && Inv(Do(s, Free))
    ensures Do(s, Free).first == s.first + 1
  {
    hide Mapped, Counts;
    HeadFound(s);
    FreeKeepsCounts(s);
  }

  lemma FreeKeepsCounts(s: System)
    requires Inv(s) && Enabled(s, Free) && Safe(s, Free)
    ensures var t := Do(s, Free); Counts(t) && Mapped(t.ring.allocations, t.history, t.first)
  {
    hide Chain, Contents, Past, Id64, Word, Key, Mapped;
    HeadFound(s);
    KeyOfHandle(s.first);
    NextHandle(s.first);
    WordOfSmall(s.ring.used - s.history[s.first].size);
    MapRemove(s.ring.allocations, s.history, s.first, s);
  }

  lemma MapRemove(m: map<nat, Allocation>, h: seq<Record>, first: nat, s: System)
    requires Inv(s) && m == s.ring.allocations && h == s.history && first == s.first < |h|
    ensures Mapped(m - {Key(first)}, h, first + 1)
  {
    hide Contents, Past, Consuming, Chain, AllocationOf, Key;
    IdWindow(s);
    forall k | k in m && k != Key(first)
      ensures exists i :: first + 1 <= i < |h| && Key(i) == k
    {
      var i :| first <= i < |h| && Key(i) == k;
      assert i != first;
    }
  }

  /** Every step any thread can take is safe and keeps the invariant. */
  lemma StepKeeps(s: System, step: Step)
    requires Inv(s) && Enabled(s, step)
    ensures Safe(s, step) && Inv(Do(s, step))
  {
    hide Inv;
    StepIsSafe(s, step);
    match step
    case Alloc(size, tag) => AllocKeeps(s, size, tag);
    case Write(id, k, b) => WriteKeeps(s, id, k, b);
    case Finish(id) => FinishKeeps(s, id);
    case Peek => PeekKeeps(s);
    case ReadByte => ReadByteKeeps(s);
    case Process => ProcessKeeps(s);
    case Stamp(k, b) => StampKeeps(s, k, b);
    case Free => FreeKeeps(s);
  }
}
