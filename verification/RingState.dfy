/**
  The state of the ring buffer between the producers and the logger thread, and what each region
  under the ring's locks does to it.
*/
module RingState {
  import opened Bytes
  import opened WireFormat

  const LIMIT64: nat := 0x1_0000_0000_0000_0000

  datatype Kind = Empty | Dummy | Populated

  /** What a packet is tagged with: its schema text, type name and topic hash. */
  datatype Tag = Tag(metadata: string, typeName: string, topic: nat)

  const NO_TAG := Tag("", "", 0)

  datatype Allocation = Allocation(size: nat, begin: nat, kind: Kind, id: nat, tag: Tag)

  /** What the consumer is told about the oldest allocation. */
  datatype Unread = Nothing | Padding | Packet(begin: nat, size: nat, tag: Tag)

  datatype Ring = Ring(cap: nat, write: nat, used: nat, allocations: map<nat, Allocation>,
                       nextId: nat, unfreed: nat, buf: seq<byte>)

  /** A uint64_t counter's value. */
  function Id64(n: nat): nat {
    n % LIMIT64
  }

  /** A uint32_t variable's value. */
  function Word(n: int): nat {
    n % LIMIT32
  }

  /** The map's key type is uint32_t, so ids are cut to 32 bits. */
  function Key(id: nat): nat {
    id % LIMIT32
  }

  /** The condition the producer waits for. */
  predicate Room(r: Ring, size: nat) {
    r.cap - r.used > size
  }

  /** One round of alloc: the space at the write position, or padding up to the end of the buffer. */
  function AllocInner(r: Ring, size: nat, tag: Tag): (Ring, Option<Allocation>)
    requires r.write <= r.cap
  {
    if size != 0 && r.write + size <= r.cap then
      var a := Allocation(size, r.write, Empty, r.nextId, tag);
      (Taken(r, a, size, r.write + size), Some(a))
    else
      var pad := r.cap - r.write;
      var a := Allocation(pad, r.write, Dummy, r.nextId, NO_TAG);
      (Taken(r, a, if pad == 0 then 1 else pad, 0), None)
  }

  function Taken(r: Ring, a: Allocation, n: nat, write: nat): Ring {
    r.(allocations := r.allocations[Key(a.id) := a], nextId := Id64(r.nextId + 1),
       used := Word(r.used + n), write := write)
  }

  /** Producers hold a handle and look its allocation up each time. */
  predicate Handled(r: Ring, handle: nat) {
    && Key(handle) in r.allocations
    && r.allocations[Key(handle)].begin + r.allocations[Key(handle)].size <= |r.buf|
  }

  /** A producer's unlocked store of one byte into its allocation. */
  function Store(r: Ring, handle: nat, k: nat, b: byte): Ring
    requires Handled(r, handle) && k < r.allocations[Key(handle)].size
  {
    r.(buf := r.buf[r.allocations[Key(handle)].begin + k := b])
  }

  function Populate(r: Ring, handle: nat): Ring
    requires Handled(r, handle)
  {
    r.(allocations := r.allocations[Key(handle) := r.allocations[Key(handle)].(kind := Populated)])
  }

  /** Looking a missing key up would create an entry, so the oldest allocation must be there. */
  predicate HeadPresent(r: Ring) {
    r.allocations != map[] ==> Key(r.unfreed) in r.allocations
  }

  function LastUnread(r: Ring): Unread
    requires HeadPresent(r)
  {
    if r.allocations == map[] then Nothing
    else
      var a := r.allocations[Key(r.unfreed)];
      match a.kind
      case Empty => Nothing
      case Dummy => Padding
      case Populated => Packet(a.begin, a.size, a.tag)
  }

  function Dequeue(r: Ring): (Ring, bool)
    requires HeadPresent(r)
  {
    if r.allocations == map[] || r.allocations[Key(r.unfreed)].kind.Empty? then (r, false)
    else
      var a := r.allocations[Key(r.unfreed)];
      (r.(allocations := r.allocations - {Key(a.id)}, unfreed := Id64(r.unfreed + 1),
          used := Word(r.used - a.size)), true)
  }
}
