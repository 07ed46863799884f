/** The ring buffer object: each method is one region under the ring's locks. */
module RingBuffers {
  import opened Bytes
  import opened WireFormat
  import opened RingState
  import R = RingState

  class RingBuffer {
    const cap: nat
    const buf: array<byte>
    var write: nat
    var used: nat
    var allocations: map<nat, Allocation>
    var nextId: nat
    var unfreed: nat

    ghost predicate Valid()
      reads this
    {
      buf.Length == cap && write <= cap
    }

    ghost function State(): Ring
      reads this, buf
    {
      Ring(cap, write, used, allocations, nextId, unfreed, buf[..])
    }

    constructor (size: nat)
      ensures Valid() && fresh(buf) && cap == size
      ensures State() == Ring(size, 0, 0, map[], 0, 0, seq(size, _ => 0))
    {
      cap := size;
      buf := new byte[size](_ => 0);
      write, used, nextId, unfreed := 0, 0, 0, 0;
      allocations := map[];
    }

    method AllocInner(size: nat, tag: Tag) returns (r: Option<Allocation>)
      requires Valid() && Room(State(), size)
      modifies this
      ensures Valid() && (State(), r) == R.AllocInner(old(State()), size, tag)
    {
      if size != 0 && write + size <= cap {
        var a := Allocation(size, write, Empty, nextId, tag);
        nextId := Id64(nextId + 1);
        allocations := allocations[Key(a.id) := a];
        used := Word(used + size);
        write := write + size;
        r := Some(a);
      } else {
        var a := Allocation(cap - write, write, Dummy, nextId, NO_TAG);
        nextId := Id64(nextId + 1);
        allocations := allocations[Key(a.id) := a];
        used := Word(used + if a.size == 0 then 1 else a.size);
        write := 0;
        r := None;
      }
    }

    method HandleToAddress(handle: nat) returns (at: nat)
      requires Key(handle) in allocations
      ensures at == allocations[Key(handle)].begin
    {
      at := allocations[Key(handle)].begin;
    }

    method StoreByte(handle: nat, k: nat, b: byte)
      requires Valid() && Handled(State(), handle) && k < allocations[Key(handle)].size
      modifies buf
      ensures Valid() && State() == Store(old(State()), handle, k, b)
    {
      var at := HandleToAddress(handle);
      buf[at + k] := b;
    }

    method Populate(handle: nat)
      requires Valid() && Handled(State(), handle) && allocations[Key(handle)].kind.Empty?
      modifies this`allocations
      ensures Valid() && State() == R.Populate(old(State()), handle)
    {
      var a := allocations[Key(handle)];
      allocations := allocations[Key(handle) := a.(kind := Populated)];
    }

    method LastUnread() returns (r: Unread)
      requires Valid() && used > 0 && HeadPresent(State())
      ensures r == R.LastUnread(State())
    {
      if allocations == map[] {
        return Nothing;
      }
      var a := allocations[Key(unfreed)];
      if a.kind == Populated {
        var at := HandleToAddress(unfreed);
        return Packet(at, a.size, a.tag);
      }
      return if a.kind == Dummy then Padding else Nothing;
    }

    method Dequeue() returns (ok: bool)
      requires Valid() && used > 0 && HeadPresent(State())
      modifies this
      ensures Valid() && (State(), ok) == R.Dequeue(old(State()))
    {
      if allocations == map[] || allocations[Key(unfreed)].kind == Empty {
        return false;
      }
      var a := allocations[Key(unfreed)];
      allocations := allocations - {Key(a.id)};
      unfreed := Id64(unfreed + 1);
      used := Word(used - a.size);
      ok := true;
    }
  }
}
