/** core/src/ipc_channel.c over the real buffer. Competitors run real operations on
    the same buffer between the calls of this thread; the clock and the ends of the
    futex waits come from outside. */
module Channel {
  import opened Words
  import opened RingModel
  import opened Wrappers
  import opened Fifo
  import opened Buffer
  import opened ChannelSpec

  type u32 = x: int | 0 <= x < 0x1_0000_0000

  ghost function WorldOf(b: IpcBuffer): World
    reads b
  {
    World(b.ring, IsLocked(b.head), IsLocked(b.tail))
  }

  /** Payload sizes for which rounding the entry size does not overflow. */
  predicate Sendable(actions: seq<Action>) {
    forall i :: 0 <= i < |actions| && actions[i].Publish? ==> |actions[i].payload| + 31 < WORD
  }

  ghost predicate SendableOutside(o: Outside) {
    forall k: nat :: Sendable(o.actions(k))
  }

  /** Flipping a lock bit changes nothing but that bit. */
  method SetLocks(b: IpcBuffer, headLocked: bool, tailLocked: bool)
    requires b.Valid()
    modifies b`head, b`tail
    ensures b.Valid() && WorldOf(b) == World(b.ring, headLocked, tailLocked)
  {
    hide Relative, Lock, Unlock, IsLocked, Aligned8, Wrap;
    LockBit(b.head);
    LockBit(b.tail);
    LockBelowWord(b.head);
    LockBelowWord(b.tail);
    b.head := if headLocked then Lock(b.head) else Unlock(b.head);
    b.tail := if tailLocked then Lock(b.tail) else Unlock(b.tail);
  }

  /** One competitor acts on the buffer. */
  method Interfere(b: IpcBuffer, action: Action)
    requires b.Valid() && Sendable([action])
    modifies b`head, b`tail, b`ring, b.data
    ensures b.Valid() && WorldOf(b) == Act(old(WorldOf(b)), action)
  {
    hide Relative, Lock, Unlock, IsLocked, Aligned8, Wrap;
    assert [action][0] == action;
    var headLocked, tailLocked := IsLocked(b.head), IsLocked(b.tail);
    match action
    case Publish(payload) => var _ := b.Write(payload);
    case Take => var _, _ := b.SkipForce();
    case LockHead => SetLocks(b, true, tailLocked);
    case UnlockHead => SetLocks(b, false, tailLocked);
    case LockTail => SetLocks(b, headLocked, true);
    case UnlockTail => SetLocks(b, headLocked, false);
  }

  /** Competitors act, one after the other. */
  method InterfereAll(b: IpcBuffer, actions: seq<Action>)
    requires b.Valid() && Sendable(actions)
    modifies b`head, b`tail, b`ring, b.data
    ensures b.Valid() && WorldOf(b) == Perform(old(WorldOf(b)), actions)
  {
    hide Relative, Lock, Unlock, IsLocked, Aligned8, Wrap, RingInv, Act;
    var i := 0;
    while i < |actions|
      invariant i <= |actions| && b.Valid()
      invariant Perform(WorldOf(b), actions[i..]) == old(Perform(WorldOf(b), actions))
    {
      assert actions[i..][0] == actions[i] && actions[i..][1..] == actions[i + 1..];
      Interfere(b, actions[i]);
      i := i + 1;
    }
  }

  class IpcChannel {
    var notify: u32
    const buffer: IpcBuffer

    ghost predicate Valid()
      reads this, buffer, buffer.data
    {
      buffer.Valid()
    }

    constructor (b: IpcBuffer)
      requires b.Valid()
      ensures Valid() && buffer == b && notify == 0
    {
      notify := 0;
      buffer := b;
    }

    /** The notification word counts, modulo 2^32, the writes that succeeded or
        found no space; no other result touches it. */
    method Write(payload: seq<byte>) returns (status: Status)
      requires Valid() && |payload| + 31 < WORD
      modifies this`notify, buffer`tail, buffer`ring, buffer.data
      ensures Valid()
      ensures (status, buffer.ring) == WriteCall(old(buffer.ring), IsLocked(buffer.tail), payload)
      ensures IsLocked(buffer.tail) == old(IsLocked(buffer.tail))
      ensures notify == if status != Ok && status != NoSpaceContiguous then old(notify)
                        else if old(notify) == 0xFFFF_FFFF then 0 else old(notify) + 1
    {
      status := buffer.Write(payload);
      if status == Ok || status == NoSpaceContiguous {
        notify := if notify == 0xFFFF_FFFF then 0 else notify + 1;
      }
    }

    /** Growing the caller's entry to the peeked size, as malloc and realloc do. */
    method Grow(dest: IpcEntry, size: u64)
      requires dest.payload != null ==> dest.size == dest.payload.Length
      modifies dest`size, dest`payload
      ensures dest.payload != null && dest.size == dest.payload.Length
      ensures dest.payload != old(dest.payload) ==> fresh(dest.payload)
      ensures dest.size == if old(dest.payload) == null || old(dest.size) < size then size else old(dest.size)
    {
      if dest.payload == null {
        dest.payload := new byte[size];
        dest.size := size;
      } else if dest.size < size {
        var grown := new byte[size];
        forall i | 0 <= i < dest.payload.Length {
          grown[i] := dest.payload[i];
        }
        dest.payload := grown;
        dest.size := size;
      }
    }

    /** One round of _try_read: peek, grow the buffer to what was peeked, read.
        Competitors act before the read. */
    method Attempt(dest: IpcEntry, actions: seq<Action>) returns (peeked: Status, status: Status)
      requires Valid() && Sendable(actions)
      requires if dest.payload == null then dest.size == 0
               else dest.payload != buffer.data && dest.size == dest.payload.Length
      modifies buffer`head, buffer`tail, buffer`ring, buffer.data, dest, dest.payload
      ensures Valid()
      ensures peeked == PeekStatus(old(WorldOf(buffer)))
      ensures peeked != Ok ==> WorldOf(buffer) == PeekWorld(old(WorldOf(buffer)))
      ensures dest.payload != old(dest.payload) ==> fresh(dest.payload)
      ensures peeked == Ok ==>
                var room := GrownRoom(old(WorldOf(buffer)), old(dest.size));
                var w1 := Perform(PeekWorld(old(WorldOf(buffer))), actions);
                && status == ReadStatus(w1, room) && WorldOf(buffer) == ReadWorld(w1, room)
                && dest.payload != null && dest.payload.Length == room
                && (status != Ok ==> dest.size == room)
                && (status == Ok ==> Queue(w1.ring) != [] && Delivered(dest, FrontEntry(w1.ring.live)))
    {
      hide Relative, Lock, Unlock, IsLocked, Aligned8, Wrap, RingInv, Perform, Fifo.ReadCall, PeekCall, Payloads, FrontEntry, Stored;
      ghost var w, room := WorldOf(buffer), dest.size;
      var offset, size, position;
      peeked, offset, size, position := buffer.Peek();
      status := peeked;
      if peeked != Ok {
        return;
      }
      Grow(dest, size);
      InterfereAll(buffer, actions);
      status := buffer.Read(dest);
    }

    /** _try_read, called with an entry that has no buffer yet. Before every read of
        the buffer, dest.size is the allocated capacity. It returns the next gap. */
    method TryReadInto(dest: IpcEntry, o: Outside, k: nat, ghost bound: nat) returns (status: Status, gap: nat)
      requires Valid() && dest.payload == null && dest.size == 0
      requires SendableOutside(o) && NoTakeFrom(o.actions, bound)
      modifies buffer`head, buffer`tail, buffer`ring, buffer.data, dest
      ensures Valid()
      ensures var t := ChannelSpec.TryRead(old(WorldOf(buffer)), o.actions, k, 0, bound);
              && status == t.status && gap == t.gap && WorldOf(buffer) == t.world
              && (status == Ok ==> t.entry.Some? && Delivered(dest, t.entry.value)
                                   && dest.payload.Length == t.room)
      ensures dest.payload != null ==> fresh(dest.payload)
    {
      hide Relative, Lock, Unlock, IsLocked, Aligned8, Wrap, RingInv, Perform, Fifo.ReadCall, PeekCall, Payloads, FrontEntry, Stored, GrownRoom, PeekWorld, ReadWorld, Act, Delivered;
      ghost var t := ChannelSpec.TryRead(WorldOf(buffer), o.actions, k, 0, bound);
      gap := k;
      while true
        invariant Valid()
        invariant if dest.payload == null then dest.size == 0
                  else fresh(dest.payload) && dest.size == dest.payload.Length
        invariant t == ChannelSpec.TryRead(WorldOf(buffer), o.actions, gap, dest.size, bound)
        decreases bound - gap
      {
        ghost var w, room := WorldOf(buffer), dest.size;
        var peeked;
        peeked, status := Attempt(dest, o.actions(gap));
        if peeked != Ok {
          return peeked, gap;
        }
        gap := gap + 1;
        if status != TooSmall {
          return;
        }
        TooSmallNeedsAdvance(w, o.actions(gap - 1), room);
        InterfereAll(buffer, o.actions(gap));
        gap := gap + 1;
      }
    }

    /** ipc_channel_try_read: the caller's entry is filled on OK and otherwise left
        alone. */
    method TryRead(dest: IpcEntry, o: Outside, ghost bound: nat) returns (status: Status)
      requires Valid() && SendableOutside(o) && NoTakeFrom(o.actions, bound)
      modifies buffer`head, buffer`tail, buffer`ring, buffer.data, dest
      ensures Valid()
      ensures var t := ChannelSpec.TryRead(old(WorldOf(buffer)), o.actions, 0, 0, bound);
              && status == t.status && WorldOf(buffer) == t.world
              && (status == Ok ==> t.entry.Some? && Delivered(dest, t.entry.value) && fresh(dest.payload))
      ensures status != Ok ==> unchanged(dest)
    {
      hide Relative, Lock, Unlock, IsLocked, Aligned8, Wrap, RingInv, Perform, Payloads, FrontEntry, Stored, ChannelSpec.TryRead;
      var readEntry := new IpcEntry();
      var gap;
      status, gap := TryReadInto(readEntry, o, 0, bound);
      if status == Ok {
        HandOver(readEntry, dest);
      }
    }

    method HandOver(source: IpcEntry, dest: IpcEntry)
      modifies dest
      ensures dest.payload == source.payload && dest.size == source.size && dest.offset == source.offset
    {
      dest.payload, dest.size, dest.offset := source.payload, source.size, source.offset;
    }

    /** The futex wait: it gets a normalised timespec that is exactly the part of the
        timeout that has not elapsed, which is not zero. How the wait ends is decided
        outside. */
    method FutexWait(expected: u32, timespec: Timespec, outcome: WaitResult, ghost timeout: u64, ghost elapsed: u64)
      returns (result: WaitResult)
      requires elapsed < timeout
      requires NonNegative(timespec) && timespec.nsec < NANOS_PER_SEC && ToNanos(timespec) == timeout - elapsed
      ensures result == outcome
    {
      result := outcome;
    }

    /** The first half of the loop body of ipc_channel_read: peek and, when there is
        something, read it into a fresh entry and hand that over. */
    method PeekAndRead(dest: IpcEntry, o: Outside, k: nat, ghost bound: nat) returns (peeked: Status, status: Status)
      requires Valid() && SendableOutside(o) && NoTakeFrom(o.actions, bound)
      modifies buffer`head, buffer`tail, buffer`ring, buffer.data, dest
      ensures Valid()
      ensures peeked == PeekStatus(old(WorldOf(buffer)))
      ensures peeked != Ok ==> WorldOf(buffer) == PeekWorld(old(WorldOf(buffer))) && unchanged(dest)
      ensures peeked == Ok ==>
                var t := ChannelSpec.TryRead(Perform(PeekWorld(old(WorldOf(buffer))), o.actions(k)), o.actions, k + 1, 0, bound);
                && status == t.status && (IsRetry(status) || (status == Ok && t.entry.Some?)) && WorldOf(buffer) == t.world
                && (if status == Ok then Delivered(dest, t.entry.value) && fresh(dest.payload) else unchanged(dest))
    {
      hide Relative, Lock, Unlock, IsLocked, Aligned8, Wrap, RingInv, Perform, Payloads, FrontEntry, Stored, PeekCall, ChannelSpec.TryRead;
      var offset, size, position;
      peeked, offset, size, position := buffer.Peek();
      status := peeked;
      if peeked == Ok {
        InterfereAll(buffer, o.actions(k));
        TryReadStatus(WorldOf(buffer), o.actions, k + 1, 0, bound);
        var readEntry := new IpcEntry();
        var gap;
        status, gap := TryReadInto(readEntry, o, k + 1, bound);
        if status == Ok {
          HandOver(readEntry, dest);
        }
      }
    }

    /** ipc_channel_read. Reading 0 of the clock is the start; the caller's entry is
        filled exactly when an entry was delivered. */
    method Read(dest: IpcEntry, timeout: Timespec, o: Outside, ghost bound: nat) returns (status: Status)
      requires Valid() && SendableOutside(o) && NoTakeFrom(o.actions, bound) && WorkingClock(o, timeout)
      modifies buffer`head, buffer`tail, buffer`ring, buffer.data, dest
      ensures Valid()
      ensures var r := ChannelRead(old(WorldOf(buffer)), o, timeout, bound);
              && status == r.status && WorldOf(buffer) == r.world
              && (if r.entry.Some? then Delivered(dest, r.entry.value) && fresh(dest.payload) else unchanged(dest))
    {
      hide Relative, Lock, Unlock, IsLocked, Aligned8, Wrap, RingInv, Perform, Payloads, FrontEntry, Stored, PeekCall, ChannelSpec.TryRead, PeekWorld, Act, ToNanos;
      if timeout.nsec < 0 || timeout.sec < 0 {
        return InvalidArgument;
      }
      if o.clock(0) == None {
        return SystemError;
      }
      var start, timeoutNanos := ToNanos(o.clock(0).value), ToNanos(timeout);
      var k, c := 0, 1;
      while true
        invariant Valid() && unchanged(dest)
        invariant ReadLoop(WorldOf(buffer), o, k, c, start, timeoutNanos, bound)
                  == ReadLoop(old(WorldOf(buffer)), o, 0, 1, start, timeoutNanos, bound)
        decreases Left(o, start, timeoutNanos, c)
      {
        var peeked;
        peeked, status := PeekAndRead(dest, o, k, bound);
        if peeked == Ok {
          if IsError(status) || status == Ok {
            return;
          }
        }
        if !IsRetry(peeked) {
          return peeked;
        }
        if o.clock(c) == None {
          return SystemError;
        }
        var elapsed: u64 := Sub64(ToNanos(o.clock(c).value), start);
        if timeoutNanos <= elapsed {
          return Timeout;
        }
        var remaining: u64 := timeoutNanos - elapsed;
        RemainingRoundTrip(remaining);
        var expected := notify;
        var waited := FutexWait(expected, Remaining(remaining), o.waits(c), timeoutNanos, elapsed);
        if waited == WaitFailed {
          return SystemError;
        }
        InterfereAll(buffer, o.actions(k));
        k, c := k + 1, c + 1;
      }
    }
  }
}
