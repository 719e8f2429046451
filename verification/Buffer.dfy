/** core/src/ipc_buffer.c run by one thread at a time: the real byte array, 64-bit
    wrapping offsets, and lock bits that may be held by somebody else. */
module Buffer {
  import opened Words
  import opened RingModel
  import opened Fifo

  /** The caller's IpcEntry: `size` is the room in `payload` on entry to a read, and
      0 when there is no payload yet. */
  class IpcEntry {
    var offset: u64
    var size: u64
    var payload: array?<byte>

    constructor ()
      ensures offset == 0 && size == 0 && payload == null
    {
      offset, size, payload := 0, 0, null;
    }
  }

  datatype EntryHeader = EntryHeader(seqno: u64, payloadSize: u64, entrySize: u64)

  /** The wrapped offsets decide what the true, ever-growing offsets would. */
  lemma WrappedOffsetsRefine(r: Ring)
    requires RingInv(r)
    ensures Relative(Wrap(r.head), r.cap) == Relative(r.head, r.cap)
    ensures Relative(Wrap(Tail(r)), r.cap) == Relative(Tail(r), r.cap)
    ensures Sub64(Wrap(Tail(r)), Wrap(r.head)) == Used(r)
    ensures Wrap(r.head) == Wrap(Tail(r)) <==> r.live == []
    ensures Aligned8(Wrap(r.head)) && Aligned8(Wrap(Tail(r)))
  {
    var h, t := r.head, Tail(r);
    RelativeOfWrap(h, r.cap);
    RelativeOfWrap(t, r.cap);
    WrapSub(t, h);
    assert r.live == [] <==> h == t by {
      if r.live != [] {
        TiledBounds(r.live, r.head, r.cap, 0);
      }
    }
    if Wrap(h) == Wrap(t) {
      WrapInjective(t, h);
    }
    OffsetsAligned(r);
  }

  lemma FreeSpaceRefines(r: Ring)
    requires RingInv(r)
    ensures Sub64(r.cap, Sub64(Wrap(Tail(r)), Wrap(r.head))) == Free(r)
  {
    FreeSpaceWraps(Tail(r), r.head, r.cap);
  }

  lemma RelativeOfWrap(x: nat, capacity: nat)
    requires IsPow2(capacity) && 0 < capacity <= HALF
    ensures Relative(Wrap(x), capacity) == Relative(x, capacity)
  {
    var laps := Pow2DividesWord(capacity);
    RelativeOfRelative(x, capacity, laps, WORD);
  }

  lemma PositionOfWrap(r: Ring, x: nat)
    requires RingInv(r)
    ensures Relative(Wrap(x), r.cap) == Relative(x, r.cap)
  {
    RelativeOfWrap(x, r.cap);
  }

  lemma OffsetsAligned(r: Ring)
    requires RingInv(r)
    ensures Aligned8(r.head) && Aligned8(Tail(r))
    ensures Aligned8(Wrap(r.head)) && Aligned8(Wrap(Tail(r)))
  {
    if 32 <= r.cap {
      TailIsBoundary(r);
    }
    WrapAligned(r.head);
    WrapAligned(Tail(r));
  }

  class IpcBuffer {
    var head: u64
    var tail: u64
    const dataSize: u64
    const data: array<byte>
    ghost var ring: Ring

    /** The offset words are the true offsets modulo 2^64 with a lock bit, and
        the bytes hold every live entry. A lock bit may be set: then another
        party is inside its critical section. */
    ghost predicate Valid()
      reads this, data
    {
      && data.Length == dataSize == ring.cap
      && RingInv(ring)
      && Unlock(head) == Wrap(ring.head)
      && Unlock(tail) == Wrap(Tail(ring))
      && Stored(data[..], ring)
    }

    constructor (capacity: u64)
      requires IsPow2(capacity) && 0 < capacity <= HALF
      ensures Valid() && fresh(data)
      ensures dataSize == capacity && head == 0 && tail == 0 && ring == Ring(capacity, 0, [])
    {
      data := new byte[capacity];
      dataSize := capacity;
      head, tail := 0, 0;
      ring := Ring(capacity, 0, []);
    }

    // ----------------------------------------------------------------
    // Atomic and memory primitives
    // ----------------------------------------------------------------

    method CasHead(expected: u64, desired: u64) returns (ok: bool)
      modifies this`head
      ensures ok == (old(head) == expected)
      ensures head == if ok then desired else old(head)
    {
      ok := head == expected;
      if ok { head := desired; }
    }

    method CasTail(expected: u64, desired: u64) returns (ok: bool)
      modifies this`tail
      ensures ok == (old(tail) == expected)
      ensures tail == if ok then desired else old(tail)
    {
      ok := tail == expected;
      if ok { tail := desired; }
    }

    method Store64(o: nat, n: u64)
      requires o + 8 <= data.Length
      modifies data
      ensures Wrote64(old(data[..]), data[..], o, n)
    {
      Put64Spec(data[..], o, n);
      ghost var m' := Put64(data[..], o, n);
      var bytes := WordBytes(n, data[o..o + 8]);
      forall i | 0 <= i < 8 {
        data[o + i] := bytes[i];
      }
      assert data[..] == m';
    }

    method CopyIn(o: nat, src: seq<byte>)
      requires o + |src| <= data.Length
      modifies data
      ensures SameOutside(old(data[..]), data[..], o, o + |src|) && BytesAt(data[..], o, src)
    {
      forall i | 0 <= i < |src| {
        data[o + i] := src[i];
      }
    }

    method CopyOut(o: nat, n: nat, dest: array<byte>)
      requires o + n <= data.Length && n <= dest.Length && dest != data
      modifies dest
      ensures dest[..n] == data[o..o + n]
      ensures dest[n..] == old(dest[n..])
    {
      forall i | 0 <= i < n {
        dest[i] := data[o + i];
      }
    }

    function Load64(o: nat): u64
      requires o + 8 <= data.Length
      reads data
    {
      Get64Bound(data[..], o);
      Get64(data[..], o)
    }

    // ----------------------------------------------------------------
    // Lock bits
    // ----------------------------------------------------------------

    method TryLockTail(offset: u64) returns (ok: bool)
      modifies this`tail
      ensures ok == (old(tail) == Unlock(offset))
      ensures tail == if ok then Lock(offset) else old(tail)
    {
      LockBelowWord(offset);
      ok := CasTail(Unlock(offset), Lock(offset));
    }

    method TryLockHead(offset: u64) returns (ok: bool)
      modifies this`head
      ensures ok == (old(head) == Unlock(offset))
      ensures head == if ok then Lock(offset) else old(head)
    {
      LockBelowWord(offset);
      ok := CasHead(Unlock(offset), Lock(offset));
    }

    method UnlockHead(offset: u64) returns (ok: bool)
      modifies this`head
      ensures ok == (old(head) == Lock(offset))
      ensures head == if ok then Unlock(offset) else old(head)
    {
      LockBelowWord(offset);
      ok := CasHead(Lock(offset), Unlock(offset));
    }

    // ----------------------------------------------------------------
    // ipc_buffer_write
    // ----------------------------------------------------------------

    method Write(payload: seq<byte>) returns (status: Status)
      requires Valid() && |payload| + 31 < WORD
      modifies this`tail, this`ring, data
      ensures Valid()
      ensures (status, ring) == WriteCall(old(ring), old(IsLocked(tail)), payload)
      ensures IsLocked(tail) == old(IsLocked(tail))
      decreases Free(ring)
    {
      if |payload| == 0 {
        return InvalidArgument;
      }
      var fullEntrySize: u64 := FullSize(|payload|);
      if fullEntrySize > dataSize {
        return EntryTooLarge;
      }
      WriteStep(ring, payload);
      var placeholder;
      status, placeholder := WriteOnce(payload, fullEntrySize);
      if status == Ok && placeholder {
        status := Write(payload);
      }
    }

    /** One pass: reserve, fill and commit either the entry or a placeholder. */
    method WriteOnce(payload: seq<byte>, fullEntrySize: u64) returns (status: Status, placeholder: bool)
      requires Valid() && 0 < |payload| && fullEntrySize == FullSize(|payload|) <= dataSize
      modifies this`tail, this`ring, data
      ensures Valid()
      ensures status == if old(IsLocked(tail)) then Locked
                        else if old(Free(ring)) < fullEntrySize then NoSpaceContiguous else Ok
      ensures status != Ok ==> ring == old(ring)
      ensures status == Ok ==> ring == AppendReserved(old(ring), payload)
      ensures status == Ok ==> placeholder == (old(ToWrap(ring)) < fullEntrySize + HEADER)
      ensures IsLocked(tail) == old(IsLocked(tail))
    {
      hide Relative, Lock, Unlock, IsLocked, Aligned8, Wrap, Get64, BytesAt;
      var t;
      status, t, placeholder := ReserveTail(fullEntrySize);
      if status != Ok {
        return;
      }
      ghost var entry := Reserved(ring, payload);
      ReservedFits(ring, payload);
      FillReserved(payload, fullEntrySize, t, placeholder);
      var committed := CommitTail(t, entry);
      status := if committed then Ok else IllegalState;
    }

    /** The stores made between taking the tail lock and the commit. */
    method FillReserved(payload: seq<byte>, fullEntrySize: u64, t: u64, placeholder: bool)
      requires Valid() && 0 < |payload| && fullEntrySize == FullSize(|payload|) <= Free(ring)
      requires t == Wrap(Tail(ring)) && placeholder == (ToWrap(ring) < fullEntrySize + HEADER)
      modifies data
      ensures Stored(data[..], ring) && InMemory(data[..], Reserved(ring, payload))
    {
      hide Relative, Lock, Unlock, IsLocked, Aligned8, Wrap, Get64, BytesAt;
      ghost var m, e := data[..], Reserved(ring, payload);
      ReservedFits(ring, payload);
      var relTail := Relative(t, dataSize);
      if placeholder {
        StoreEntry(relTail, [], dataSize - relTail, t);
      } else {
        StoreEntry(relTail, payload, fullEntrySize, t);
      }
      StoredFrame(m, data[..], ring, e.size);
    }

    /** The commit: the size added to the tail is read back from the entry. */
    method CommitTail(t: u64, ghost entry: Entry) returns (committed: bool)
      requires Valid() && tail == Lock(t) && t == Wrap(Tail(ring))
      requires entry.off == Tail(ring) && InMemory(data[..], entry)
      requires RingInv(Append(ring, entry.payload, entry.size))
      requires Tail(Append(ring, entry.payload, entry.size)) == Tail(ring) + entry.size
      modifies this`tail, this`ring
      ensures committed && Valid() && !IsLocked(tail)
      ensures ring == Append(old(ring), entry.payload, entry.size)
    {
      hide Relative, Lock, Unlock, IsLocked, Aligned8, Wrap, Get64, BytesAt;
      PositionOfWrap(ring, entry.off);
      OffsetsAligned(ring);
      AlignedIsUnlocked(t);
      WrapAdd(entry.off, entry.size);
      var entrySize := Load64(Relative(t, dataSize) + 16);
      committed := CasTail(Lock(t), Add64(t, entrySize));
      StoredAppend(data[..], ring, entry.payload, entry.size);
      ring := Append(ring, entry.payload, entry.size);
      OffsetsAligned(ring);
      AlignedIsUnlocked(tail);
    }

    /** The loop that checks for space and takes the tail lock. */
    method ReserveTail(fullEntrySize: u64) returns (status: Status, t: u64, placeholder: bool)
      requires Valid() && fullEntrySize <= dataSize
      modifies this`tail
      ensures status == if old(IsLocked(tail)) then Locked
                        else if Free(ring) < fullEntrySize then NoSpaceContiguous else Ok
      ensures Valid()
      ensures status != Ok ==> tail == old(tail)
      ensures status == Ok ==> t == old(tail) == Wrap(Tail(ring)) && tail == Lock(t) == t + 1
      ensures status == Ok ==> placeholder == (ToWrap(ring) < fullEntrySize + HEADER)
    {
      hide Relative, Lock, Unlock, IsLocked, Aligned8, Wrap, Get64, BytesAt;
      WrappedOffsetsRefine(ring);
      FreeSpaceRefines(ring);
      LockBit(tail);
      AlignedIsUnlocked(Unlock(tail));
      ghost var m := data[..];
      status, t, placeholder := Ok, 0, false;
      var locked := false;
      while !locked
        invariant status == Ok
        invariant !locked ==> tail == old(tail)
        invariant locked ==> t == old(tail) && !IsLocked(t) && tail == Lock(t)
        invariant locked ==> fullEntrySize <= Free(ring) && placeholder == (ToWrap(ring) < fullEntrySize + HEADER)
        decreases !locked
      {
        t := tail;
        if IsLocked(t) {
          return Locked, t, false;
        }
        var relTail := Relative(t, dataSize);
        var spaceToWrap := dataSize - relTail;
        var h := Unlock(head);
        var used := Sub64(t, h);
        var freeSpace := Sub64(dataSize, used);
        if freeSpace < fullEntrySize {
          return NoSpaceContiguous, t, false;
        }
        placeholder := spaceToWrap < fullEntrySize + HEADER;
        locked := TryLockTail(t);
      }
      assert Stored(data[..], ring) by { assert data[..] == m; }
    }

    /** The stores made while the tail is locked; a placeholder has no payload. */
    method StoreEntry(p: nat, payload: seq<byte>, entrySize: u64, t: u64)
      requires p + HEADER + |payload| <= data.Length && |payload| < WORD
      modifies data
      ensures HeaderAt(data[..], p, t, |payload|, entrySize) && BytesAt(data[..], p + HEADER, payload)
      ensures SameOutside(old(data[..]), data[..], p, p + HEADER + |payload|)
    {
      ghost var m := data[..];
      if |payload| == 0 {
        Store64(p + 8, 0);
        ghost var m1 := data[..];
        Store64(p + 16, entrySize);
        Word64Unchanged(m1, data[..], p + 16, p + 24, p + 8);
      } else {
        CopyIn(p + HEADER, payload);
        ghost var m1 := data[..];
        Store64(p + 16, entrySize);
        ghost var m2 := data[..];
        Store64(p + 8, |payload|);
        Word64Unchanged(m2, data[..], p + 8, p + 16, p + 16);
        SliceUnchanged(m1, data[..], p + 8, p + 24, p + HEADER, p + HEADER + |payload|);
      }
      ghost var m3 := data[..];
      Store64(p, t);
      Word64Unchanged(m3, data[..], p, p + 8, p + 8);
      Word64Unchanged(m3, data[..], p, p + 8, p + 16);
      SliceUnchanged(m3, data[..], p, p + 8, p + HEADER, p + HEADER + |payload|);
    }

    // ----------------------------------------------------------------
    // The head lock and the entry header
    // ----------------------------------------------------------------

    /** The loop with which read and peek take the head lock. */
    method AcquireHead() returns (status: Status, h: u64)
      requires Valid()
      modifies this`head
      ensures Valid() && h == old(head)
      ensures status == if old(IsLocked(head)) then Locked else Ok
      ensures status != Ok ==> head == old(head)
      ensures status == Ok ==> h == Wrap(ring.head) && head == Lock(h)
    {
      hide Relative, Lock, Unlock, IsLocked, Aligned8, Wrap, Get64, BytesAt;
      LockBit(head);
      OffsetsAligned(ring);
      AlignedIsUnlocked(Wrap(ring.head));
      h := head;
      var locked := false;
      while !locked
        invariant !locked ==> head == old(head)
        invariant locked ==> h == old(head) && !IsLocked(h) && head == Lock(h)
        decreases !locked
      {
        h := head;
        if IsLocked(h) {
          return Locked, h;
        }
        locked := TryLockHead(h);
      }
      status := Ok;
    }

    method ReleaseHead(h: u64) returns (unlocked: bool)
      requires Valid() && head == Lock(h) && h == Wrap(ring.head)
      modifies this`head
      ensures unlocked && Valid() && head == h && !IsLocked(head)
    {
      hide Relative, Lock, Unlock, IsLocked, Aligned8, Wrap, Get64, BytesAt;
      OffsetsAligned(ring);
      AlignedIsUnlocked(h);
      unlocked := UnlockHead(h);
    }

    /** Advancing the head over the front entry while its lock is held. */
    method CommitHead(h: u64, entrySize: u64) returns (committed: bool)
      requires Valid() && head == Lock(h) && h == Wrap(ring.head)
      requires ring.live != [] && entrySize == ring.live[0].size
      modifies this`head, this`ring
      ensures committed && Valid() && !IsLocked(head)
      ensures ring == Pop(old(ring))
    {
      hide Relative, Lock, Unlock, IsLocked, Aligned8, Wrap, Get64, BytesAt;
      PopKeepsInv(ring);
      StoredPop(data[..], ring);
      WrapAdd(ring.head, entrySize);
      committed := CasHead(Lock(h), Add64(h, entrySize));
      ring := Pop(ring);
      OffsetsAligned(ring);
      AlignedIsUnlocked(Wrap(ring.head));
    }

    /** _read_entry_header_unsafe: the position is known unless the ring is empty. */
    method ReadEntryHeaderUnsafe(offset: u64) returns (status: Status, p: nat)
      requires Valid() && Unlock(offset) == Wrap(ring.head)
      ensures status == FrontStatus(ring, IsLocked(tail))
      ensures status != Empty ==> p == Relative(ring.head, dataSize)
    {
      hide Relative, Lock, Unlock, IsLocked, Aligned8, Wrap, Get64, BytesAt;
      WrappedOffsetsRefine(ring);
      p := 0;
      var alignedHead := Unlock(offset);
      var t := tail;
      if alignedHead == Unlock(t) {
        return Empty, p;
      }
      p := Relative(alignedHead, dataSize);
      if IsLocked(t) {
        return NotReady, p;
      }
      status := Ok;
    }

    /** _read_entry_header, as called by the holder of the head lock. The seq word
        of the front entry always matches, so no other answer is possible. */
    method ReadEntryHeader(offset: u64) returns (status: Status, header: EntryHeader)
      requires Valid() && offset == Wrap(ring.head)
      ensures status == HeaderStatus(ring, IsLocked(tail))
      ensures status == Ok || status == Placeholder ==>
                header == EntryHeader(offset, |ring.live[0].payload|, ring.live[0].size)
    {
      hide Relative, Lock, Unlock, IsLocked, Aligned8, Wrap, Get64, BytesAt;
      OffsetsAligned(ring);
      AlignedIsUnlocked(offset);
      header := EntryHeader(0, 0, 0);
      var p;
      status, p := ReadEntryHeaderUnsafe(offset);
      if status != Ok {
        return;
      }
      FrontInMemory(data[..], ring);
      header := EntryHeader(Load64(p), Load64(p + 8), Load64(p + 16));
      var mismatch := if IsLocked(offset) then Locked else NotReady;
      status := if header.seqno != offset then mismatch
                else if header.payloadSize == 0 then Placeholder else Ok;
    }

    // ----------------------------------------------------------------
    // ipc_buffer_read, peek, skip, skip_force
    // ----------------------------------------------------------------

    method Read(dest: IpcEntry) returns (status: Status)
      requires Valid()
      requires if dest.payload == null then dest.size == 0 else dest.payload != data && dest.size <= dest.payload.Length
      modifies this`head, this`ring, dest`offset, dest`size, dest.payload
      ensures Valid()
      ensures (status, ring) == ReadCall(old(ring), old(IsLocked(head)), IsLocked(tail), old(dest.size))
      ensures IsLocked(head) == old(IsLocked(head))
      ensures status == Ok ==> Queue(old(ring)) != [] && Delivered(dest, FrontEntry(old(ring.live)))
      ensures status != Ok ==> dest.offset == old(dest.offset) && dest.size == old(dest.size)
                               && (dest.payload != null ==> dest.payload[..] == old(dest.payload[..]))
      decreases |ring.live|
    {
      hide Relative, Lock, Unlock, IsLocked, Aligned8, Wrap, Get64, BytesAt;
      var h, header;
      status, h := AcquireHead();
      if status != Ok {
        return;
      }
      var room := dest.size;
      status, header := ReadEntryHeader(h);
      var placeholder := status == Placeholder;
      if !placeholder && status != Ok {
        var unlocked := ReleaseHead(h);
        status := if unlocked then status else IllegalState;
        return;
      }
      if !placeholder {
        if room < header.payloadSize {
          var unlocked := ReleaseHead(h);
          status := if unlocked then TooSmall else IllegalState;
          return;
        }
        CopyFront(dest, h, header.payloadSize);
      }
      var committed := CommitHead(h, header.entrySize);
      status := if committed then Ok else IllegalState;
      if committed && placeholder {
        status := Read(dest);
      }
    }

    /** Filling the caller's entry from the front of the ring. */
    method CopyFront(dest: IpcEntry, h: u64, payloadSize: u64)
      requires Valid() && h == Wrap(ring.head) && ring.live != [] && payloadSize == |ring.live[0].payload|
      requires dest.payload != null && dest.payload != data && payloadSize <= dest.payload.Length
      modifies dest`offset, dest`size, dest.payload
      ensures Valid() && Delivered(dest, ring.live[0])
    {
      hide Relative, Lock, Unlock, IsLocked, Aligned8, Wrap, Get64;
      FrontInMemory(data[..], ring);
      PositionOfWrap(ring, ring.head);
      var relOffset := Relative(h, dataSize);
      CopyOut(relOffset + HEADER, payloadSize, dest.payload);
      dest.offset := h;
      dest.size := payloadSize;
    }

    /** Returns the offset, the size and the position in `data` of the payload. */
    method Peek() returns (status: Status, offset: u64, size: u64, position: nat)
      requires Valid()
      modifies this`head, this`ring
      ensures Valid()
      ensures (status, ring) == PeekCall(old(ring), old(IsLocked(head)), IsLocked(tail))
      ensures IsLocked(head) == old(IsLocked(head))
      ensures status == Ok ==> ring.live != [] && offset == Wrap(ring.head) && size == |ring.live[0].payload|
                               && BytesAt(data[..], position, ring.live[0].payload)
      decreases |ring.live|
    {
      hide Relative, Lock, Unlock, IsLocked, Aligned8, Wrap, Get64, BytesAt;
      var h, header;
      offset, size, position := 0, 0, 0;
      status, h := AcquireHead();
      if status != Ok {
        return;
      }
      status, header := ReadEntryHeader(h);
      var placeholder := status == Placeholder;
      if !placeholder && status != Ok {
        var unlocked := ReleaseHead(h);
        status := if unlocked then status else IllegalState;
        return;
      }
      if placeholder {
        var committed := CommitHead(h, header.entrySize);
        status := if committed then Ok else IllegalState;
        if committed {
          status, offset, size, position := Peek();
        }
        return;
      }
      offset, size := h, header.payloadSize;
      FrontInMemory(data[..], ring);
      PositionOfWrap(ring, ring.head);
      position := Relative(h, dataSize) + HEADER;
      var unlocked := ReleaseHead(h);
      status := if unlocked then Ok else IllegalState;
    }

    /** Returns the offset skipped, or the head offset when the ring was empty. */
    method Skip(offset: u64) returns (status: Status, at: u64)
      requires Valid()
      modifies this`head, this`ring
      ensures Valid()
      ensures (status, ring) == SkipCall(old(ring), old(IsLocked(head)), IsLocked(tail), offset)
      ensures IsLocked(head) == old(IsLocked(head))
      ensures status == Ok ==> at == offset
      ensures status == Empty ==> at == Wrap(ring.head)
      decreases |ring.live|
    {
      hide Relative, Lock, Unlock, IsLocked, Aligned8, Wrap, Get64, BytesAt;
      at := offset;
      if !Aligned8(offset) {
        return InvalidArgument, at;
      }
      var h, header;
      status, h := AcquireHeadAt(offset);
      if status != Ok {
        return;
      }
      status, header := ReadEntryHeader(h);
      var placeholder := status == Placeholder;
      if !placeholder && status != Ok {
        at := h;
        var unlocked := ReleaseHead(h);
        status := if unlocked then status else IllegalState;
        return;
      }
      var committed := CommitHead(h, header.entrySize);
      status := if committed then Ok else IllegalState;
      if committed && placeholder {
        status, at := Skip(offset);
      }
    }

    /** The loop with which skip takes the head lock at the offset it was given. */
    method AcquireHeadAt(offset: u64) returns (status: Status, h: u64)
      requires Valid()
      modifies this`head
      ensures Valid() && h == old(head)
      ensures status == if old(IsLocked(head)) then Locked
                        else if Wrap(ring.head) != offset then OffsetMismatch else Ok
      ensures status != Ok ==> head == old(head)
      ensures status == Ok ==> h == Wrap(ring.head) && head == Lock(h)
    {
      hide Relative, Lock, Unlock, IsLocked, Aligned8, Wrap, Get64, BytesAt;
      LockBit(head);
      OffsetsAligned(ring);
      AlignedIsUnlocked(Wrap(ring.head));
      h := head;
      var locked := false;
      while !locked
        invariant !locked ==> head == old(head)
        invariant locked ==> h == old(head) && !IsLocked(h) && head == Lock(h) && h == offset
        decreases !locked
      {
        h := head;
        if IsLocked(h) {
          return Locked, h;
        }
        if Unlock(h) != offset {
          return OffsetMismatch, h;
        }
        locked := TryLockHead(h);
      }
      status := Ok;
    }

    /** Returns the offset skipped; when the head was locked, the head word found. */
    method SkipForce() returns (status: Status, at: u64)
      requires Valid()
      modifies this`head, this`ring
      ensures Valid()
      ensures (status, ring) == SkipForceCall(old(ring), old(IsLocked(head)))
      ensures at == if status == AlreadySkipped then head else Wrap(old(ring.head))
      ensures IsLocked(head) == old(IsLocked(head))
    {
      hide Relative, Lock, Unlock, IsLocked, Aligned8, Wrap, Get64, BytesAt;
      OffsetsAligned(ring);
      AlignedIsUnlocked(Wrap(ring.head));
      LockBit(head);
      var h := Unlock(head);
      var p;
      status, p := ReadEntryHeaderUnsafe(h);
      if status == Empty {
        return Empty, h;
      }
      FrontInMemory(data[..], ring);
      PopKeepsInv(ring);
      StoredPop(data[..], ring);
      var entrySize := Load64(p + 16);
      WrapAdd(ring.head, entrySize);
      OffsetsAligned(Pop(ring));
      AlignedIsUnlocked(Wrap(Pop(ring).head));
      var skipped := CasHead(h, Add64(h, entrySize));
      if skipped {
        ring := Pop(ring);
      }
      status := if skipped then Ok else AlreadySkipped;
      at := if skipped then h else head;
    }
  }

  /** What the header checks answer for the front entry. */
  function HeaderStatus(r: Ring, tailLocked: bool): Status {
    if FrontStatus(r, tailLocked) != Ok then FrontStatus(r, tailLocked)
    else if IsPlaceholder(r.live[0]) then Placeholder else Ok
  }

  /** The caller's entry holds e: its wrapped offset, its size, and its bytes. */
  ghost predicate Delivered(dest: IpcEntry, e: Entry)
    reads dest, dest.payload
  {
    && dest.payload != null
    && dest.offset == Wrap(e.off) && dest.size == |e.payload|
    && dest.size <= dest.payload.Length && dest.payload[..dest.size] == e.payload
  }

  lemma FrontInMemory(m: seq<byte>, r: Ring)
    requires RingInv(r) && Stored(m, r) && r.live != []
    ensures var e := r.live[0];
            && e.off == r.head && Relative(r.head, r.cap) + e.size <= |m| && HEADER + |e.payload| <= e.size < WORD
            && HeaderAt(m, Relative(r.head, r.cap), Wrap(r.head), |e.payload|, e.size)
            && BytesAt(m, Relative(r.head, r.cap) + HEADER, e.payload)
  {
    assert InMemory(m, r.live[0]);
  }

  /** The entry a writer reserves: a placeholder up to the wrap, or its own. */
  function Reserved(r: Ring, payload: seq<byte>): Entry
    requires RingInv(r)
  {
    var full := FullSize(|payload|);
    if ToWrap(r) < full + HEADER then Entry(Tail(r), ToWrap(r), []) else Entry(Tail(r), full, payload)
  }

  function AppendReserved(r: Ring, payload: seq<byte>): Ring
    requires RingInv(r)
  {
    Append(r, Reserved(r, payload).payload, Reserved(r, payload).size)
  }

  /** One pass of the loop, then at most one more after a placeholder. */
  lemma WriteStep(r: Ring, payload: seq<byte>)
    requires RingInv(r) && 0 < |payload| && FullSize(|payload|) <= r.cap
    ensures WriteUnlocked(r, payload) ==
            if Free(r) < FullSize(|payload|) then (NoSpaceContiguous, r)
            else if ToWrap(r) < FullSize(|payload|) + HEADER then
              (ReservedFits(r, payload); WriteUnlocked(AppendReserved(r, payload), payload))
            else (Ok, AppendReserved(r, payload))
    ensures FullSize(|payload|) <= Free(r) ==>
              RingInv(AppendReserved(r, payload)) && Free(AppendReserved(r, payload)) < Free(r)
  {
    if FullSize(|payload|) <= Free(r) {
      ReservedFits(r, payload);
    }
  }

  lemma ReservedFits(r: Ring, payload: seq<byte>)
    requires RingInv(r) && 0 < |payload| && FullSize(|payload|) <= Free(r)
    ensures var e := Reserved(r, payload);
            && 32 <= r.cap && Fits(r.cap, e) && HEADER + |e.payload| <= e.size <= Free(r)
            && Relative(e.off, r.cap) + e.size <= r.cap
            && RingInv(Append(r, e.payload, e.size)) && Tail(Append(r, e.payload, e.size)) == Tail(r) + e.size
            && Relative(Wrap(Tail(r)), r.cap) == Relative(Tail(r), r.cap)
  {
    var e := Reserved(r, payload);
    if ToWrap(r) < FullSize(|payload|) + HEADER {
      PlaceholderFits(r, FullSize(|payload|));
    } else {
      EntryFits(r, payload);
    }
    AppendKeepsInv(r, e.payload, e.size);
    RelativeOfWrap(Tail(r), r.cap);
  }
}
