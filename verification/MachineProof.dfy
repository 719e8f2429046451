/** Every step of every thread keeps the invariant and its guarantee. */
module MachineProof {
  import opened Words
  import opened RingModel
  import opened Wrappers
  import opened Machine
  import opened MachineInv

  // ------------------------------------------------------------------
  // The ways in which a step can change the shared memory
  // ------------------------------------------------------------------

  lemma OffsetsAligned(s: Shared)
    requires SharedInv(s)
    ensures Aligned8(View(s).head) && Aligned8(Tail(View(s)))
    ensures Unlock(View(s).head) == View(s).head && Lock(View(s).head) == View(s).head + 1
    ensures Unlock(Tail(View(s))) == Tail(View(s)) && Lock(Tail(View(s))) == Tail(View(s)) + 1
    ensures s.tail == if s.writer.Some? then Tail(View(s)) + 1 else Tail(View(s))
    ensures s.head == if s.reader.Some? then View(s).head + 1 else View(s).head
  {
    hide Relative, Lock, Unlock, IsLocked, Stored, Matches, Tiled, View;
    RingIsAligned(View(s));
    AlignedIsUnlocked(View(s).head);
    AlignedIsUnlocked(Tail(View(s)));
    LockBit(s.head);
    LockBit(s.tail);
    LockIsUnlockPlusOne(s.head);
    LockIsUnlockPlusOne(s.tail);
  }

  lemma RingIsAligned(r: Ring)
    requires RingInv(r)
    ensures Aligned8(r.head) && Aligned8(Tail(r))
  {
    hide Relative, Tiled;
    if 32 <= r.cap {
      TailIsBoundary(r);
    }
  }

  lemma LockIsUnlockPlusOne(word: nat)
    ensures Lock(word) == Unlock(word) + 1
  {
  }

  lemma TakeTailLock(s: Shared, t: Tid) returns (s': Shared)
    requires SharedInv(s) && s.writer == None
    ensures s' == s.(tail := Lock(s.tail), writer := Some(t))
    ensures SharedInv(s') && Guarantee(s, s', t)
  {
    hide Relative, Lock, Unlock, IsLocked;
    OffsetsAligned(s);
    LockBit(s.tail);
    s' := s.(tail := Lock(s.tail), writer := Some(t));
    assert View(s') == View(s);
  }

  /** A store by the holder of the tail lock, inside the region it reserved. */
  lemma StoreInReserved(s: Shared, t: Tid, m: seq<byte>, size: nat) returns (s': Shared)
    requires SharedInv(s) && s.writer == Some(t)
    requires 0 < size <= Free(View(s)) && Relative(Tail(View(s)), s.cap) + size <= s.cap
    requires SameOutside(s.mem, m, Relative(Tail(View(s)), s.cap), Relative(Tail(View(s)), s.cap) + size)
    ensures s' == s.(mem := m)
    ensures SharedInv(s') && Guarantee(s, s', t)
  {
    hide Relative, Lock, Unlock, IsLocked;
    StoredFrame(s.mem, m, View(s), size);
    s' := s.(mem := m);
    assert View(s') == View(s);
  }

  lemma ViewAfterCommit(s: Shared, s': Shared, e: Entry)
    requires |s.taken| <= |s.log| && s'.cap == s.cap && s'.taken == s.taken && s'.log == s.log + [e]
    requires e.off == Tail(View(s))
    ensures View(s') == Append(View(s), e.payload, e.size)
    ensures EndOf(s'.log, 0) == End(e)
  {
    var n := |s.taken|;
    assert s'.log[..n] == s.log[..n] && s'.log[n..] == s.log[n..] + [e];
  }

  lemma CommitTail(s: Shared, t: Tid, e: Entry) returns (s': Shared)
    requires SharedInv(s) && s.writer == Some(t) && 32 <= s.cap
    requires e.off == Tail(View(s)) && Fits(s.cap, e) && e.size <= Free(View(s))
    requires InMemory(s.mem, e)
    ensures s' == s.(tail := e.off + e.size, writer := None, log := s.log + [e])
    ensures SharedInv(s') && Guarantee(s, s', t)
    ensures View(s') == Append(View(s), e.payload, e.size)
  {
    hide Relative, Lock, Unlock, IsLocked, RingInv, Tiled, Stored, InMemory, Fits, View, EndOf, Tail, Aligned8;
    OffsetsAligned(s);
    EndIsBoundary(s.cap, e);
    BoundaryIsUnlocked(s.cap, e.off + e.size);
    assert e == Entry(Tail(View(s)), e.size, e.payload);
    TiledAppend(s.log, 0, s.cap, e);
    AppendKeepsInv(View(s), e.payload, e.size);
    StoredAppend(s.mem, View(s), e.payload, e.size);
    s' := s.(tail := e.off + e.size, writer := None, log := s.log + [e]);
    ViewAfterCommit(s, s', e);
  }

  lemma BoundaryIsUnlocked(cap: nat, offset: nat)
    requires 0 < cap && Boundary(cap, offset)
    ensures !IsLocked(offset) && Unlock(offset) == offset
  {
    AlignedIsUnlocked(offset);
  }

  lemma TakeHeadLock(s: Shared, t: Tid) returns (s': Shared)
    requires SharedInv(s) && s.reader == None
    ensures s' == s.(head := Lock(s.head), reader := Some(t))
    ensures SharedInv(s') && Guarantee(s, s', t)
  {
    hide Relative, Lock, Unlock, IsLocked;
    OffsetsAligned(s);
    LockBit(s.head);
    s' := s.(head := Lock(s.head), reader := Some(t));
    assert View(s') == View(s);
  }

  lemma DropHeadLock(s: Shared, t: Tid) returns (s': Shared)
    requires SharedInv(s) && s.reader == Some(t)
    ensures s' == s.(head := View(s).head, reader := None)
    ensures SharedInv(s') && Guarantee(s, s', t)
  {
    hide Relative, Lock, Unlock, IsLocked;
    OffsetsAligned(s);
    AlignedIsUnlocked(View(s).head);
    s' := s.(head := View(s).head, reader := None);
    assert View(s') == View(s);
  }

  lemma ViewAfterConsume(s: Shared, s': Shared)
    requires SharedInv(s) && |s.taken| < |s.log|
    requires s'.cap == s.cap && |s'.taken| == |s.taken| + 1 && s'.log == s.log
    ensures View(s') == Pop(View(s)) && Pop(View(s)).head == View(s).head + Front(s).size
  {
    hide Relative, SharedInv, Fits, Tiled, Lock, Unlock, IsLocked;
    FrontOfView(s);
    var n := |s.taken|;
    assert s.log[..n + 1] == s.log[..n] + [s.log[n]] && s.log[n + 1..] == s.log[n..][1..];
  }

  /** Consuming the front entry, by the holder of the head lock or, when the head
      is unlocked, by skip_force. */
  lemma Consume(s: Shared, t: Tid, k: Taken) returns (s': Shared)
    requires SharedInv(s) && (s.reader == None || s.reader == Some(t))
    requires |s.taken| < |s.log| && Matches(k, Front(s))
    ensures s' == s.(head := View(s).head + Front(s).size, reader := None, taken := s.taken + [k])
    ensures SharedInv(s') && Guarantee(s, s', t)
    ensures View(s') == Pop(View(s))
  {
    hide Relative, Lock, Unlock, IsLocked, RingInv, Tiled, Stored, Fits, View, EndOf, Tail, Aligned8, Boundary;
    OffsetsAligned(s);
    FrontOfView(s);
    s' := s.(head := View(s).head + Front(s).size, reader := None, taken := s.taken + [k]);
    ViewAfterConsume(s, s');
    PopKeepsInv(View(s));
    StoredPop(s.mem, View(s));
    AlignedIsUnlocked(Pop(View(s)).head);
  }

  lemma FrontOfView(s: Shared)
    requires SharedInv(s) && |s.taken| < |s.log|
    ensures View(s).live != [] && Front(s) == View(s).live[0] && Front(s).off == View(s).head
    ensures 32 <= s.cap && Fits(s.cap, Front(s)) && Boundary(s.cap, View(s).head)
    ensures Aligned8(Pop(View(s)).head) && 0 < Front(s).size
  {
    hide Relative;
    EndIsBoundary(s.cap, View(s).live[0]);
  }

  // ------------------------------------------------------------------
  // Steps of the others do not disturb a thread
  // ------------------------------------------------------------------

  lemma Stable(s: Shared, s': Shared, t: Tid, u: Tid, m: Local)
    requires SharedInv(s) && SharedInv(s') && Guarantee(s, s', t)
    requires u != t && LocalInv(s, u, m)
    ensures LocalInv(s', u, m)
  {
    hide Relative, Lock, Unlock, IsLocked, RingInv, Tiled, Stored, Fits, View, EndOf, Tail, Aligned8, Matches, InMemory, FilledTo;
  }

  // ------------------------------------------------------------------
  // The writer's stores
  // ------------------------------------------------------------------

  lemma CopyByte(m: seq<byte>, p: nat, e: Entry, i: nat)
    requires FilledTo(m, p, e, false, CopyPayload(i)) && i < |e.payload|
    ensures p + HEADER + i < |m|
    ensures var m' := m[p + HEADER + i := e.payload[i]];
            FilledTo(m', p, e, false, CopyPayload(i + 1)) && SameOutside(m, m', p, p + e.size)
  {
    hide Get64;
    var o := p + HEADER;
    var m' := m[o + i := e.payload[i]];
    assert m'[o..o + i] == m[o..o + i];
    assert m'[o..o + i + 1] == m'[o..o + i] + [m'[o + i]];
    assert e.payload[..i + 1] == e.payload[..i] + [e.payload[i]];
  }

  lemma CopyDone(m: seq<byte>, p: nat, e: Entry)
    requires FilledTo(m, p, e, false, CopyPayload(|e.payload|))
    ensures FilledTo(m, p, e, false, StoreEntrySize)
  {
    assert e.payload[..|e.payload|] == e.payload;
  }

  /** Where a store of the header goes, what it stores, and which pc comes next. */
  function StoreAt(pc: FillPc): nat
    requires pc.StorePayloadSize? || pc.StoreEntrySize? || pc.StoreSeq?
  {
    match pc case StorePayloadSize => 8 case StoreEntrySize => 16 case StoreSeq => 0
  }

  function StoreWhat(e: Entry, pc: FillPc): nat
    requires pc.StorePayloadSize? || pc.StoreEntrySize? || pc.StoreSeq?
  {
    match pc case StorePayloadSize => |e.payload| case StoreEntrySize => e.size case StoreSeq => Wrap(e.off)
  }

  function PcAfter(placeholder: bool, pc: FillPc): FillPc
    requires pc.StorePayloadSize? || pc.StoreEntrySize? || pc.StoreSeq?
  {
    match pc
    case StorePayloadSize => if placeholder then StoreEntrySize else StoreSeq
    case StoreEntrySize => if placeholder then StoreSeq else StorePayloadSize
    case StoreSeq => LoadEntrySize
  }

  lemma StoreWord(m: seq<byte>, p: nat, e: Entry, placeholder: bool, pc: FillPc)
    requires pc.StorePayloadSize? || pc.StoreEntrySize? || pc.StoreSeq?
    requires FilledTo(m, p, e, placeholder, pc) && e.size < WORD && (placeholder ==> e.payload == [])
    ensures p + StoreAt(pc) + 8 <= |m|
    ensures var m' := Put64(m, p + StoreAt(pc), StoreWhat(e, pc));
            FilledTo(m', p, e, placeholder, PcAfter(placeholder, pc)) && SameOutside(m, m', p, p + e.size)
  {
    var o := p + StoreAt(pc);
    Put64Spec(m, o, StoreWhat(e, pc));
    StoredWord(m, Put64(m, o, StoreWhat(e, pc)), p, e, placeholder, pc);
  }

  lemma StoredWord(m: seq<byte>, m': seq<byte>, p: nat, e: Entry, placeholder: bool, pc: FillPc)
    requires pc.StorePayloadSize? || pc.StoreEntrySize? || pc.StoreSeq?
    requires FilledTo(m, p, e, placeholder, pc) && e.size < WORD && (placeholder ==> e.payload == [])
    requires Wrote64(m, m', p + StoreAt(pc), StoreWhat(e, pc))
    ensures FilledTo(m', p, e, placeholder, PcAfter(placeholder, pc)) && SameOutside(m, m', p, p + e.size)
  {
    hide Get64, Wrap;
    var o := p + StoreAt(pc);
    SliceUnchanged(m, m', o, o + 8, p + HEADER, p + HEADER + |e.payload|);
    if o != p + 8 {
      Word64Unchanged(m, m', o, o + 8, p + 8);
    }
    if o != p + 16 {
      Word64Unchanged(m, m', o, o + 8, p + 16);
    }
  }

  lemma FilledIsInMemory(m: seq<byte>, e: Entry, placeholder: bool)
    requires 0 < |m| && Relative(e.off, |m|) + e.size <= |m|
    requires FilledTo(m, Relative(e.off, |m|), e, placeholder, LoadEntrySize)
    ensures InMemory(m, e) && Get64(m, Relative(e.off, |m|) + 16) == e.size
  {
  }

  // ------------------------------------------------------------------
  // The steps of a writer
  // ------------------------------------------------------------------

  ghost predicate Keeps(s: Shared, t: Tid, next: (Shared, Local)) {
    && SharedInv(s) && SharedInv(next.0)
    && LocalInv(next.0, t, next.1)
    && Guarantee(s, next.0, t)
  }

  lemma WriterLoads(s: Shared, t: Tid, l: Local)
    requires SharedInv(s) && LocalInv(s, t, l) && (l.WLoadTail? || l.WLoadHead?)
    ensures Keeps(s, t, WriterStep(s, t, l))
  {
    hide Relative, RingInv, Tiled, Stored, Fits, View, EndOf, Tail, Aligned8, Matches, InMemory, Lock, Unlock, IsLocked;
    LockBit(s.tail);
    LockBit(s.head);
  }

  /** Taking the tail lock: what the writer computed from its snapshots is still
      good enough, because only consumers can have moved since. */
  lemma WriterLocks(s: Shared, t: Tid, l: Local)
    requires SharedInv(s) && LocalInv(s, t, l) && l.WLock?
    ensures Keeps(s, t, WriterStep(s, t, l))
  {
    hide Relative, RingInv, Tiled, Stored, Fits, View, EndOf, Tail, Aligned8, Matches, InMemory, Lock, Unlock, IsLocked;
    var WLock(payload, tail, head, placeholder) := l;
    if s.tail == tail {
      LockBit(tail);
      var s' := TakeTailLock(s, t);
      LockedIsReserved(s, s', payload, tail, head, placeholder);
    }
  }

  lemma LockedIsReserved(s: Shared, s': Shared, payload: seq<byte>, tail: nat, head: nat, placeholder: bool)
    requires SharedInv(s) && SharedInv(s') && s.tail == tail && s'.tail == Lock(tail)
    requires s'.cap == s.cap && s'.log == s.log && s'.taken == s.taken && s'.mem == s.mem
    requires Believes(s, WLock(payload, tail, head, placeholder))
    ensures Reserves(s', payload, tail, placeholder)
    ensures FilledTo(s'.mem, Relative(tail, s'.cap), ReservedEntry(s'.cap, payload, tail, placeholder), placeholder,
                     if placeholder then StorePayloadSize else CopyPayload(0))
  {
    hide Relative, Tiled, Stored, Lock, Unlock, IsLocked, Get64;
    var r := View(s);
    assert View(s') == r;
    if placeholder {
      PlaceholderFits(r, FullSize(|payload|));
    } else {
      EntryFits(r, payload);
      assert payload[..0] == [];
    }
    CapacityBounds(s);
  }

  lemma CapacityBounds(s: Shared)
    requires SharedInv(s)
    ensures 0 < |s.mem| == s.cap <= HALF && Free(View(s)) <= s.cap
  {
    hide Relative;
  }

  lemma WriterCopies(s: Shared, t: Tid, l: Local)
    requires SharedInv(s) && LocalInv(s, t, l) && l.WFill? && l.pc.CopyPayload?
    ensures Keeps(s, t, FillStep(s, l))
  {
    hide Relative, RingInv, Tiled, Stored, Fits, View, EndOf, Tail, Aligned8, Matches, InMemory, Lock, Unlock, IsLocked, Put64, Wrap, FilledTo;
    var e := ReservedEntry(s.cap, l.payload, l.tail, l.placeholder);
    var p := Relative(l.tail, s.cap);
    CopyIsOfAnEntry(s.mem, p, e, l.placeholder, l.pc);
    if l.pc.i < |l.payload| {
      CopyByte(s.mem, p, e, l.pc.i);
      var s' := StoreInReserved(s, t, s.mem[p + HEADER + l.pc.i := l.payload[l.pc.i]], e.size);
    } else {
      CopyDone(s.mem, p, e);
    }
  }

  lemma CopyIsOfAnEntry(m: seq<byte>, p: nat, e: Entry, placeholder: bool, pc: FillPc)
    requires pc.CopyPayload? && FilledTo(m, p, e, placeholder, pc)
    ensures !placeholder && pc.i <= |e.payload|
  {
  }

  lemma WriterStores(s: Shared, t: Tid, l: Local)
    requires SharedInv(s) && LocalInv(s, t, l) && l.WFill?
    requires l.pc.StorePayloadSize? || l.pc.StoreEntrySize? || l.pc.StoreSeq?
    ensures Keeps(s, t, FillStep(s, l))
  {
    hide Relative, RingInv, Tiled, Stored, Fits, View, EndOf, Tail, Aligned8, Matches, InMemory, Lock, Unlock, IsLocked, Put64, Wrap, FilledTo;
    var e := ReservedEntry(s.cap, l.payload, l.tail, l.placeholder);
    var p := Relative(l.tail, s.cap);
    CapacityBounds(s);
    StoreWord(s.mem, p, e, l.placeholder, l.pc);
    var s' := StoreInReserved(s, t, Put64(s.mem, p + StoreAt(l.pc), StoreWhat(e, l.pc)), e.size);
  }

  lemma WriterCommits(s: Shared, t: Tid, l: Local)
    requires SharedInv(s) && LocalInv(s, t, l)
    requires l.WCommit? || (l.WFill? && l.pc == LoadEntrySize)
    ensures Keeps(s, t, WriterStep(s, t, l))
  {
    hide Relative, RingInv, Tiled, Stored, Fits, View, EndOf, Tail, Aligned8, Matches, InMemory, Lock, Unlock, IsLocked, Get64;
    var e := ReservedEntry(s.cap, l.payload, l.tail, l.placeholder);
    if l.WCommit? {
      var s' := CommitTail(s, t, e);
    } else {
      CapacityBounds(s);
      FilledIsInMemory(s.mem, e, l.placeholder);
    }
  }

  // ------------------------------------------------------------------
  // The steps of a reader, a peeker or a skipper
  // ------------------------------------------------------------------

  /** The bytes at the head hold the front entry. */
  lemma FrontBytes(s: Shared)
    requires SharedInv(s) && |s.taken| < |s.log|
    ensures var e := Front(s);
            var p := Relative(View(s).head, s.cap);
            && p + HEADER + |e.payload| <= |s.mem|
            && HeaderAt(s.mem, p, Wrap(View(s).head), |e.payload|, e.size)
            && BytesAt(s.mem, p + HEADER, e.payload)
  {
    hide Relative, RingInv, Tiled, EndOf, Tail, Lock, Unlock, IsLocked, Get64, BytesAt, Wrap, Matches;
    FrontOfView(s);
    assert InMemory(s.mem, View(s).live[0]);
  }

  /** The ring is empty exactly when head and tail offsets agree. */
  lemma EmptyIff(s: Shared)
    requires SharedInv(s)
    ensures View(s).head == Tail(View(s)) <==> |s.taken| == |s.log|
    ensures View(s).head <= Tail(View(s))
  {
    hide Relative;
    if View(s).live != [] {
      TiledBounds(View(s).live, View(s).head, s.cap, 0);
    }
  }

  lemma ReaderLocks(s: Shared, t: Tid, l: Local)
    requires SharedInv(s) && LocalInv(s, t, l) && (l.RLoadHead? || l.RLock?)
    ensures Keeps(s, t, HeadStep(s, t, l))
  {
    hide Relative, RingInv, Tiled, Stored, Fits, View, EndOf, Tail, Aligned8, InMemory, Lock, Unlock, IsLocked, Get64, BytesAt, Wrap, Matches;
    LockBit(s.head);
    OffsetsAligned(s);
    if l.RLock? && s.head == l.head {
      var s' := TakeHeadLock(s, t);
    }
  }

  lemma ReaderSeesTail(s: Shared, t: Tid, l: Local)
    requires SharedInv(s) && LocalInv(s, t, l) && l.RLoadTail?
    ensures Keeps(s, t, HeadStep(s, t, l))
  {
    hide Relative, RingInv, Tiled, Stored, Fits, View, EndOf, Tail, Aligned8, InMemory, Lock, Unlock, IsLocked, Get64, BytesAt, Wrap, Matches;
    EmptyIff(s);
  }

  lemma ReaderLoads(s: Shared, t: Tid, l: Local)
    requires SharedInv(s) && LocalInv(s, t, l) && (l.RSeq? || l.RPayloadSize? || l.REntrySize?)
    ensures Keeps(s, t, HeadStep(s, t, l))
  {
    hide Relative, RingInv, Tiled, Stored, Fits, View, EndOf, Tail, Aligned8, InMemory, Lock, Unlock, IsLocked, Get64, BytesAt, Wrap, Matches;
    FrontBytes(s);
  }

  lemma ReaderCopies(s: Shared, t: Tid, l: Local)
    requires SharedInv(s) && LocalInv(s, t, l) && l.RCopy?
    ensures Keeps(s, t, HeadStep(s, t, l))
  {
    hide Relative, RingInv, Tiled, Stored, Fits, View, EndOf, Tail, Aligned8, InMemory, Lock, Unlock, IsLocked, Get64, Wrap, Matches;
    FrontBytes(s);
    var n := |l.got|;
    if n < l.payloadSize {
      var o := Relative(l.head, s.cap) + HEADER;
      var e := Front(s);
      assert s.mem[o + n] == s.mem[o..o + |e.payload|][n];
      assert l.got + [e.payload[n]] <= e.payload;
    }
  }

  lemma ReaderReleases(s: Shared, t: Tid, l: Local)
    requires SharedInv(s) && LocalInv(s, t, l) && (l.RCommit? || l.RUnlock?)
    ensures Keeps(s, t, HeadStep(s, t, l))
  {
    hide Relative, RingInv, Tiled, Stored, Fits, View, EndOf, Tail, Aligned8, InMemory, Lock, Unlock, IsLocked, Get64, BytesAt, Wrap;
    if l.RCommit? {
      var s' := Consume(s, t, Taken(t, HowTaken(l.op, l.payloadSize), l.head, l.got)) by { FrontOfView(s); }
    } else {
      var s' := DropHeadLock(s, t);
    }
  }

  // ------------------------------------------------------------------
  // The steps of skip_force
  // ------------------------------------------------------------------

  lemma ForceLoadsKeep(s: Shared, t: Tid, l: Local)
    requires SharedInv(s) && LocalInv(s, t, l) && (l.FLoadHead? || l.FLoadTail? || l.FEntrySize?)
    ensures Keeps(s, t, ForceStep(s, t, l))
  {
    hide Relative, RingInv, Tiled, Stored, Fits, View, EndOf, Tail, Aligned8, InMemory, Lock, Unlock, IsLocked, Get64, BytesAt, Wrap, Matches, Boundary;
    OffsetsAligned(s);
    EmptyIff(s);
    HeadIsBoundary(s);
    if l.FEntrySize? {
      BoundaryLeavesHeader(s.cap, l.head);
      CapacityBounds(s);
      if |s.taken| < |s.log| {
        FrontBytes(s);
      }
    }
  }

  lemma BoundaryLeavesHeader(cap: nat, offset: nat)
    requires 0 < cap && Boundary(cap, offset)
    ensures Relative(offset, cap) + HEADER <= cap
  {
  }

  lemma ForceSwaps(s: Shared, t: Tid, l: Local)
    requires SharedInv(s) && LocalInv(s, t, l) && l.FCommit?
    ensures Keeps(s, t, ForceStep(s, t, l))
  {
    hide Relative, RingInv, Tiled, Stored, Fits, View, EndOf, Tail, Aligned8, InMemory, Lock, Unlock, IsLocked, Get64, BytesAt, Wrap, Boundary;
    OffsetsAligned(s);
    if s.head == l.head {
      FrontOfView(s);
      var s' := Consume(s, t, Taken(t, ByForce, l.head, []));
    }
  }

  lemma ForceKeeps(s: Shared, t: Tid, l: Local)
    requires SharedInv(s) && LocalInv(s, t, l)
    requires l.FLoadHead? || l.FLoadTail? || l.FEntrySize? || l.FCommit?
    ensures Keeps(s, t, ForceStep(s, t, l))
  {
    hide SharedInv, Believes, Keeps, ForceStep, Relative;
    if l.FCommit? {
      ForceSwaps(s, t, l);
    } else {
      ForceLoadsKeep(s, t, l);
    }
  }

  lemma HeadIsBoundary(s: Shared)
    requires SharedInv(s)
    ensures 32 <= s.cap ==> Boundary(s.cap, View(s).head)
    ensures s.cap < 32 ==> View(s).head == 0 && |s.log| == |s.taken|
  {
    hide Relative;
  }

  // ------------------------------------------------------------------
  // Every step keeps the invariant
  // ------------------------------------------------------------------

  lemma StepKeeps(s: Shared, t: Tid, l: Local, call: Call)
    requires SharedInv(s) && LocalInv(s, t, l)
    ensures Keeps(s, t, Step(s, t, l, call))
  {
    hide Relative, RingInv, Tiled, Stored, Fits, View, EndOf, Tail, Aligned8, InMemory, Lock, Unlock, IsLocked, Get64, BytesAt, Wrap, Matches,
         WriterStep, HeadStep, ForceStep, SharedInv, Believes;
    match l {
      case Idle(_) => StartKeeps(s, t, l, call);
      case Fault => FaultNever(s, t, l);
      case WLoadTail(_) => WriterLoads(s, t, l);
      case WLoadHead(_, _) => WriterLoads(s, t, l);
      case WLock(_, _, _, _) => WriterLocks(s, t, l);
      case WFill(_, _, _, pc) => FillKeeps(s, t, l);
      case WCommit(_, _, _, _) => WriterCommits(s, t, l);
      case RCopy(_, _, _, _, _) => ReaderCopies(s, t, l);
      case RCommit(_, _, _, _, _) => ReaderReleases(s, t, l);
      case RUnlock(_, _, _, _) => ReaderReleases(s, t, l);
      case FLoadHead => ForceKeeps(s, t, l);
      case FLoadTail(_) => ForceKeeps(s, t, l);
      case FEntrySize(_) => ForceKeeps(s, t, l);
      case FCommit(_, _) => ForceKeeps(s, t, l);
      case RLoadHead(_) => ReaderLocks(s, t, l);
      case RLock(_, _) => ReaderLocks(s, t, l);
      case RLoadTail(_, _) => ReaderSeesTail(s, t, l);
      case _ => ReaderLoads(s, t, l);
    }
  }

  lemma FillKeeps(s: Shared, t: Tid, l: Local)
    requires SharedInv(s) && LocalInv(s, t, l) && l.WFill?
    ensures Keeps(s, t, WriterStep(s, t, l))
  {
    hide SharedInv, LocalInv, Guarantee, FillStep, Relative;
    match l.pc {
      case CopyPayload(_) => WriterCopies(s, t, l);
      case LoadEntrySize => WriterCommits(s, t, l);
      case _ => WriterStores(s, t, l);
    }
  }

  lemma StartKeeps(s: Shared, t: Tid, l: Local, call: Call)
    requires SharedInv(s) && LocalInv(s, t, l) && l.Idle?
    ensures Keeps(s, t, (s, Start(s, call)))
  {
    hide Relative, RingInv, Tiled, Stored, Fits, View, EndOf, Tail, Aligned8, InMemory, Lock, Unlock, IsLocked, Get64, BytesAt, Wrap;
  }

  lemma FaultNever(s: Shared, t: Tid, l: Local)
    requires SharedInv(s) && LocalInv(s, t, l)
    ensures !l.Fault?
  {
  }

  lemma NextKeepsInv(st: State, t: Tid, call: Call)
    requires Inv(st) && t in st.threads
    ensures Inv(Next(st, t, call)) && Guarantee(st.shared, Next(st, t, call).shared, t)
  {
    hide Relative, RingInv, Tiled, Stored, Fits, View, EndOf, Tail, Aligned8, InMemory, Lock, Unlock, IsLocked, Get64, BytesAt, Wrap, Matches,
         WriterStep, HeadStep, ForceStep, Believes;
    var s := st.shared;
    StepKeeps(s, t, st.threads[t], call);
    var st' := Next(st, t, call);
    forall u | u in st'.threads
      ensures LocalInv(st'.shared, u, st'.threads[u])
    {
      if u != t {
        Stable(s, st'.shared, t, u, st.threads[u]);
      }
    }
  }

  lemma InitInv(st: State)
    requires Init(st)
    ensures Inv(st)
  {
    hide Relative, Lock, Unlock, IsLocked, Aligned8, Get64;
    var s := st.shared;
    assert View(s) == Ring(s.cap, 0, []);
    OffsetZero(s.cap);
  }

  lemma OffsetZero(cap: nat)
    requires 0 < cap
    ensures 32 <= cap ==> Boundary(cap, 0)
    ensures !IsLocked(0) && Unlock(0) == 0
  {
    RelativeSmall(0, cap);
  }
}
