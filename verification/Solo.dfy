/** The step machine against the sequential model. A thread that is left alone from
    any reachable state, in the middle of any operation and whatever the others hold
    and whatever stale snapshots it carries, finishes; and its call then returns
    what the sequential operation says. */
module Solo {
  import opened Words
  import opened RingModel
  import opened Wrappers
  import F = Fifo
  import opened Machine
  import opened MachineInv
  import opened MachineProof
  import opened Runs

  /** NearCall below, while the skip is under way. */
  ghost predicate Near(s: Shared, l: Local)
    requires |s.taken| <= |s.log|
  {
    AtHead(l) && l.op.Skip? ==>
      Aligned8(l.op.offset) && l.op.offset <= View(s).head + HALF && View(s).head <= l.op.offset + HALF
  }

  // ------------------------------------------------------------------
  // What a call that is under way will come to
  // ------------------------------------------------------------------

  type Verdict = (Status, Ring)

  function HeadVerdict(op: Op, r: Ring, headLocked: bool, tailLocked: bool): Verdict {
    match op
    case Read(room) => F.ReadCall(r, headLocked, tailLocked, room)
    case Peek => F.PeekCall(r, headLocked, tailLocked)
    case Skip(offset) => F.SkipCall(r, headLocked, tailLocked, Wrap(offset))
  }

  /** Once the tail was seen unlocked, a lock taken later only matters after a hop. */
  ghost function FrontVerdict(op: Op, r: Ring, tailLocked: bool): Verdict
    requires r.live != []
  {
    if IsPlaceholder(r.live[0]) then HeadVerdict(op, Pop(r), false, tailLocked)
    else HeadVerdict(op, r, false, false)
  }

  ghost function ForceVerdict(s: Shared, r: Ring, head: nat): Verdict {
    if s.head == head && r.live != [] then (Status.Ok, Pop(r)) else (AlreadySkipped, r)
  }

  /** A writer that holds the tail lock commits, and after a placeholder starts over. */
  ghost predicate Commits(r: Ring, payload: seq<byte>, placeholder: bool, v: Verdict) {
    if placeholder then
      0 < r.cap && ToWrap(r) >= 0 && var r1 := Append(r, [], ToWrap(r)); RingInv(r1) && v == F.WriteCall(r1, false, payload)
    else v == (Status.Ok, Append(r, payload, FullSize(|payload|)))
  }

  /** The call of a thread in state l will come to v if nobody else moves. */
  ghost predicate Promises(s: Shared, l: Local, v: Verdict)
    requires |s.taken| <= |s.log|
  {
    var r, tailLocked := View(s), s.writer.Some?;
    && RingInv(r)
    && match l
       case Idle(last) => last.Some? && v == (last.value.status, r)
       case WLoadTail(payload) => v == F.WriteCall(r, tailLocked, payload)
       case WLoadHead(payload, tail) =>
         v == if s.cap - (tail - r.head) < FullSize(|payload|) then (NoSpaceContiguous, r) else F.WriteCall(r, tailLocked, payload)
       case WLock(payload, tail, head, placeholder) => v == F.WriteCall(r, tailLocked, payload)
       case WFill(payload, tail, placeholder, pc) => Commits(r, payload, placeholder, v)
       case WCommit(payload, tail, placeholder, size) => Commits(r, payload, placeholder, v)
       case RLoadHead(op) => v == HeadVerdict(op, r, s.reader.Some?, tailLocked)
       case RLock(op, head) => v == HeadVerdict(op, r, s.reader.Some?, tailLocked)
       case RLoadTail(op, head) => v == HeadVerdict(op, r, false, tailLocked)
       case RUnlock(op, head, status, payloadSize) => v == (status, r)
       case FLoadHead => v == F.SkipForceCall(r, s.reader.Some?)
       case FLoadTail(head) => v == if head == Tail(r) then (Empty, r) else ForceVerdict(s, r, head)
       case FEntrySize(head) => v == ForceVerdict(s, r, head)
       case FCommit(head, entrySize) => v == ForceVerdict(s, r, head)
       case Fault => false
       case _ => r.live != [] && v == FrontVerdict(l.op, r, tailLocked)
  }

  // ------------------------------------------------------------------
  // Every step keeps the promise
  // ------------------------------------------------------------------

  ghost predicate Fulfils(next: (Shared, Local), v: Verdict) {
    |next.0.taken| <= |next.0.log| && Promises(next.0, next.1, v) && Near(next.0, next.1)
  }

  lemma WriterLoadsFulfil(s: Shared, t: Tid, l: Local, v: Verdict)
    requires SharedInv(s) && LocalInv(s, t, l) && (l.WLoadTail? || l.WLoadHead?) && Promises(s, l, v)
    ensures Fulfils(WriterStep(s, t, l), v)
  {
    hide Relative, RingInv, Tiled, Stored, Fits, View, EndOf, Tail, Aligned8, Matches, InMemory, Lock, Unlock, IsLocked, FullSize;
    if l.WLoadTail? && !IsLocked(s.tail) {
      FreshTail(s, l.payload);
    }
  }

  /** With the tail just loaded, the check against the free space is the first of
      the sequential write. */
  lemma FreshTail(s: Shared, payload: seq<byte>)
    requires SharedInv(s) && Writable(s, payload) && !IsLocked(s.tail)
    ensures s.writer == None && s.cap - (s.tail - View(s).head) == Free(View(s))
    ensures Free(View(s)) < FullSize(|payload|) ==> F.WriteCall(View(s), false, payload) == (NoSpaceContiguous, View(s))
  {
    hide Relative, Tiled, Stored, Fits, Aligned8, Matches, InMemory, Lock, Unlock, IsLocked, FullSize;
    LockBit(s.tail);
  }

  lemma WriterLocksFulfil(s: Shared, t: Tid, l: Local, v: Verdict)
    requires SharedInv(s) && LocalInv(s, t, l) && l.WLock? && Promises(s, l, v)
    ensures Fulfils(WriterStep(s, t, l), v)
  {
    hide Relative, RingInv, Tiled, Stored, Fits, EndOf, Tail, Aligned8, Matches, InMemory, Lock, Unlock, IsLocked, FullSize;
    WriterLocks(s, t, l);
    if s.tail == l.tail {
      LockBit(l.tail);
      LockedVerdict(s, l.payload, l.tail, l.head);
    }
  }

  lemma LockedVerdict(s: Shared, payload: seq<byte>, tail: nat, head: nat)
    requires SharedInv(s) && s.tail == tail == Unlock(tail) && Writable(s, payload)
    requires head <= View(s).head && FullSize(|payload|) <= s.cap - (tail - head)
    ensures s.writer == None
    ensures Commits(View(s), payload, s.cap - Relative(tail, s.cap) < FullSize(|payload|) + HEADER, F.WriteCall(View(s), false, payload))
  {
    hide Relative, Tiled, Stored, Fits, Aligned8, Matches, InMemory, Lock, Unlock, IsLocked, FullSize;
    LockBit(tail);
    var r := View(s);
    if ToWrap(r) < FullSize(|payload|) + HEADER {
      var r1 := F.AfterPlaceholder(r, payload);
    }
  }

  lemma FillFulfils(s: Shared, t: Tid, l: Local, v: Verdict)
    requires SharedInv(s) && LocalInv(s, t, l) && l.WFill? && Promises(s, l, v)
    ensures Fulfils(WriterStep(s, t, l), v)
  {
    hide Relative, RingInv, Tiled, Stored, Fits, View, EndOf, Tail, Aligned8, Matches, InMemory, Lock, Unlock, IsLocked, FullSize,
         Put64, Get64, Wrap, FilledTo, Commits, SharedInv, Believes;
    StepRefinesRing(s, t, l, SkipForceCall);
    FillKeeps(s, t, l);
    FillKeepsHistory(s, l);
    FillStaysFilling(s, l);
  }

  lemma FillStaysFilling(s: Shared, l: Local)
    requires 0 < s.cap && l.WFill?
    ensures var l' := FillStep(s, l).1;
            l' == Local.Fault || ((l'.WFill? || l'.WCommit?) && l'.payload == l.payload && l'.placeholder == l.placeholder)
  {
    hide Relative, Put64, Get64, Wrap, FullSize;
  }

  lemma WriterCommitsFulfil(s: Shared, t: Tid, l: Local, v: Verdict)
    requires SharedInv(s) && LocalInv(s, t, l) && l.WCommit? && Promises(s, l, v)
    ensures Fulfils(WriterStep(s, t, l), v)
  {
    hide Relative, RingInv, Tiled, Stored, Fits, View, EndOf, Tail, Aligned8, Matches, InMemory, Lock, Unlock, IsLocked, FullSize,
         Put64, Get64, Wrap, FilledTo;
    StepRefinesRing(s, t, l, SkipForceCall);
    WriterCommits(s, t, l);
  }

  lemma HeadLocksFulfil(s: Shared, t: Tid, l: Local, v: Verdict)
    requires SharedInv(s) && LocalInv(s, t, l) && (l.RLoadHead? || l.RLock?) && Promises(s, l, v) && Near(s, l)
    ensures Fulfils(HeadStep(s, t, l), v)
  {
    hide Relative, RingInv, Tiled, Stored, Fits, EndOf, Tail, Aligned8, Matches, InMemory, Lock, Unlock, IsLocked, Wrap;
    LockBit(s.head);
    OffsetsAligned(s);
    if l.op.Skip? {
      NearOffsets(View(s).head, l.op.offset);
    }
    if l.RLock? && s.head == l.head {
      LockBit(l.head);
    }
  }

  lemma NearOffsets(a: nat, b: nat)
    requires a <= b + HALF && b <= a + HALF
    ensures Wrap(a) == Wrap(b) <==> a == b
    ensures Aligned8(b) ==> Aligned8(Wrap(b))
  {
    if Wrap(a) == Wrap(b) {
      if a <= b { WrapInjective(b, a); } else { WrapInjective(a, b); }
    }
    if Aligned8(b) {
      WrapAligned(b);
    }
  }

  lemma HeadSeesTailFulfils(s: Shared, t: Tid, l: Local, v: Verdict)
    requires SharedInv(s) && LocalInv(s, t, l) && l.RLoadTail? && Promises(s, l, v) && Near(s, l)
    ensures Fulfils(HeadStep(s, t, l), v)
  {
    hide Relative, RingInv, Tiled, Stored, Fits, EndOf, Tail, Aligned8, Matches, InMemory, Lock, Unlock, IsLocked, Wrap;
    TailLoadIsTrue(s, t, l);
    if l.op.Skip? {
      NearOffsets(View(s).head, l.op.offset);
    }
  }

  lemma HeadLoadsFulfil(s: Shared, t: Tid, l: Local, v: Verdict)
    requires SharedInv(s) && LocalInv(s, t, l) && Promises(s, l, v) && Near(s, l)
    requires l.RSeq? || l.RPayloadSize? || l.REntrySize? || l.RCopy?
    ensures Fulfils(HeadStep(s, t, l), v)
  {
    hide Relative, RingInv, Tiled, Stored, Fits, EndOf, Tail, Aligned8, Matches, InMemory, Lock, Unlock, IsLocked, Wrap, Get64, BytesAt;
    FrontBytes(s);
    FrontOfView(s);
  }

  lemma HeadReleasesFulfil(s: Shared, t: Tid, l: Local, v: Verdict)
    requires SharedInv(s) && LocalInv(s, t, l) && (l.RCommit? || l.RUnlock?) && Promises(s, l, v) && Near(s, l)
    ensures Fulfils(HeadStep(s, t, l), v)
  {
    hide Relative, Tiled, Stored, Fits, EndOf, Tail, Aligned8, Matches, InMemory, Lock, Unlock, IsLocked, Wrap, Get64, BytesAt;
    StepRefinesRing(s, t, l, SkipForceCall);
    ReaderReleases(s, t, l);
    if l.RCommit? {
      FrontOfView(s);
      if l.op.Skip? {
        NearOffsets(View(s).head, l.op.offset);
      }
    }
  }

  lemma ForceFulfils(s: Shared, t: Tid, l: Local, v: Verdict)
    requires SharedInv(s) && LocalInv(s, t, l) && Promises(s, l, v)
    requires l.FLoadHead? || l.FLoadTail? || l.FEntrySize? || l.FCommit?
    ensures Fulfils(ForceStep(s, t, l), v)
  {
    hide Relative, RingInv, Tiled, Stored, Fits, EndOf, Tail, Aligned8, Matches, InMemory, Lock, Unlock, IsLocked, Wrap, Get64, BytesAt;
    StepRefinesRing(s, t, l, SkipForceCall);
    ForceKeeps(s, t, l);
    OffsetsAligned(s);
    EmptyIff(s);
  }

  /** One step of a busy thread keeps what its call will come to. */
  lemma StepFulfils(s: Shared, t: Tid, l: Local, v: Verdict)
    requires SharedInv(s) && LocalInv(s, t, l) && !l.Idle? && Promises(s, l, v) && Near(s, l)
    ensures Fulfils(Step(s, t, l, SkipForceCall), v)
  {
    hide Promises, SharedInv, Believes, Near, Fulfils, WriterStep, HeadStep, ForceStep, Relative;
    match l {
      case Fault => FaultNever(s, t, l);
      case WLoadTail(_) => WriterLoadsFulfil(s, t, l, v);
      case WLoadHead(_, _) => WriterLoadsFulfil(s, t, l, v);
      case WLock(_, _, _, _) => WriterLocksFulfil(s, t, l, v);
      case WFill(_, _, _, _) => FillFulfils(s, t, l, v);
      case WCommit(_, _, _, _) => WriterCommitsFulfil(s, t, l, v);
      case RLoadHead(_) => HeadLocksFulfil(s, t, l, v);
      case RLock(_, _) => HeadLocksFulfil(s, t, l, v);
      case RLoadTail(_, _) => HeadSeesTailFulfils(s, t, l, v);
      case RCommit(_, _, _, _, _) => HeadReleasesFulfil(s, t, l, v);
      case RUnlock(_, _, _, _) => HeadReleasesFulfil(s, t, l, v);
      case FLoadHead => ForceFulfils(s, t, l, v);
      case FLoadTail(_) => ForceFulfils(s, t, l, v);
      case FEntrySize(_) => ForceFulfils(s, t, l, v);
      case FCommit(_, _) => ForceFulfils(s, t, l, v);
      case _ => HeadLoadsFulfil(s, t, l, v);
    }
  }

  // ------------------------------------------------------------------
  // A thread left alone finishes
  // ------------------------------------------------------------------

  /** What shrinks each time a call starts over: the free space when a placeholder
      was committed, the live entries when one was hopped over. */
  function Laps(s: Shared, l: Local): nat
    requires |s.taken| <= |s.log|
  {
    if l.WLoadTail? || l.WLoadHead? || l.WLock? || InWriter(l) then (if Free(View(s)) < 0 then 0 else Free(View(s)))
    else if AtHead(l) then |View(s).live|
    else 0
  }

  /** An upper bound for the steps to the end of this pass. A thread about to
      compare-and-swap with a stale word has to load once more. */
  function Steps(s: Shared, l: Local): nat {
    match l
    case Idle(_) => 0
    case Fault => 0
    case WLoadTail(payload) => |payload| + 9
    case WLoadHead(payload, tail) => |payload| + (if s.tail == tail then 8 else 11)
    case WLock(payload, tail, _, _) => |payload| + (if s.tail == tail then 7 else 10)
    case WFill(payload, _, placeholder, pc) =>
      (match pc
       case CopyPayload(i) => (if i <= |payload| then |payload| - i else 0) + 6
       case StorePayloadSize => if placeholder then 5 else 4
       case StoreEntrySize => if placeholder then 4 else 5
       case StoreSeq => 3
       case LoadEntrySize => 2)
    case WCommit(_, _, _, _) => 1
    case RLoadHead(_) => |s.mem| + 9
    case RLock(_, head) => |s.mem| + (if s.head == head then 8 else 10)
    case RLoadTail(_, _) => |s.mem| + 7
    case RSeq(_, _) => |s.mem| + 6
    case RPayloadSize(_, _) => |s.mem| + 5
    case REntrySize(_, _, _) => |s.mem| + 4
    case RCopy(_, _, payloadSize, _, got) => (if |got| <= payloadSize then payloadSize - |got| else 0) + 2
    case RCommit(_, _, _, _, _) => 1
    case RUnlock(_, _, _, _) => 1
    case FLoadHead => 4
    case FLoadTail(_) => 3
    case FEntrySize(_) => 2
    case FCommit(_, _) => 1
  }

  ghost predicate Closer(s: Shared, l: Local, next: (Shared, Local)) {
    && |s.taken| <= |s.log| && |next.0.taken| <= |next.0.log|
    && (Laps(next.0, next.1) < Laps(s, l) || (Laps(next.0, next.1) == Laps(s, l) && Steps(next.0, next.1) < Steps(s, l)))
  }

  lemma WriterCloser(s: Shared, t: Tid, l: Local)
    requires SharedInv(s) && LocalInv(s, t, l) && (l.WLoadTail? || l.WLoadHead? || l.WLock?)
    ensures Closer(s, l, WriterStep(s, t, l))
  {
    hide Relative, RingInv, Tiled, Stored, Fits, EndOf, Tail, Aligned8, Matches, InMemory, Lock, Unlock, IsLocked, FullSize;
    OffsetsAligned(s);
    LockBit(s.tail);
  }

  lemma FillCloser(s: Shared, t: Tid, l: Local)
    requires SharedInv(s) && LocalInv(s, t, l) && l.WFill?
    ensures Closer(s, l, WriterStep(s, t, l))
  {
    hide Relative, RingInv, Tiled, Stored, Fits, View, EndOf, Tail, Aligned8, Matches, InMemory, Lock, Unlock, IsLocked, FullSize,
         Put64, Get64, Wrap, BytesAt;
    StepRefinesRing(s, t, l, SkipForceCall);
    FillKeepsHistory(s, l);
    FillKeeps(s, t, l);
  }

  lemma WriterCommitsCloser(s: Shared, t: Tid, l: Local)
    requires SharedInv(s) && LocalInv(s, t, l) && l.WCommit?
    ensures Closer(s, l, WriterStep(s, t, l))
  {
    hide Relative, Tiled, Stored, Fits, View, Aligned8, Matches, InMemory, Lock, Unlock, IsLocked, FullSize, Get64, Wrap, BytesAt;
    StepRefinesRing(s, t, l, SkipForceCall);
  }

  lemma HeadLocksCloser(s: Shared, t: Tid, l: Local)
    requires SharedInv(s) && LocalInv(s, t, l) && (l.RLoadHead? || l.RLock?)
    ensures Closer(s, l, HeadStep(s, t, l))
  {
    hide Relative, RingInv, Tiled, Stored, Fits, EndOf, Tail, Aligned8, Matches, InMemory, Lock, Unlock, IsLocked, Get64, Wrap, BytesAt;
    OffsetsAligned(s);
    LockBit(s.head);
  }

  lemma HeadLoadsCloser(s: Shared, t: Tid, l: Local)
    requires SharedInv(s) && LocalInv(s, t, l)
    requires l.RLoadTail? || l.RSeq? || l.RPayloadSize? || l.REntrySize? || l.RCopy?
    ensures Closer(s, l, HeadStep(s, t, l))
  {
    hide Relative, RingInv, Tiled, Stored, Fits, View, EndOf, Tail, Aligned8, Matches, InMemory, Lock, Unlock, IsLocked, Get64, Wrap, BytesAt;
    if !l.RLoadTail? {
      FrontBytes(s);
    }
  }

  lemma HeadReleasesCloser(s: Shared, t: Tid, l: Local)
    requires SharedInv(s) && LocalInv(s, t, l) && (l.RCommit? || l.RUnlock?)
    ensures Closer(s, l, HeadStep(s, t, l))
  {
    hide Relative, RingInv, Tiled, Stored, Fits, EndOf, Tail, Aligned8, Matches, InMemory, Lock, Unlock, IsLocked, Get64, Wrap, BytesAt;
    StepRefinesRing(s, t, l, SkipForceCall);
  }

  lemma HeadCloser(s: Shared, t: Tid, l: Local)
    requires SharedInv(s) && LocalInv(s, t, l) && AtHead(l)
    ensures Closer(s, l, HeadStep(s, t, l))
  {
    hide SharedInv, Believes, Closer, HeadStep, Relative;
    if l.RLoadHead? || l.RLock? {
      HeadLocksCloser(s, t, l);
    } else if l.RCommit? || l.RUnlock? {
      HeadReleasesCloser(s, t, l);
    } else {
      HeadLoadsCloser(s, t, l);
    }
  }

  lemma ForceCloser(s: Shared, t: Tid, l: Local)
    requires SharedInv(s) && LocalInv(s, t, l)
    requires l.FLoadHead? || l.FLoadTail? || l.FEntrySize? || l.FCommit?
    ensures Closer(s, l, ForceStep(s, t, l))
  {
    hide Relative, RingInv, Tiled, Stored, Fits, View, EndOf, Tail, Aligned8, Matches, InMemory, Lock, Unlock, IsLocked, Get64, Wrap, BytesAt;
    ForceKeeps(s, t, l);
  }

  /** Every step of a busy thread brings it closer to the end of its call. */
  lemma StepCloser(s: Shared, t: Tid, l: Local)
    requires SharedInv(s) && LocalInv(s, t, l) && !l.Idle?
    ensures Closer(s, l, Step(s, t, l, SkipForceCall))
  {
    hide SharedInv, Believes, Closer, WriterStep, HeadStep, ForceStep, Relative;
    if l.Fault? {
      FaultNever(s, t, l);
    } else if AtHead(l) {
      HeadCloser(s, t, l);
    } else if l.FLoadHead? || l.FLoadTail? || l.FEntrySize? || l.FCommit? {
      ForceCloser(s, t, l);
    } else if l.WFill? {
      FillCloser(s, t, l);
    } else if l.WCommit? {
      WriterCommitsCloser(s, t, l);
    } else {
      WriterCloser(s, t, l);
    }
  }

  /** Thread t runs alone until its call returns. That this is a function at all is
      the first half of the result: from every state of the invariant a thread that
      is left alone returns, whatever it was doing. */
  ghost function Finish(s: Shared, t: Tid, l: Local): (r: (Shared, Local))
    requires SharedInv(s) && LocalInv(s, t, l)
    ensures SharedInv(r.0) && LocalInv(r.0, t, r.1) && r.1.Idle?
    decreases Laps(s, l), Steps(s, l)
  {
    if l.Idle? then (s, l)
    else
      StepKeeps(s, t, l, SkipForceCall);
      StepCloser(s, t, l);
      var (s', l') := Step(s, t, l, SkipForceCall);
      Finish(s', t, l')
  }

  /** The second half: it returns the verdict of the sequential operation, started
      where the call now stands, and leaves its ring. */
  lemma {:induction false} FinishFulfils(s: Shared, t: Tid, l: Local, v: Verdict)
    requires SharedInv(s) && LocalInv(s, t, l) && Promises(s, l, v) && Near(s, l)
    ensures var (s', l') := Finish(s, t, l);
            l'.last.Some? && (l'.last.value.status, View(s')) == v
    decreases Laps(s, l), Steps(s, l)
  {
    hide Believes, Step, Relative, RingInv, View, Stored, Tiled, Lock, Unlock, IsLocked, Near, Laps, Steps;
    if !l.Idle? {
      StepKeeps(s, t, l, SkipForceCall);
      StepCloser(s, t, l);
      StepFulfils(s, t, l, v);
      var (s', l') := Step(s, t, l, SkipForceCall);
      FinishFulfils(s', t, l', v);
    }
  }

  /** What the sequential operation answers to a call. */
  function CallVerdict(s: Shared, call: Call): Verdict
    requires |s.taken| <= |s.log| && RingInv(View(s))
  {
    match call
    case WriteCall(payload) => F.WriteCall(View(s), s.writer.Some?, payload)
    case HeadCall(op) => HeadVerdict(op, View(s), s.reader.Some?, s.writer.Some?)
    case SkipForceCall => F.SkipForceCall(View(s), s.reader.Some?)
  }

  /** A skip is asked about an offset less than half the 64-bit range away from the
      head: further away the unbounded offsets of the machine tell apart what 64-bit
      words do not. */
  ghost predicate NearCall(s: Shared, call: Call) {
    |s.taken| <= |s.log| &&
    (call.HeadCall? && call.op.Skip? ==> call.op.offset <= View(s).head + HALF && View(s).head <= call.op.offset + HALF)
  }

  lemma StartPromises(s: Shared, t: Tid, l: Local, call: Call)
    requires SharedInv(s) && LocalInv(s, t, l) && l.Idle? && NearCall(s, call)
    ensures Promises(s, Start(s, call), CallVerdict(s, call)) && Near(s, Start(s, call))
  {
    hide Relative, Tiled, Stored, Lock, Unlock, IsLocked, Matches, Aligned8, Wrap;
    if call.HeadCall? && call.op.Skip? {
      WrapAligned(call.op.offset);
    }
  }

  /** The two models agree: a call made in any reachable state and not interfered
      with returns the status, and leaves the ring, of the sequential operation with
      the lock bits as the others left them. */
  lemma CallAlone(run: seq<State>, schedule: seq<(Tid, Call)>, i: nat, t: Tid, call: Call)
    requires IsRun(run, schedule) && i < |run| && t in run[i].threads && run[i].threads[t].Idle?
    requires NearCall(run[i].shared, call)
    ensures SharedInv(run[i].shared) && LocalInv(run[i].shared, t, Start(run[i].shared, call))
    ensures var (s', l') := Finish(run[i].shared, t, Start(run[i].shared, call));
            && l'.last.Some?
            && (l'.last.value.status, View(s')) == CallVerdict(run[i].shared, call)
  {
    hide Believes, Relative, RingInv, View, IsRun, Stored, Tiled, Lock, Unlock, IsLocked, Near, NearCall, Start, CallVerdict, Promises;
    RunInv(run, schedule, i);
    var s, l := run[i].shared, run[i].threads[t];
    StartKeeps(s, t, l, call);
    StartPromises(s, t, l, call);
    FinishFulfils(s, t, Start(s, call), CallVerdict(s, call));
  }

  /** Every busy thread has something promised to it, so FinishFulfils speaks about
      every reachable state, not only about fresh calls. */
  lemma Promised(s: Shared, t: Tid, l: Local) returns (v: Verdict)
    requires SharedInv(s) && LocalInv(s, t, l) && !l.Idle?
    ensures Promises(s, l, v)
  {
    hide Relative, Tiled, Stored, Lock, Unlock, IsLocked, Matches, Aligned8, Wrap, RingInv, EndOf, Tail, InMemory, FilledTo;
    var r, tailLocked := View(s), s.writer.Some?;
    match l {
      case Fault => FaultNever(s, t, l); v := (Status.Ok, r);
      case WLoadTail(payload) => v := F.WriteCall(r, tailLocked, payload);
      case WLoadHead(payload, tail) =>
        v := if s.cap - (tail - r.head) < FullSize(|payload|) then (NoSpaceContiguous, r) else F.WriteCall(r, tailLocked, payload);
      case WLock(payload, tail, head, placeholder) => v := F.WriteCall(r, tailLocked, payload);
      case WFill(payload, _, placeholder, _) => v := PromisedCommit(s, payload, l.tail, placeholder);
      case WCommit(payload, _, placeholder, _) => v := PromisedCommit(s, payload, l.tail, placeholder);
      case RLoadHead(op) => v := HeadVerdict(op, r, s.reader.Some?, tailLocked);
      case RLock(op, head) => v := HeadVerdict(op, r, s.reader.Some?, tailLocked);
      case RLoadTail(op, head) => v := HeadVerdict(op, r, false, tailLocked);
      case RUnlock(op, head, status, payloadSize) => v := (status, r);
      case FLoadHead => v := F.SkipForceCall(r, s.reader.Some?);
      case FLoadTail(head) => v := if head == Tail(r) then (Empty, r) else ForceVerdict(s, r, head);
      case FEntrySize(head) => v := ForceVerdict(s, r, head);
      case FCommit(head, entrySize) => v := ForceVerdict(s, r, head);
      case RSeq(op, _) => v := FrontVerdict(op, r, tailLocked);
      case RPayloadSize(op, _) => v := FrontVerdict(op, r, tailLocked);
      case REntrySize(op, _, _) => v := FrontVerdict(op, r, tailLocked);
      case RCopy(op, _, _, _, _) => v := FrontVerdict(op, r, tailLocked);
      case RCommit(op, _, _, _, _) => v := FrontVerdict(op, r, tailLocked);
    }
  }

  lemma PromisedCommit(s: Shared, payload: seq<byte>, tail: nat, placeholder: bool) returns (v: Verdict)
    requires SharedInv(s) && Reserves(s, payload, tail, placeholder)
    ensures Commits(View(s), payload, placeholder, v)
  {
    hide Relative, Tiled, Stored, Lock, Unlock, IsLocked, Matches, Aligned8, InMemory, View;
    var r := View(s);
    if placeholder {
      AppendKeepsInv(r, [], ToWrap(r));
      v := F.WriteCall(Append(r, [], ToWrap(r)), false, payload);
    } else {
      v := (Status.Ok, Append(r, payload, FullSize(|payload|)));
    }
  }

  /** From any reachable state, in the middle of any operation: the call of a thread
      that is left alone returns, and what it returns and leaves behind is promised
      to it already. */
  lemma AloneFromAnywhere(run: seq<State>, schedule: seq<(Tid, Call)>, i: nat, t: Tid) returns (v: Verdict)
    requires IsRun(run, schedule) && i < |run| && t in run[i].threads && !run[i].threads[t].Idle?
    requires |run[i].shared.taken| <= |run[i].shared.log| && Near(run[i].shared, run[i].threads[t])
    ensures SharedInv(run[i].shared) && LocalInv(run[i].shared, t, run[i].threads[t])
    ensures Promises(run[i].shared, run[i].threads[t], v)
    ensures var (s', l') := Finish(run[i].shared, t, run[i].threads[t]);
            l'.last.Some? && (l'.last.value.status, View(s')) == v
  {
    hide Believes, Relative, RingInv, View, IsRun, Stored, Tiled, Lock, Unlock, IsLocked, Near, Promises;
    RunInv(run, schedule, i);
    v := Promised(run[i].shared, t, run[i].threads[t]);
    FinishFulfils(run[i].shared, t, run[i].threads[t], v);
  }
}
