/** What the invariant gives: single steps seen from outside, and whole runs under
    every schedule. */
module Runs {
  import opened Words
  import opened RingModel
  import opened Wrappers
  import opened Fifo
  import opened Machine
  import opened MachineInv
  import opened MachineProof

  // ------------------------------------------------------------------
  // One step
  // ------------------------------------------------------------------

  /** Returning from a call: the thread was busy and is idle afterwards. */
  predicate Returns(l: Local, l': Local, status: Status) {
    !l.Idle? && l'.Idle? && l'.last.Some? && l'.last.value.status == status
  }

  /** Seen on the ring of live entries, every step of every operation does
      nothing, appends one entry, or pops the front: the concurrent operations
      move exactly the way the sequential ones do. */
  lemma StepRefinesRing(s: Shared, t: Tid, l: Local, call: Call)
    requires SharedInv(s) && LocalInv(s, t, l)
    ensures var (s', l') := Step(s, t, l, call);
            && SharedInv(s')
            && (l.WCommit? ==> View(s') == Append(View(s), Payload(l.payload, l.placeholder), l.size))
            && (l.RCommit? || (l.FCommit? && s.head == l.head) ==> View(s).live != [] && View(s') == Pop(View(s)))
            && (!l.WCommit? && !l.RCommit? && !(l.FCommit? && s.head == l.head) ==> View(s') == View(s))
  {
    hide SharedInv, Believes, Step, WriterStep, HeadStep, ForceStep, View, Relative, Start, Lock, Unlock, IsLocked;
    CapacityBounds(s);
    StepKeeps(s, t, l, call);
    StepEvents(s, t, l, call);
    if l.WCommit? {
      CommitAppends(s, t, l, call);
    } else if l.RCommit? || (l.FCommit? && s.head == l.head) {
      ConsumptionPops(s, t, l, call);
    } else {
      SameLogsSameView(s, Step(s, t, l, call).0);
    }
  }

  lemma SameLogsSameView(s: Shared, s': Shared)
    requires |s.taken| <= |s.log| && s'.cap == s.cap && s'.log == s.log && s'.taken == s.taken
    ensures View(s') == View(s)
  {
  }

  lemma CommitAppends(s: Shared, t: Tid, l: Local, call: Call)
    requires SharedInv(s) && LocalInv(s, t, l) && l.WCommit?
    ensures var s' := Step(s, t, l, call).0;
            SharedInv(s') && View(s') == Append(View(s), Payload(l.payload, l.placeholder), l.size)
  {
    hide Relative, Lock, Unlock, IsLocked, RingInv, Tiled, Stored, Fits, EndOf, Aligned8, InMemory, Get64, BytesAt, Wrap, Matches;
    OffsetsAligned(s);
    var s1 := CommitTail(s, t, ReservedEntry(s.cap, l.payload, l.tail, l.placeholder));
  }

  lemma ConsumptionPops(s: Shared, t: Tid, l: Local, call: Call)
    requires SharedInv(s) && LocalInv(s, t, l) && (l.RCommit? || (l.FCommit? && s.head == l.head))
    ensures var s' := Step(s, t, l, call).0;
            SharedInv(s') && View(s).live != [] && View(s') == Pop(View(s))
  {
    hide Relative, Lock, Unlock, IsLocked, RingInv, Tiled, Stored, Fits, EndOf, Aligned8, InMemory, Get64, BytesAt, Wrap;
    OffsetsAligned(s);
    FrontOfView(s);
    if l.RCommit? {
      var s1 := Consume(s, t, Taken(t, HowTaken(l.op, l.payloadSize), l.head, l.got));
    } else {
      var s1 := Consume(s, t, Taken(t, ByForce, l.head, []));
    }
  }

  /** m' has the bytes of m at the logical offsets lo <= p < hi. */
  ghost predicate SameWindow(m: seq<byte>, m': seq<byte>, cap: nat, lo: nat, hi: nat) {
    && 0 < cap && |m| == cap && |m'| == cap
    && forall p :: lo <= p < hi ==> m'[Relative(p, cap)] == m[Relative(p, cap)]
  }

  /** The only memory a step can change is the region its writer reserved. */
  lemma FillTouchesReserved(s: Shared, t: Tid, l: Local) returns (size: nat)
    requires SharedInv(s) && LocalInv(s, t, l) && l.WFill?
    ensures 0 < size <= Free(View(s)) && Relative(Tail(View(s)), s.cap) + size <= s.cap
    ensures SameOutside(s.mem, FillStep(s, l).0.mem, Relative(Tail(View(s)), s.cap), Relative(Tail(View(s)), s.cap) + size)
  {
    hide Relative, RingInv, Tiled, Stored, Fits, View, EndOf, Tail, Aligned8, Matches, InMemory, Lock, Unlock, IsLocked, Put64, Wrap, FilledTo, Get64;
    var e := ReservedEntry(s.cap, l.payload, l.tail, l.placeholder);
    var p := Relative(l.tail, s.cap);
    size := e.size;
    match l.pc {
      case CopyPayload(i) =>
        CopyIsOfAnEntry(s.mem, p, e, l.placeholder, l.pc);
        if i < |l.payload| {
          CopyByte(s.mem, p, e, i);
        }
      case LoadEntrySize =>
      case _ =>
        CapacityBounds(s);
        StoreWord(s.mem, p, e, l.placeholder, l.pc);
    }
  }

  /** No step of any thread changes a byte of the committed window. */
  lemma StepKeepsWindow(s: Shared, t: Tid, l: Local, call: Call)
    requires SharedInv(s) && LocalInv(s, t, l)
    ensures SameWindow(s.mem, Step(s, t, l, call).0.mem, s.cap, View(s).head, Tail(View(s)))
  {
    hide Relative, RingInv, Tiled, Stored, Fits, View, EndOf, Tail, Aligned8, Matches, InMemory, Lock, Unlock, IsLocked, Put64, Wrap, Get64, Believes, FillStep;
    CapacityBounds(s);
    if l.WFill? {
      var size := FillTouchesReserved(s, t, l);
      var m' := FillStep(s, l).0.mem;
      var a, b := View(s).head, Tail(View(s));
      forall p | a <= p < b
        ensures m'[Relative(p, s.cap)] == s.mem[Relative(p, s.cap)]
      {
        RegionsDisjoint(s.cap, p, 1, b, size);
      }
    }
  }

  /** A read, peek or skip decides EMPTY and NOT_READY by its load of the tail, and
      at that moment the answer is true. */
  lemma TailLoadIsTrue(s: Shared, t: Tid, l: Local)
    requires SharedInv(s) && LocalInv(s, t, l) && l.RLoadTail?
    ensures var l' := HeadStep(s, t, l).1;
            && (l' == RUnlock(l.op, l.head, Empty, 0) <==> View(s).live == [])
            && (l' == RUnlock(l.op, l.head, NotReady, 0) <==> View(s).live != [] && s.writer.Some?)
            && (l' == RSeq(l.op, l.head) <==> View(s).live != [] && s.writer == None)
  {
    hide Relative, RingInv, Tiled, Stored, Fits, EndOf, Tail, Aligned8, Matches, InMemory, Lock, Unlock, IsLocked, Put64, Wrap, Get64, FilledTo;
    EmptyIff(s);
  }

  /** The final compare-and-swap of skip_force: when it succeeds, the size it adds
      is the size of the entry still at the head; when it fails nothing changes. */
  lemma ForceSwap(s: Shared, t: Tid, l: Local)
    requires SharedInv(s) && LocalInv(s, t, l) && l.FCommit?
    ensures var (s', l') := ForceStep(s, t, l);
            if s.head == l.head then
              View(s).live != [] && l.entrySize == View(s).live[0].size && SharedInv(s') && View(s') == Pop(View(s))
            else s' == s && l' == Fail(AlreadySkipped, s.head)
    ensures s.reader.Some? ==> ForceStep(s, t, l).0 == s
  {
    hide Relative, RingInv, Tiled, Stored, Fits, EndOf, Tail, Aligned8, InMemory, Lock, Unlock, IsLocked, Put64, Wrap, Get64, FilledTo;
    OffsetsAligned(s);
    if s.head == l.head {
      FrontOfView(s);
      var s1 := Consume(s, t, Taken(t, ByForce, l.head, []));
    }
  }

  /** What a step adds to the log of commits. */
  function Committed(l: Local): seq<Entry> {
    if l.WCommit? then [Entry(l.tail, l.size, Payload(l.payload, l.placeholder))] else []
  }

  /** What a step of thread t adds to the consumptions. */
  function TakenBy(s: Shared, t: Tid, l: Local): seq<Taken> {
    if l.RCommit? then [Taken(t, HowTaken(l.op, l.payloadSize), l.head, l.got)]
    else if l.FCommit? && s.head == l.head then [Taken(t, ByForce, l.head, [])]
    else []
  }

  /** How the result of a step and the history variables fit together. */
  ghost predicate Consistent(s: Shared, t: Tid, l: Local, next: (Shared, Local)) {
    && next.0.log == s.log + Committed(l) && next.0.taken == s.taken + TakenBy(s, t, l)
    && (Returns(l, next.1, Ok) <==>
          || (l.WCommit? && !l.placeholder)
          || (TakenBy(s, t, l) != [] && TakenBy(s, t, l)[0].how != ByHop)
          || (l.RUnlock? && l.status == Ok && l.op.Peek?))
    && (TakenBy(s, t, l) != [] && TakenBy(s, t, l)[0].how != ByHop ==> next.1.last.value.at == l.head)
    && (TakenBy(s, t, l) != [] && TakenBy(s, t, l)[0].how == ByRead ==> next.1.last.value.bytes == l.got)
  }

  /** The results of the calls and the history variables tell the same story:
      a write returns OK exactly in the step that appends its payload to the log;
      a read, skip or skip_force returns OK exactly in the step that consumes an
      entry, and a read returns the bytes recorded for it. The only other OK is
      that of a peek. */
  lemma StepEvents(s: Shared, t: Tid, l: Local, call: Call)
    requires SharedInv(s) && LocalInv(s, t, l)
    ensures Consistent(s, t, l, Step(s, t, l, call))
  {
    hide Believes, WriterStep, HeadStep, ForceStep, FullSize, Aligned8, Consistent, Tiled, RingInv, View, Stored, Relative, Lock, Unlock, IsLocked;
    if AtHead(l) {
      HeadEvents(s, t, l);
    } else if l.FLoadHead? || l.FLoadTail? || l.FEntrySize? || l.FCommit? {
      ForceEvents(s, t, l);
    } else if l.Idle? || l.Fault? {
      IdleEvents(s, t, l, call);
    } else {
      WriteEvents(s, t, l);
    }
  }

  lemma IdleEvents(s: Shared, t: Tid, l: Local, call: Call)
    requires l.Idle? || l.Fault?
    ensures Consistent(s, t, l, (s, Start(s, call))) && Consistent(s, t, l, (s, l))
  {
    hide Relative, RingInv, Tiled, Stored, Fits, View, EndOf, Tail, Aligned8, Matches, InMemory, Put64, Wrap, Get64, FilledTo, FullSize,
         FillStep, Lock, Unlock, IsLocked;
  }

  lemma WriteEvents(s: Shared, t: Tid, l: Local)
    requires SharedInv(s) && LocalInv(s, t, l)
    requires l.WLoadTail? || l.WLoadHead? || l.WLock? || l.WFill? || l.WCommit?
    ensures Consistent(s, t, l, WriterStep(s, t, l))
  {
    hide Relative, RingInv, Tiled, Stored, Fits, View, EndOf, Tail, Aligned8, Matches, InMemory, Put64, Wrap, Get64, FilledTo, FullSize,
         FillStep, Lock, Unlock, IsLocked;
    if l.WFill? {
      FillKeepsHistory(s, l);
    }
  }

  lemma FillKeepsHistory(s: Shared, l: Local)
    requires 0 < s.cap && l.WFill?
    ensures FillStep(s, l).0.log == s.log && FillStep(s, l).0.taken == s.taken && !FillStep(s, l).1.Idle?
  {
    hide Relative, Put64, Get64, Wrap;
  }

  lemma HeadEvents(s: Shared, t: Tid, l: Local)
    requires SharedInv(s) && LocalInv(s, t, l) && AtHead(l)
    ensures Consistent(s, t, l, HeadStep(s, t, l))
  {
    hide Relative, RingInv, Tiled, Stored, Fits, View, EndOf, Tail, Aligned8, Matches, InMemory, Put64, Wrap, Get64, FilledTo, FullSize,
         FillStep, Lock, Unlock, IsLocked;
  }

  lemma ForceEvents(s: Shared, t: Tid, l: Local)
    requires SharedInv(s) && LocalInv(s, t, l)
    requires l.FLoadHead? || l.FLoadTail? || l.FEntrySize? || l.FCommit?
    ensures Consistent(s, t, l, ForceStep(s, t, l))
  {
    hide Relative, RingInv, Tiled, Stored, Fits, View, EndOf, Tail, Aligned8, Matches, InMemory, Put64, Wrap, Get64, FilledTo, FullSize,
         FillStep, Lock, Unlock, IsLocked;
  }

  // ------------------------------------------------------------------
  // Whole runs, under every schedule
  // ------------------------------------------------------------------

  /** Every reachable state satisfies the invariant. */
  lemma {:induction false} RunInv(run: seq<State>, schedule: seq<(Tid, Call)>, i: nat)
    requires IsRun(run, schedule) && i < |run|
    ensures Inv(run[i]) && run[i].threads.Keys == run[0].threads.Keys
    decreases i
  {
    hide Inv, Step;
    if i == 0 {
      InitInv(run[0]);
    } else {
      RunInv(run, schedule, i - 1);
      assert schedule[i - 1].0 in run[i - 1].threads;
      NextKeepsInv(run[i - 1], schedule[i - 1].0, schedule[i - 1].1);
    }
  }

  /** One step of a run, with everything that is known about it. */
  lemma RunStep(run: seq<State>, schedule: seq<(Tid, Call)>, i: nat) returns (t: Tid, call: Call)
    requires IsRun(run, schedule) && i < |schedule|
    ensures t in run[i].threads && 0 < run[i].shared.cap && t == schedule[i].0 && call == schedule[i].1
    ensures run[i + 1] == Next(run[i], t, call)
    ensures Inv(run[i]) && Inv(run[i + 1])
    ensures Guarantee(run[i].shared, run[i + 1].shared, t)
    ensures forall u :: u != t && u in run[i].threads ==> u in run[i + 1].threads && run[i + 1].threads[u] == run[i].threads[u]
  {
    hide Inv, Step, Guarantee;
    t, call := schedule[i].0, schedule[i].1;
    RunInv(run, schedule, i);
    RunInv(run, schedule, i + 1);
    NextKeepsInv(run[i], t, call);
  }

  /** Entry k starts where the one before it ends, does not cross the wrap, starts with
      a header that carries its own offset, and leaves room for the next header. */
  ghost predicate EntryLaidOut(m: seq<byte>, r: Ring, k: nat)
    requires k < |r.live| && 0 < r.cap
  {
    var e := r.live[k];
    && e.off == (if k == 0 then r.head else r.live[k - 1].off + r.live[k - 1].size)
    && Aligned8(e.off) && Aligned8(e.size) && 24 <= e.size
    && Relative(e.off, r.cap) + e.size <= r.cap
    && (e.payload != [] ==> Relative(e.off, r.cap) + e.size + 24 <= r.cap)
    && HeaderAt(m, Relative(e.off, r.cap), Wrap(e.off), |e.payload|, e.size)
    && BytesAt(m, Relative(e.off, r.cap) + 24, e.payload)
  }

  /** The entries fill [head, tail), which is never longer than the data area. */
  ghost predicate LaidOut(s: Shared, r: Ring) {
    && 0 < r.cap == s.cap
    && Unlock(s.head) == r.head && Unlock(s.tail) == Tail(r) && r.head <= Tail(r) <= r.head + s.cap
    && (32 <= s.cap ==> Relative(r.head, s.cap) + 24 <= s.cap && Relative(Tail(r), s.cap) + 24 <= s.cap)
    && forall k :: 0 <= k < |r.live| ==> EntryLaidOut(s.mem, r, k)
  }

  lemma EntryIsLaidOut(m: seq<byte>, r: Ring, k: nat)
    requires RingInv(r) && Stored(m, r) && k < |r.live|
    ensures EntryLaidOut(m, r, k)
  {
    hide Relative, Get64, BytesAt, Wrap, Aligned8, HeaderAt;
    assert Fits(r.cap, r.live[k]) && InMemory(m, r.live[k]);
    if k > 0 {
      assert r.live[k - 1 + 1].off == End(r.live[k - 1]);
    }
  }

  lemma InvIsLaidOut(s: Shared)
    requires SharedInv(s)
    ensures LaidOut(s, View(s))
  {
    hide Relative, Lock, Unlock, IsLocked, Stored, Tiled, Fits, Aligned8, Matches, View, EndOf, EntryLaidOut;
    var r := View(s);
    EmptyIff(s);
    if 32 <= s.cap {
      TailIsBoundary(r);
    }
    forall k | 0 <= k < |r.live|
      ensures EntryLaidOut(s.mem, r, k)
    {
      EntryIsLaidOut(s.mem, r, k);
    }
  }

  /** What the data area looks like in every reachable state. */
  lemma Layout(run: seq<State>, schedule: seq<(Tid, Call)>, i: nat)
    requires IsRun(run, schedule) && i < |run|
    ensures |run[i].shared.taken| <= |run[i].shared.log| && LaidOut(run[i].shared, View(run[i].shared))
  {
    hide LaidOut, IsRun, View, Relative, Stored, Tiled, RingInv, Matches;
    RunInv(run, schedule, i);
    InvIsLaidOut(run[i].shared);
  }

  /** Every step of a run, by whatever thread and in whatever interleaving, leaves the
      ring of live entries alone, appends the entry a writer had reserved, or pops the
      front; and it appends or pops exactly in the commit steps. */
  lemma RunRefinesRing(run: seq<State>, schedule: seq<(Tid, Call)>, i: nat)
    requires IsRun(run, schedule) && i < |schedule|
    ensures schedule[i].0 in run[i].threads
    ensures var s, s', l := run[i].shared, run[i + 1].shared, run[i].threads[schedule[i].0];
            && |s.taken| <= |s.log| && |s'.taken| <= |s'.log|
            && if l.WCommit? then View(s') == Append(View(s), Payload(l.payload, l.placeholder), l.size)
               else if l.RCommit? || (l.FCommit? && s.head == l.head) then View(s).live != [] && View(s') == Pop(View(s))
               else View(s') == View(s)
  {
    hide Step, View, Tail, Relative, Stored, RingInv, Tiled, Fits, Lock, Unlock, IsLocked, Believes;
    var t, call := RunStep(run, schedule, i);
    StepRefinesRing(run[i].shared, t, run[i].threads[t], call);
  }

  /** What is true in the step in which a call of state l answers: the status, and the
      offset, size and bytes that come with it. EMPTY and NOT_READY of read, peek and skip
      are decided earlier in the call: see NegativeAnswerWasTrue. */
  ghost predicate TrueAnswer(s: Shared, l: Local, answer: Outcome)
    requires |s.taken| <= |s.log|
  {
    var r := View(s);
    match answer.status
    case Ok =>
      if l.WCommit? then !l.placeholder
      else
        && r.live != [] && answer.at == r.live[0].off == r.head
        && (l.RUnlock? || l.RCommit? || (l.FCommit? && s.head == l.head))
        && (!l.FCommit? ==> !IsPlaceholder(r.live[0]) && answer.size == |r.live[0].payload|)
        && (l.RUnlock? ==> l.op.Peek?)
        && (l.RCommit? ==> !l.op.Peek?)
        && (l.RCommit? && l.op.Read? ==> answer.bytes == r.live[0].payload && answer.size <= l.op.room)
        && (l.RCommit? && l.op.Skip? ==> answer.at == l.op.offset)
    case Locked => (l.RLoadHead? && s.reader.Some?) || (l.WLoadTail? && s.writer.Some?)
    case OffsetMismatch =>
      l.RLoadHead? && l.op.Skip? && s.reader == None && r.head != l.op.offset && answer.at == r.head
    case NoSpaceContiguous => l.WLoadHead? && Free(r) < FullSize(|l.payload|)
    case TooSmall =>
      l.RUnlock? && l.op.Read? && r.live != [] && answer.at == r.head && l.op.room < |r.live[0].payload|
    case AlreadySkipped => l.FCommit? && s.head != l.head && answer.at == s.head
    case Empty =>
      answer.at == r.head && if l.FLoadTail? then r.live == [] else l.RUnlock? && l.status == Empty
    case NotReady => l.RUnlock? && l.status == NotReady && answer.at == r.head
    case _ => false
  }

  lemma HeadAnswers(s: Shared, t: Tid, l: Local)
    requires SharedInv(s) && LocalInv(s, t, l) && AtHead(l)
    ensures var l' := HeadStep(s, t, l).1;
            l'.Idle? ==> l'.last.Some? && TrueAnswer(s, l, l'.last.value)
  {
    hide Relative, RingInv, Tiled, Stored, Fits, EndOf, Tail, Aligned8, InMemory, Lock, Unlock, IsLocked, Get64, BytesAt, Wrap, Matches;
    LockBit(s.head);
    if |s.taken| < |s.log| {
      FrontOfView(s);
    }
  }

  lemma ForceAnswers(s: Shared, t: Tid, l: Local)
    requires SharedInv(s) && LocalInv(s, t, l)
    requires l.FLoadHead? || l.FLoadTail? || l.FEntrySize? || l.FCommit?
    ensures var l' := ForceStep(s, t, l).1;
            l'.Idle? ==> l'.last.Some? && TrueAnswer(s, l, l'.last.value)
  {
    hide Relative, RingInv, Tiled, Stored, Fits, EndOf, Tail, Aligned8, InMemory, Lock, Unlock, IsLocked, Get64, BytesAt, Wrap, Matches;
    OffsetsAligned(s);
    EmptyIff(s);
    if |s.taken| < |s.log| {
      FrontOfView(s);
    }
  }

  lemma WriteAnswers(s: Shared, t: Tid, l: Local)
    requires SharedInv(s) && LocalInv(s, t, l)
    requires l.WLoadTail? || l.WLoadHead? || l.WLock? || l.WFill? || l.WCommit?
    ensures var l' := WriterStep(s, t, l).1;
            l'.Idle? ==> l'.last.Some? && TrueAnswer(s, l, l'.last.value)
  {
    hide Relative, RingInv, Tiled, Stored, Fits, View, EndOf, Tail, Aligned8, Matches, InMemory, Put64, Wrap, Get64, FilledTo, FullSize,
         FillStep, Lock, Unlock, IsLocked;
    if l.WFill? {
      FillKeepsHistory(s, l);
    }
  }

  /** Every answer of a busy thread is true in the step that gives it. */
  lemma StepAnswers(s: Shared, t: Tid, l: Local, call: Call)
    requires SharedInv(s) && LocalInv(s, t, l) && !l.Idle?
    ensures var l' := Step(s, t, l, call).1;
            l'.Idle? ==> l'.last.Some? && TrueAnswer(s, l, l'.last.value)
  {
    hide SharedInv, Believes, TrueAnswer, WriterStep, HeadStep, ForceStep, View;
    CapacityBounds(s);
    if l.Fault? {
      FaultNever(s, t, l);
    } else if AtHead(l) {
      HeadAnswers(s, t, l);
    } else if l.FLoadHead? || l.FLoadTail? || l.FEntrySize? || l.FCommit? {
      ForceAnswers(s, t, l);
    } else {
      WriteAnswers(s, t, l);
    }
  }

  /** In every run, whatever the interleaving: the answer of a call is true, and what it
      returns is that of the entry at the head, in the very step in which it returns. */
  lemma AnswersAreTrue(run: seq<State>, schedule: seq<(Tid, Call)>, i: nat)
    requires IsRun(run, schedule) && i < |schedule|
    ensures schedule[i].0 in run[i].threads && schedule[i].0 in run[i + 1].threads
    ensures var t, s := schedule[i].0, run[i].shared;
            var l, l' := run[i].threads[t], run[i + 1].threads[t];
            && |s.taken| <= |s.log|
            && (!l.Idle? && l'.Idle? ==> l'.last.Some? && TrueAnswer(s, l, l'.last.value))
  {
    hide Step, View, Tail, Relative, Stored, RingInv, Tiled, Fits, Lock, Unlock, IsLocked, Believes, FullSize, TrueAnswer;
    var t, call := RunStep(run, schedule, i);
    var s, l := run[i].shared, run[i].threads[t];
    if !l.Idle? {
      StepAnswers(s, t, l, call);
    }
  }

  /** The lock-free swap of skip_force in a run: when it succeeds, the size it adds is
      that of the entry still at the head; when a reader holds the lock, or the head
      has moved on, nothing changes. */
  lemma ForceIsSafe(run: seq<State>, schedule: seq<(Tid, Call)>, i: nat)
    requires IsRun(run, schedule) && i < |schedule| && schedule[i].0 in run[i].threads
    requires run[i].threads[schedule[i].0].FCommit?
    ensures var s, s', l := run[i].shared, run[i + 1].shared, run[i].threads[schedule[i].0];
            && |s.taken| <= |s.log| && |s'.taken| <= |s'.log|
            && (s.head == l.head ==> View(s).live != [] && l.entrySize == View(s).live[0].size && View(s') == Pop(View(s)))
            && (s.head != l.head || s.reader.Some? ==> s' == s && s.head != l.head)
  {
    hide View, Tail, Relative, Stored, RingInv, Tiled, Fits, Lock, Unlock, IsLocked, Believes, FullSize;
    var t, call := RunStep(run, schedule, i);
    ForceSwap(run[i].shared, t, run[i].threads[t]);
  }

  ghost predicate Grown(a: Shared, b: Shared)
    requires |a.taken| <= |a.log| && |b.taken| <= |b.log|
  {
    && a.cap == b.cap && a.log <= b.log && a.taken <= b.taken
    && View(a).head <= View(b).head && Tail(View(a)) <= Tail(View(b)) && a.tail <= b.tail
  }

  /** Along a run nothing is forgotten and no offset ever decreases. */
  lemma {:induction false} RunGrows(run: seq<State>, schedule: seq<(Tid, Call)>, i: nat, j: nat)
    requires IsRun(run, schedule) && i <= j < |run|
    ensures Inv(run[i]) && Inv(run[j]) && Grown(run[i].shared, run[j].shared)
    decreases j
  {
    hide Next, View, Tail, Relative, Stored, RingInv, Tiled;
    RunInv(run, schedule, j);
    if i < j {
      RunGrows(run, schedule, i, j - 1);
      var t, call := RunStep(run, schedule, j - 1);
    }
  }

  lemma SameWindowCompose(a: seq<byte>, b: seq<byte>, c: seq<byte>, cap: nat, lo: nat, hi: nat, lo': nat, hi': nat)
    requires SameWindow(a, b, cap, lo, hi) && SameWindow(b, c, cap, lo, hi') && lo <= lo' && hi <= hi'
    ensures SameWindow(a, c, cap, lo', hi)
  {
    hide Relative;
  }

  /** A byte of the committed window keeps its value until the head has passed it. */
  lemma {:induction false} RunKeepsWindow(run: seq<State>, schedule: seq<(Tid, Call)>, i: nat, j: nat)
    requires IsRun(run, schedule) && i <= j < |run|
    ensures Inv(run[i]) && Inv(run[j])
    ensures SameWindow(run[i].shared.mem, run[j].shared.mem, run[i].shared.cap,
                       View(run[j].shared).head, Tail(View(run[i].shared)))
    decreases j
  {
    hide View, Tail, Relative, Step, Stored, RingInv, Tiled, SharedInv, Believes, Guarantee, InReader, InWriter;
    RunGrows(run, schedule, i, j);
    CapacityBounds(run[i].shared);
    if i < j {
      var s, s', s'' := run[i].shared, run[j - 1].shared, run[j].shared;
      RunKeepsWindow(run, schedule, i, j - 1);
      RunGrows(run, schedule, i, j - 1);
      RunGrows(run, schedule, j - 1, j);
      var t, call := RunStep(run, schedule, j - 1);
      StepKeepsWindow(s', t, run[j - 1].threads[t], call);
      SameWindowCompose(s.mem, s'.mem, s''.mem, s.cap, View(s').head, Tail(View(s)), View(s'').head, Tail(View(s')));
    }
  }

  /** The lock protocol: a lock bit is set exactly while one thread, and only one,
      is inside the critical section, and the offset saved by that thread is the
      unlocked word. So no commit and no unlock can fail, nobody has ever seen
      ILLEGAL_STATE, and nobody has ever touched memory outside the data area. */
  lemma LockProtocol(run: seq<State>, schedule: seq<(Tid, Call)>, i: nat, t: Tid)
    requires IsRun(run, schedule) && i < |run| && t in run[i].threads
    ensures var st, s, l := run[i], run[i].shared, run[i].threads[t];
            && (IsLocked(s.tail) <==> exists u :: u in st.threads && InWriter(st.threads[u]))
            && (IsLocked(s.head) <==> exists u :: u in st.threads && InReader(st.threads[u]))
            && (forall u :: u in st.threads && InWriter(st.threads[u]) && InWriter(l) ==> u == t)
            && (forall u :: u in st.threads && InReader(st.threads[u]) && InReader(l) ==> u == t)
            && (InWriter(l) ==> s.tail == Lock(l.tail) && l.tail == Unlock(s.tail))
            && (InReader(l) ==> s.head == Lock(l.head) && l.head == Unlock(s.head))
            && !l.Fault?
            && (l.Idle? && l.last.Some? ==> l.last.value.status != IllegalState)
  {
    hide SharedInv, Believes, IsRun, InWriter, InReader, Lock, Unlock, IsLocked;
    RunInv(run, schedule, i);
    HolderFacts(run[i].shared, t, run[i].threads[t]);
    var s := run[i].shared;
    if s.writer.Some? {
      assert InWriter(run[i].threads[s.writer.value]);
    }
    if s.reader.Some? {
      assert InReader(run[i].threads[s.reader.value]);
    }
  }

  lemma HolderFacts(s: Shared, t: Tid, l: Local)
    requires SharedInv(s) && LocalInv(s, t, l)
    ensures (IsLocked(s.head) <==> s.reader.Some?) && (IsLocked(s.tail) <==> s.writer.Some?)
    ensures InWriter(l) ==> s.tail == Lock(l.tail) && l.tail == Unlock(s.tail)
    ensures InReader(l) ==> s.head == Lock(l.head) && l.head == Unlock(s.head)
    ensures !l.Fault? && (l.Idle? && l.last.Some? ==> l.last.value.status != IllegalState)
  {
    hide View, Tail, Relative, Stored, RingInv, Tiled, Lock, Unlock, IsLocked, Fits, Matches, FilledTo, InMemory;
  }

  /** Exactly once, in order: after any run the first entries of the log are the
      consumed ones and the rest is what is live; the k-th consumption consumed the
      k-th entry, a read delivered its very bytes, and what was committed is what
      was consumed followed by what is still queued. */
  lemma ExactlyOnceFifo(run: seq<State>, schedule: seq<(Tid, Call)>, i: nat)
    requires IsRun(run, schedule) && i < |run|
    ensures var s := run[i].shared;
            && |s.taken| <= |s.log| && View(s).live == s.log[|s.taken|..]
            && (forall k :: 0 <= k < |s.taken| ==> Matches(s.taken[k], s.log[k]))
            && (forall j, k :: 0 <= j < k < |s.taken| ==> s.taken[j].off < s.taken[k].off)
            && Payloads(s.log) == Payloads(s.log[..|s.taken|]) + Queue(View(s))
  {
    hide Tail, Relative, Step, Stored, RingInv, Lock, Unlock, IsLocked, IsRun, Payloads;
    RunInv(run, schedule, i);
    var s := run[i].shared;
    forall j, k | 0 <= j < k < |s.taken|
      ensures s.taken[j].off < s.taken[k].off
    {
      TiledOrder(s.log, 0, s.cap, j, k);
      TiledBounds(s.log, 0, s.cap, j);
    }
    assert s.log == s.log[..|s.taken|] + s.log[|s.taken|..];
    PayloadsConcat(s.log[..|s.taken|], s.log[|s.taken|..]);
  }

  lemma SkipStep(run: seq<State>, schedule: seq<(Tid, Call)>, i: nat)
    requires IsRun(run, schedule) && i < |schedule| && SkipSucceeds(run, schedule, i)
    ensures var offset, taken, taken' := run[i].threads[schedule[i].0].op.offset, run[i].shared.taken, run[i + 1].shared.taken;
            |taken'| == |taken| + 1 && taken'[|taken|].off == offset
  {
    hide Tail, Relative, Step, Stored, RingInv, Lock, Unlock, IsLocked, Tiled, View, Matches;
    var t, call := RunStep(run, schedule, i);
    StepEvents(run[i].shared, t, run[i].threads[t], call);
  }

  /** At most one skip ever returns OK for an offset: two successful skips of a run
      consumed entries at different offsets, and each consumed the offset it was given. */
  lemma SkipOnce(run: seq<State>, schedule: seq<(Tid, Call)>, i: nat, j: nat)
    requires IsRun(run, schedule) && i < j < |schedule|
    requires SkipSucceeds(run, schedule, i) && SkipSucceeds(run, schedule, j)
    ensures run[i].threads[schedule[i].0].op.offset != run[j].threads[schedule[j].0].op.offset
  {
    hide Tail, Relative, Stored, RingInv, Lock, Unlock, IsLocked, Tiled, View, Matches, Inv, Payloads, SkipSucceeds;
    SkipStep(run, schedule, i);
    SkipStep(run, schedule, j);
    RunGrows(run, schedule, i + 1, j);
    RunGrows(run, schedule, j, j + 1);
    ExactlyOnceFifo(run, schedule, j + 1);
    var taken := run[j + 1].shared.taken;
    assert taken[|run[i].shared.taken|] == run[i + 1].shared.taken[|run[i].shared.taken|];
    assert taken[|run[i].shared.taken|].off < taken[|run[j].shared.taken|].off;
  }

  /** Step i of the run is the step in which a skip returns OK. */
  ghost predicate SkipSucceeds(run: seq<State>, schedule: seq<(Tid, Call)>, i: nat)
    requires |run| == |schedule| + 1 && i < |schedule|
  {
    var t := schedule[i].0;
    && t in run[i].threads && t in run[i + 1].threads
    && run[i].threads[t].RCommit? && run[i].threads[t].op.Skip?
    && Returns(run[i].threads[t], run[i + 1].threads[t], Ok)
  }

  // ------------------------------------------------------------------
  // Looking back along a run
  // ------------------------------------------------------------------

  /** Every entry in the log was put there by one commit of some writer, and by no
      other: no other step of the run up to here committed at that place of the log. */
  lemma {:induction false} LogProvenance(run: seq<State>, schedule: seq<(Tid, Call)>, i: nat, k: nat) returns (j: nat)
    requires IsRun(run, schedule) && i < |run| && k < |run[i].shared.log|
    ensures CommitsAt(run, schedule, j, k) && j < i
    ensures Committed(run[j].threads[schedule[j].0]) == [run[i].shared.log[k]]
    ensures forall m :: 0 <= m < i && CommitsAt(run, schedule, m, k) ==> m == j
    decreases i
  {
    hide Step, View, Tail, Relative, Stored, RingInv, Tiled, SharedInv, Believes, Guarantee, InReader, InWriter;
    var t, call := RunStep(run, schedule, i - 1);
    StepEvents(run[i - 1].shared, t, run[i - 1].threads[t], call);
    if k < |run[i - 1].shared.log| {
      j := LogProvenance(run, schedule, i - 1, k);
    } else {
      j := i - 1;
      forall m | 0 <= m < i - 1
        ensures !CommitsAt(run, schedule, m, k)
      {
        if CommitsAt(run, schedule, m, k) {
          var u, call' := RunStep(run, schedule, m);
          StepEvents(run[m].shared, u, run[m].threads[u], call');
          RunGrows(run, schedule, m + 1, i - 1);
        }
      }
    }
  }

  /** Step j of the run commits the entry that becomes number k of the log. */
  ghost predicate CommitsAt(run: seq<State>, schedule: seq<(Tid, Call)>, j: nat, k: nat) {
    && j < |schedule| && j < |run| && schedule[j].0 in run[j].threads
    && |run[j].shared.log| == k && Committed(run[j].threads[schedule[j].0]) != []
  }

  /** End to end: the bytes a read returns are the payload of a write that was
      committed earlier in the run, and as many entries were committed before that
      write as had been consumed before this read. */
  lemma ReadReturnsWhatWasWritten(run: seq<State>, schedule: seq<(Tid, Call)>, i: nat) returns (j: nat)
    requires IsRun(run, schedule) && i < |schedule|
    requires ReadReturnsAt(run, schedule, i)
    ensures j < i && schedule[j].0 in run[j].threads
    ensures var writer, reader := run[j].threads[schedule[j].0], run[i + 1].threads[schedule[i].0];
            && writer.WCommit? && !writer.placeholder
            && reader.last.value.bytes == writer.payload && reader.last.value.at == writer.tail
            && |run[j].shared.log| == |run[i].shared.taken|
  {
    hide Step, View, Tail, Relative, Stored, RingInv, Tiled, Fits, Lock, Unlock, IsLocked;
    var t, call := RunStep(run, schedule, i);
    var s, l := run[i].shared, run[i].threads[t];
    StepEvents(s, t, l, call);
    FrontOfView(s);
    j := LogProvenance(run, schedule, i, |s.taken|);
  }

  /** Step i of the run is the step in which a read returns OK. */
  ghost predicate ReadReturnsAt(run: seq<State>, schedule: seq<(Tid, Call)>, i: nat)
    requires |run| == |schedule| + 1 && i < |schedule|
  {
    var t := schedule[i].0;
    && t in run[i].threads && t in run[i + 1].threads
    && run[i].threads[t].RCommit? && run[i].threads[t].op.Read?
    && Returns(run[i].threads[t], run[i + 1].threads[t], Ok)
  }

  /** A writer that takes the tail lock did so with the tail it loaded, and the
      word had not changed in between: stale snapshots only make the swap fail.
      What it computed as free space is at most what is free now. */
  lemma LockedOnFreshTail(run: seq<State>, schedule: seq<(Tid, Call)>, i: nat, t: Tid) returns (j: nat)
    requires IsRun(run, schedule) && i < |run| && t in run[i].threads
    requires run[i].threads[t].WLock? && run[i].shared.tail == run[i].threads[t].tail
    ensures j < i && t in run[j].threads && run[j].threads[t].WLoadTail?
    ensures forall m :: j <= m <= i ==> run[m].shared.tail == run[i].threads[t].tail
    ensures Inv(run[i])
    ensures var s, l := run[i].shared, run[i].threads[t];
            FullSize(|l.payload|) <= s.cap - (l.tail - l.head) <= Free(View(s))
  {
    hide Step, View, Tail, Relative, Stored, RingInv, Tiled, Lock, Unlock, IsLocked, FullSize;
    RunInv(run, schedule, i);
    j := TailProvenance(run, schedule, i, t);
    forall m | j <= m <= i
      ensures run[m].shared.tail == run[i].threads[t].tail
    {
      RunGrows(run, schedule, j, m);
      RunGrows(run, schedule, m, i);
    }
  }

  predicate HasTailSnapshot(l: Local) { l.WLoadHead? || l.WLock? }

  lemma {:induction false} TailProvenance(run: seq<State>, schedule: seq<(Tid, Call)>, i: nat, t: Tid) returns (j: nat)
    requires IsRun(run, schedule) && i < |run| && t in run[i].threads && HasTailSnapshot(run[i].threads[t])
    ensures j < i && t in run[j].threads && run[j].threads[t].WLoadTail?
    ensures run[j].shared.tail == run[i].threads[t].tail
    decreases i
  {
    hide View, Tail, Relative, Stored, RingInv, Tiled, Lock, Unlock, IsLocked, FullSize, Step, SharedInv, Believes;
    RunInv(run, schedule, i);
    var u, call := RunStep(run, schedule, i - 1);
    if u == t {
      SnapshotStep(run[i - 1].shared, t, run[i - 1].threads[t], call);
      if run[i - 1].threads[t].WLoadTail? {
        j := i - 1;
      } else {
        j := TailProvenance(run, schedule, i - 1, t);
      }
    } else {
      assert run[i].threads[t] == run[i - 1].threads[t];
      j := TailProvenance(run, schedule, i - 1, t);
    }
  }

  lemma SnapshotStep(s: Shared, t: Tid, l: Local, call: Call)
    requires 0 < s.cap && HasTailSnapshot(Step(s, t, l, call).1)
    ensures l.WLoadTail? || l.WLoadHead?
    ensures Step(s, t, l, call).1.tail == if l.WLoadTail? then s.tail else l.tail
  {
    hide Relative, Lock, Unlock, IsLocked, FullSize, Put64, Get64, Wrap, Aligned8;
  }

  /** A read, peek or skip about to answer EMPTY, or NOT_READY, loaded the tail at
      a moment inside the call at which that was true, and has not moved since. */
  lemma {:induction false} NegativeAnswerWasTrue(run: seq<State>, schedule: seq<(Tid, Call)>, i: nat, t: Tid) returns (j: nat)
    requires IsRun(run, schedule) && i < |run| && t in run[i].threads && run[i].threads[t].RUnlock?
    requires run[i].threads[t].status == Empty || run[i].threads[t].status == NotReady
    ensures j < i && t in run[j].threads && run[j].threads[t].RLoadTail? && Inv(run[j])
    ensures run[i].threads[t].status == Empty ==> View(run[j].shared).live == []
    ensures run[i].threads[t].status == NotReady ==> View(run[j].shared).live != [] && run[j].shared.writer.Some?
    ensures forall m :: j < m <= i ==> t in run[m].threads && run[m].threads[t] == run[i].threads[t]
    decreases i
  {
    hide View, Tail, Relative, Stored, RingInv, Tiled, Lock, Unlock, IsLocked, FullSize, Step, Guarantee, SharedInv, Believes;
    RunInv(run, schedule, i);
    var u, call := RunStep(run, schedule, i - 1);
    if u == t {
      AnswerStep(run[i - 1].shared, t, run[i - 1].threads[t], call);
      j := i - 1;
    } else {
      assert run[i].threads[t] == run[i - 1].threads[t];
      j := NegativeAnswerWasTrue(run, schedule, i - 1, t);
    }
  }

  lemma AnswerStep(s: Shared, t: Tid, l: Local, call: Call)
    requires SharedInv(s) && LocalInv(s, t, l)
    requires Step(s, t, l, call).1.RUnlock?
    requires Step(s, t, l, call).1.status == Empty || Step(s, t, l, call).1.status == NotReady
    ensures l.RLoadTail?
    ensures Step(s, t, l, call).1.status == Empty ==> View(s).live == []
    ensures Step(s, t, l, call).1.status == NotReady ==> View(s).live != [] && s.writer.Some?
  {
    hide View, Tail, Relative, Stored, RingInv, Tiled, Lock, Unlock, IsLocked, FullSize, Put64, Get64, Wrap, Aligned8, Fits, Matches, InMemory,
         FilledTo, BytesAt;
    if l.RLoadTail? {
      TailLoadIsTrue(s, t, l);
    } else if l.RSeq? {
      FrontBytes(s);
    }
  }

  /** Step i of the run is the step in which a peek returns OK. */
  ghost predicate PeekReturnsAt(run: seq<State>, schedule: seq<(Tid, Call)>, i: nat)
    requires |run| == |schedule| + 1 && i < |schedule|
  {
    var t := schedule[i].0;
    && t in run[i].threads && t in run[i + 1].threads
    && AtHead(run[i].threads[t]) && run[i].threads[t].op.Peek?
    && Returns(run[i].threads[t], run[i + 1].threads[t], Ok)
  }

  /** What a peek returns: the offset and the size of the entry at the head. The payload
      that these point at stays intact until the head has passed the offset. */
  lemma PeekedPayloadStays(run: seq<State>, schedule: seq<(Tid, Call)>, i: nat, j: nat)
    requires IsRun(run, schedule) && i < |schedule| && i < j < |run| && PeekReturnsAt(run, schedule, i)
    ensures var s, s', peeked := run[i].shared, run[j].shared, run[i + 1].threads[schedule[i].0].last.value;
            && |s.taken| < |s.log| && |s'.taken| <= |s'.log| && 0 < s'.cap
            && peeked.at == Front(s).off == View(s).head && 0 < peeked.size == |Front(s).payload|
            && (View(s').head <= peeked.at ==>
                  BytesAt(s'.mem, Relative(peeked.at, s'.cap) + HEADER, Front(s).payload))
  {
    hide Step, Tail, Relative, RingInv, Stored, Tiled, Lock, Unlock, IsLocked, Get64, Wrap, BytesAt, InMemory, Matches, Believes, Fits, EndOf;
    var t, call := RunStep(run, schedule, i);
    AnswersAreTrue(run, schedule, i);
    RunInv(run, schedule, j);
    RunGrows(run, schedule, i, j);
    var s, s' := run[i].shared, run[j].shared;
    FrontOfView(s);
    if View(s').head <= View(s).head {
      UnconsumedSince(s, s');
      FrontBytes(s');
    }
  }

  /** As long as the head has not moved nothing has been consumed. */
  lemma UnconsumedSince(s: Shared, s': Shared)
    requires SharedInv(s) && SharedInv(s') && Grown(s, s') && |s.taken| < |s.log|
    requires View(s').head == View(s).head
    ensures |s'.taken| == |s.taken| && Front(s') == Front(s)
  {
    hide Relative, RingInv, Stored, Lock, Unlock, IsLocked, Fits, Matches;
    FrontOfView(s);
    if |s.taken| < |s'.taken| {
      ConsumedIsBehindHead(s', |s.taken|);
    }
  }

  lemma ConsumedIsBehindHead(s: Shared, n: nat)
    requires SharedInv(s) && n < |s.taken|
    ensures s.log[n].off < View(s).head
  {
    hide Relative, RingInv, Stored, Lock, Unlock, IsLocked, Fits, Matches;
    var k := |s.taken|;
    TiledBounds(s.log, 0, s.cap, n);
    if n < k - 1 {
      TiledOrder(s.log, 0, s.cap, n, k - 1);
      TiledBounds(s.log, 0, s.cap, k - 1);
    }
    assert s.log[..k][k - 1] == s.log[k - 1];
  }
}
