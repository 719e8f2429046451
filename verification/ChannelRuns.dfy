/** The read loops of core/src/ipc_channel.c on the step machine: one thread makes
    the buffer calls of _try_read, or of ipc_channel_read, while all the others do
    what they like between any two of its atomic steps. */
module ChannelRuns {
  import opened Words
  import opened RingModel
  import opened Wrappers
  import opened Machine
  import opened MachineInv
  import opened MachineProof
  import opened Runs
  import C = ChannelSpec

  /** Where the reader is between two of its buffer calls, or inside one: in the peek
      of ipc_channel_read, in the peek or the read of _try_read, or at the end. `room`
      is the capacity of its buffer and `rounds` counts its retries; the two marks are
      numbers of consumptions: when _try_read began, and when its last peek returned. */
  datatype Phase =
    | Outer
    | Inner(room: nat, rounds: nat, since: nat)
    | Fetch(room: nat, rounds: nat, since: nat, mark: nat)
    | Done(status: Status, entry: Option<Outcome>, room: nat)

  predicate MakesCall(phase: Phase, call: Call) {
    match phase
    case Outer => call == HeadCall(Peek)
    case Inner(_, _, _) => call == HeadCall(Peek)
    case Fetch(room, _, _, _) => call == HeadCall(Read(room))
    case Done(_, _, _) => true
  }

  /** _try_read ends with a status and no entry; ipc_channel_read turns a retry status
      into the OK of its own peek. */
  function Ends(blocking: bool, status: Status, room: nat): Phase {
    Done(if blocking && C.IsRetry(status) then Ok else status, None, room)
  }

  /** What the code does when its buffer call returns. After a retry status the outer
      loop waits and peeks again, unless the clock, the deadline or the futex ends it. */
  ghost predicate After(blocking: bool, phase: Phase, outcome: Outcome, taken: nat, phase': Phase) {
    var status := outcome.status;
    match phase
    case Outer =>
      if status == Ok then phase' == Inner(0, 0, taken)
      else if !C.IsRetry(status) then phase' == Done(status, None, 0)
      else phase' == Outer || phase' == Done(Timeout, None, 0) || phase' == Done(SystemError, None, 0)
    case Inner(room, rounds, since) =>
      if status == Ok then phase' == Fetch(if room < outcome.size then outcome.size else room, rounds, since, taken)
      else phase' == Ends(blocking, status, room)
    case Fetch(room, rounds, since, _) =>
      if status == TooSmall then phase' == Inner(room, rounds + 1, since)
      else if status == Ok then phase' == Done(Ok, Some(outcome), room)
      else phase' == Ends(blocking, status, room)
    case Done(_, _, _) => phase' == phase
  }

  /** One step of the machine, seen by the reader t. */
  ghost predicate PhaseStep(blocking: bool, st: State, st': State, move: (Tid, Call), t: Tid, phase: Phase, phase': Phase) {
    && t in st.threads && t in st'.threads
    && if move.0 != t then phase' == phase
       else if st.threads[t].Idle? then MakesCall(phase, move.1) && phase' == phase
       else if st'.threads[t].Idle? then
         st'.threads[t].last.Some? && After(blocking, phase, st'.threads[t].last.value, |st'.shared.taken|, phase')
       else phase' == phase
  }

  /** From step `begin` on, thread t runs ipc_channel_read (blocking) or _try_read. */
  ghost predicate IsReader(run: seq<State>, schedule: seq<(Tid, Call)>, begin: nat, t: Tid, blocking: bool, phases: seq<Phase>) {
    && |run| == |schedule| + 1 && begin + |phases| == |run| && phases != []
    && t in run[begin].threads && run[begin].threads[t].Idle?
    && phases[0] == (if blocking then Outer else Inner(0, 0, |run[begin].shared.taken|))
    && forall i {:trigger phases[i]} :: 0 <= i < |phases| - 1 ==>
         PhaseStep(blocking, run[begin + i], run[begin + i + 1], schedule[begin + i], t, phases[i], phases[i + 1])
  }

  // ------------------------------------------------------------------
  // What the reader knows
  // ------------------------------------------------------------------

  /** The outcome is consumption number n: thread t read entry n of the log, its very
      bytes, and they fit. */
  ghost predicate Consumed(s: Shared, t: Tid, outcome: Outcome, room: nat, n: nat) {
    && n < |s.taken| && n < |s.log|
    && s.taken[n] == Taken(t, ByRead, outcome.at, outcome.bytes)
    && outcome.at == s.log[n].off && outcome.bytes == s.log[n].payload != []
    && outcome.size == |outcome.bytes| <= room
  }

  ghost predicate Delivered(s: Shared, t: Tid, outcome: Outcome, room: nat, start: nat) {
    exists n: nat :: start <= n && Consumed(s, t, outcome, room, n)
  }

  /** A reader that has gone round `rounds` times has seen that many consumptions. */
  ghost predicate PhaseInv(s: Shared, t: Tid, l: Local, blocking: bool, start: nat, phase: Phase) {
    match phase
    case Outer => blocking && start <= |s.taken| && (l.Idle? || (AtHead(l) && l.op == Peek))
    case Inner(_, rounds, since) => (l.Idle? || (AtHead(l) && l.op == Peek)) && start <= since && since + rounds <= |s.taken|
    case Fetch(room, rounds, since, mark) =>
      && (l.Idle? || (AtHead(l) && l.op == Read(room)))
      && start <= since && since + rounds <= mark <= |s.taken|
      && mark < |s.log| && |s.log[mark].payload| <= room
    case Done(status, entry, room) =>
      && (entry.Some? ==> status == Ok && Delivered(s, t, entry.value, room, start))
      && (if blocking then status == Ok || status == Timeout || status == SystemError
          else (status == Ok <==> entry.Some?) && (status == Ok || status == Empty || status == NotReady || status == Locked))
  }

  /** What a peek or a read can return, and what is true when it does. */
  ghost predicate GoodOutcome(s: Shared, s': Shared, t: Tid, op: Op, outcome: Outcome) {
    && (outcome.status == Ok || outcome.status == Empty || outcome.status == NotReady || outcome.status == Locked
        || (op.Read? && outcome.status == TooSmall))
    && (op.Peek? && outcome.status == Ok ==>
          s'.taken == s.taken && |s.taken| < |s.log|
          && outcome.size == |s.log[|s.taken|].payload| && outcome.at == s.log[|s.taken|].off)
    && (op.Read? && outcome.status == TooSmall ==>
          s'.taken == s.taken && |s.taken| < |s.log| && op.room < |s.log[|s.taken|].payload|)
    && (op.Read? && outcome.status == Ok ==>
          |s.taken| < |s'.taken| && Consumed(s', t, outcome, op.room, |s.taken|))
  }

  lemma HeadReturns(s: Shared, t: Tid, l: Local)
    requires SharedInv(s) && LocalInv(s, t, l) && AtHead(l) && !l.op.Skip?
    ensures var (s', l') := HeadStep(s, t, l);
            if l'.Idle? then l'.last.Some? && GoodOutcome(s, s', t, l.op, l'.last.value)
            else AtHead(l') && l'.op == l.op
  {
    hide Relative, RingInv, Tiled, Stored, Fits, View, EndOf, Tail, Aligned8, InMemory, Lock, Unlock, IsLocked, Get64, BytesAt, Wrap, Matches;
    StepKeeps(s, t, l, SkipForceCall);
    if |s.taken| < |s.log| {
      FrontBytes(s);
      FrontOfView(s);
    }
  }

  // ------------------------------------------------------------------
  // Every run, every schedule
  // ------------------------------------------------------------------

  lemma DeliveredStays(s: Shared, s': Shared, t: Tid, outcome: Outcome, room: nat, start: nat)
    requires Delivered(s, t, outcome, room, start) && s.log <= s'.log && s.taken <= s'.taken
    ensures Delivered(s', t, outcome, room, start)
  {
    var n: nat :| start <= n && Consumed(s, t, outcome, room, n);
    assert Consumed(s', t, outcome, room, n);
  }

  /** What the reader knows survives the growth of the two logs. */
  lemma PhaseStays(s: Shared, s': Shared, t: Tid, l: Local, l': Local, blocking: bool, start: nat, phase: Phase)
    requires PhaseInv(s, t, l, blocking, start, phase) && s.log <= s'.log && s.taken <= s'.taken
    requires l' == l || phase.Done? || (AtHead(l) && AtHead(l') && l'.op == l.op)
    ensures PhaseInv(s', t, l', blocking, start, phase)
  {
    hide Delivered;
    if phase.Done? && phase.entry.Some? {
      DeliveredStays(s, s', t, phase.entry.value, phase.room, start);
    }
  }

  /** The reader's own steps. */
  lemma OwnStepKeeps(s: Shared, t: Tid, l: Local, call: Call, blocking: bool, start: nat, phase: Phase, phase': Phase)
    requires SharedInv(s) && LocalInv(s, t, l) && PhaseInv(s, t, l, blocking, start, phase) && !phase.Done?
    requires l.Idle? ==> MakesCall(phase, call)
    requires var (s', l') := Step(s, t, l, call);
             if !l.Idle? && l'.Idle? then l'.last.Some? && After(blocking, phase, l'.last.value, |s'.taken|, phase')
             else phase' == phase
    ensures var (s', l') := Step(s, t, l, call);
            PhaseInv(s', t, l', blocking, start, phase')
  {
    hide SharedInv, Believes, HeadStep, WriterStep, ForceStep, FullSize, Aligned8, Relative, Consumed, Delivered, View, Tail;
    CapacityBounds(s);
    StepKeeps(s, t, l, call);
    if !l.Idle? {
      HeadReturns(s, t, l);
      var (s', l') := Step(s, t, l, call);
      if l'.Idle? {
        AfterKeeps(s, s', t, l, l', blocking, start, phase, phase');
      } else {
        PhaseStays(s, s', t, l, l', blocking, start, phase);
      }
    }
  }

  lemma AfterKeeps(s: Shared, s': Shared, t: Tid, l: Local, l': Local, blocking: bool, start: nat, phase: Phase, phase': Phase)
    requires PhaseInv(s, t, l, blocking, start, phase) && AtHead(l) && !phase.Done?
    requires s.log <= s'.log && s.taken <= s'.taken
    requires l'.Idle? && l'.last.Some? && GoodOutcome(s, s', t, l.op, l'.last.value)
    requires After(blocking, phase, l'.last.value, |s'.taken|, phase')
    ensures PhaseInv(s', t, l', blocking, start, phase')
  {
    hide Consumed;
    var outcome := l'.last.value;
    if phase.Fetch? && outcome.status == Ok {
      assert Consumed(s', t, outcome, phase.room, |s.taken|);
    }
  }

  lemma UnmovedPhase(blocking: bool, st: State, st': State, move: (Tid, Call), t: Tid, phase: Phase, phase': Phase)
    requires PhaseStep(blocking, st, st', move, t, phase, phase') && (move.0 != t || phase.Done?)
    ensures phase' == phase
  {
  }

  lemma StartingPhase(s: Shared, t: Tid, l: Local, blocking: bool)
    requires l.Idle?
    ensures PhaseInv(s, t, l, blocking, |s.taken|, if blocking then Outer else Inner(0, 0, |s.taken|))
  {
  }

  /** At every moment of every run the reader's phase is what PhaseInv says. */
  lemma {:induction false} ReaderInv(run: seq<State>, schedule: seq<(Tid, Call)>, begin: nat, t: Tid, blocking: bool, phases: seq<Phase>, i: nat)
    requires IsRun(run, schedule) && IsReader(run, schedule, begin, t, blocking, phases) && i < |phases|
    ensures t in run[begin + i].threads
    ensures PhaseInv(run[begin + i].shared, t, run[begin + i].threads[t], blocking, |run[begin].shared.taken|, phases[i])
    decreases i
  {
    hide Step, PhaseInv, SharedInv, Believes, After, MakesCall, View, IsRun;
    var start := |run[begin].shared.taken|;
    if i == 0 {
      StartingPhase(run[begin].shared, t, run[begin].threads[t], blocking);
    } else {
      var j := begin + i - 1;
      ReaderInv(run, schedule, begin, t, blocking, phases, i - 1);
      var u, call := RunStep(run, schedule, j);
      assert PhaseStep(blocking, run[begin + (i - 1)], run[begin + (i - 1) + 1], schedule[begin + (i - 1)], t, phases[i - 1], phases[i - 1 + 1]);
      if u == t && !phases[i - 1].Done? {
        OwnStepKeeps(run[j].shared, t, run[j].threads[t], call, blocking, start, phases[i - 1], phases[i]);
      } else {
        UnmovedPhase(blocking, run[j], run[j + 1], schedule[j], t, phases[i - 1], phases[i]);
        PhaseStays(run[j].shared, run[j + 1].shared, t, run[j].threads[t], run[j + 1].threads[t], blocking, start, phases[i - 1]);
      }
    }
  }

  /** _try_read under every schedule: however the other threads interleave with its
      loads, copies and swaps, it ends only with OK and one entry, consumed by it during
      the call, whole and within its buffer, or with a status that asks for a retry. It
      has gone round no more often than entries were consumed since the call began. */
  lemma TryReadInRuns(run: seq<State>, schedule: seq<(Tid, Call)>, begin: nat, t: Tid, phases: seq<Phase>, i: nat)
    requires IsRun(run, schedule) && IsReader(run, schedule, begin, t, false, phases) && i < |phases|
    ensures var s, start := run[begin + i].shared, |run[begin].shared.taken|;
            match phases[i]
            case Outer => false
            case Inner(_, rounds, _) => start + rounds <= |s.taken|
            case Fetch(_, rounds, _, _) => start + rounds <= |s.taken|
            case Done(status, entry, room) =>
              && (status == Ok || status == Empty || status == NotReady || status == Locked)
              && (status == Ok <==> entry.Some?)
              && (entry.Some? ==> Delivered(s, t, entry.value, room, start))
  {
    hide IsRun, IsReader, Delivered;
    ReaderInv(run, schedule, begin, t, false, phases, i);
  }

  /** A call that ends without an entry has a reason, in the answer of its last buffer
      call: LOCKED when another reader was inside the critical section in that very step,
      EMPTY or NOT_READY when at some step of the call nothing was committed, or a writer
      was at work. _try_read returns this answer. ipc_channel_read returns OK when it was
      _try_read that got it, and TIMEOUT or a system error only when it was its own peek. */
  lemma NoEntryHasAReason(run: seq<State>, schedule: seq<(Tid, Call)>, begin: nat, t: Tid, blocking: bool, phases: seq<Phase>, i: nat)
    returns (j: nat)
    requires IsRun(run, schedule) && IsReader(run, schedule, begin, t, blocking, phases) && i + 1 < |phases|
    requires !phases[i].Done? && phases[i + 1].Done? && phases[i + 1].entry == None
    ensures begin <= j <= begin + i < |schedule| && Inv(run[j])
    ensures t in run[begin + i + 1].threads && run[begin + i + 1].threads[t].Idle? && run[begin + i + 1].threads[t].last.Some?
    ensures var s, status, answer := run[j].shared, phases[i + 1].status, run[begin + i + 1].threads[t].last.value.status;
            && (answer == Locked || answer == Empty || answer == NotReady)
            && (answer == Locked ==> j == begin + i && s.reader.Some?)
            && (answer == Empty ==> View(s).live == [])
            && (answer == NotReady ==> View(s).live != [] && s.writer.Some?)
            && (if !blocking then status == answer
                else if phases[i].Outer? then status == Timeout || status == SystemError
                else status == Ok)
  {
    hide Step, SharedInv, Believes, View, IsRun, Relative, Guarantee, PhaseInv, After, TrueAnswer, MakesCall, LocalInv;
    var n := begin + i;
    LastIndex(run, schedule, begin, t, blocking, phases, i);
    ReaderInv(run, schedule, begin, t, blocking, phases, i);
    assert PhaseStep(blocking, run[begin + i], run[begin + i + 1], schedule[begin + i], t, phases[i], phases[i + 1]);
    RunInv(run, schedule, n);
    AnswersAreTrue(run, schedule, n);
    var answer := run[n + 1].threads[t].last.value;
    LastAnswer(run[n].shared, run[n + 1].shared, t, run[n].threads[t], blocking, |run[begin].shared.taken|, phases[i], phases[i + 1], answer);
    j := n;
    if answer.status != Locked {
      j := NegativeAnswerWasTrue(run, schedule, n, t);
    }
  }

  lemma LastAnswer(s: Shared, s': Shared, t: Tid, l: Local, blocking: bool, start: nat, phase: Phase, phase': Phase, answer: Outcome)
    requires |s.taken| <= |s.log|
    requires PhaseInv(s, t, l, blocking, start, phase) && !phase.Done? && !l.Idle? && TrueAnswer(s, l, answer)
    requires After(blocking, phase, answer, |s'.taken|, phase') && phase'.Done? && phase'.entry == None
    ensures answer.status == Locked || answer.status == Empty || answer.status == NotReady
    ensures answer.status == Locked ==> s.reader.Some?
    ensures answer.status != Locked ==> l.RUnlock? && l.status == answer.status
    ensures if !blocking then phase'.status == answer.status
            else if phase.Outer? then phase'.status == Timeout || phase'.status == SystemError
            else phase'.status == Ok
  {
    hide View, Relative, Consumed, Delivered, FullSize;
  }

  lemma LastIndex(run: seq<State>, schedule: seq<(Tid, Call)>, begin: nat, t: Tid, blocking: bool, phases: seq<Phase>, i: nat)
    requires IsReader(run, schedule, begin, t, blocking, phases) && i + 1 < |phases|
    ensures begin + i < |schedule| && begin + i + 1 < |run| && |run| == |schedule| + 1
  {
  }

  /** ipc_channel_read under every schedule and every behaviour of clock and futex: it
      ends with OK, TIMEOUT or a system error, and an entry it has delivered was
      consumed by it during the call, whole and within its buffer. */
  lemma ChannelReadInRuns(run: seq<State>, schedule: seq<(Tid, Call)>, begin: nat, t: Tid, phases: seq<Phase>, i: nat)
    requires IsRun(run, schedule) && IsReader(run, schedule, begin, t, true, phases) && i < |phases|
    ensures var s, start := run[begin + i].shared, |run[begin].shared.taken|;
            match phases[i]
            case Outer => true
            case Inner(_, rounds, since) => start <= since && since + rounds <= |s.taken|
            case Fetch(_, rounds, since, _) => start <= since && since + rounds <= |s.taken|
            case Done(status, entry, room) =>
              && (status == Ok || status == Timeout || status == SystemError)
              && (entry.Some? ==> status == Ok && Delivered(s, t, entry.value, room, start))
  {
    hide IsRun, IsReader, Delivered;
    ReaderInv(run, schedule, begin, t, true, phases, i);
  }
}
