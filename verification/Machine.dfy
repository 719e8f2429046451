/** core/src/ipc_buffer.c run by any number of threads at once, as a step machine.
    Every atomic load and every compare-and-swap is one step, every store or load
    of a header word is one step, and payloads are copied one byte per step.
    The atomics are sequentially consistent; head and tail are unbounded. */
module Machine {
  import opened Words
  import opened RingModel
  import opened Wrappers

  type Tid = nat

  /** The operations that take the head lock. */
  datatype Op = Read(room: nat) | Peek | Skip(offset: nat)

  /** What an idle thread may call. */
  datatype Call = WriteCall(payload: seq<byte>) | HeadCall(op: Op) | SkipForceCall

  /** What a call returned: the status, the entry offset, its size, and for a read its bytes. */
  datatype Outcome = Outcome(status: Status, at: nat, size: nat, bytes: seq<byte>)

  /** The stores a writer makes between taking the tail lock and the commit. */
  datatype FillPc = CopyPayload(i: nat) | StorePayloadSize | StoreEntrySize | StoreSeq | LoadEntrySize

  /** The program counter of a thread with the locals that are still needed. */
  datatype Local =
    | Idle(last: Option<Outcome>)
    | WLoadTail(payload: seq<byte>)
    | WLoadHead(payload: seq<byte>, tail: nat)
    | WLock(payload: seq<byte>, tail: nat, head: nat, placeholder: bool)
    | WFill(payload: seq<byte>, tail: nat, placeholder: bool, pc: FillPc)
    | WCommit(payload: seq<byte>, tail: nat, placeholder: bool, size: nat)
    | RLoadHead(op: Op)
    | RLock(op: Op, head: nat)
    | RLoadTail(op: Op, head: nat)
    | RSeq(op: Op, head: nat)
    | RPayloadSize(op: Op, head: nat)
    | REntrySize(op: Op, head: nat, payloadSize: nat)
    | RCopy(op: Op, head: nat, payloadSize: nat, entrySize: nat, got: seq<byte>)
    | RCommit(op: Op, head: nat, payloadSize: nat, entrySize: nat, got: seq<byte>)
    | RUnlock(op: Op, head: nat, status: Status, payloadSize: nat)
    | FLoadHead
    | FLoadTail(head: nat)
    | FEntrySize(head: nat)
    | FCommit(head: nat, entrySize: nat)
    | Fault  // an access outside the data area

  datatype How = ByRead | BySkip | ByForce | ByHop

  /** One consumption: who, how, at which offset, and the bytes a read delivered. */
  datatype Taken = Taken(tid: Tid, how: How, off: nat, bytes: seq<byte>)

  /** The shared memory, and four history variables that no step looks at: the
      entries committed so far, the consumptions so far, and the lock holders. */
  datatype Shared = Shared(
    cap: nat, head: nat, tail: nat, mem: seq<byte>,
    log: seq<Entry>, taken: seq<Taken>, writer: Option<Tid>, reader: Option<Tid>)

  datatype State = State(shared: Shared, threads: map<Tid, Local>)

  function Return(status: Status, at: nat, size: nat, bytes: seq<byte>): Local {
    Idle(Some(Outcome(status, at, size, bytes)))
  }

  function Fail(status: Status, at: nat): Local { Return(status, at, 0, []) }

  // ------------------------------------------------------------------
  // Memory accesses
  // ------------------------------------------------------------------

  function Store(s: Shared, o: nat, n: nat, next: Local): (Shared, Local) {
    if o + 8 <= |s.mem| then (s.(mem := Put64(s.mem, o, n)), next) else (s, Fault)
  }

  function StoreByte(s: Shared, o: nat, b: byte, next: Local): (Shared, Local) {
    if o < |s.mem| then (s.(mem := s.mem[o := b]), next) else (s, Fault)
  }

  // ------------------------------------------------------------------
  // The steps
  // ------------------------------------------------------------------

  function Start(s: Shared, call: Call): Local {
    match call
    case WriteCall(payload) =>
      if payload == [] then Fail(InvalidArgument, 0)
      else if FullSize(|payload|) > s.cap then Fail(EntryTooLarge, 0)
      else WLoadTail(payload)
    case HeadCall(op) =>
      if op.Skip? && !Aligned8(op.offset) then Fail(InvalidArgument, op.offset) else RLoadHead(op)
    case SkipForceCall => FLoadHead
  }

  /** The size a writer commits: up to the wrap for a placeholder. */
  function ReservedSize(cap: nat, payload: seq<byte>, tail: nat, placeholder: bool): nat
    requires 0 < cap
  {
    if placeholder then cap - Relative(tail, cap) else FullSize(|payload|)
  }

  function Payload(payload: seq<byte>, placeholder: bool): seq<byte> {
    if placeholder then [] else payload
  }

  function WriterStep(s: Shared, t: Tid, l: Local): (Shared, Local)
    requires 0 < s.cap
    requires l.WLoadTail? || l.WLoadHead? || l.WLock? || l.WFill? || l.WCommit?
  {
    match l
    case WLoadTail(payload) =>
      if IsLocked(s.tail) then (s, Fail(Locked, 0)) else (s, WLoadHead(payload, s.tail))
    case WLoadHead(payload, tail) =>
      var head := Unlock(s.head);
      var full := FullSize(|payload|);
      if s.cap - (tail - head) < full then (s, Fail(NoSpaceContiguous, tail))
      else (s, WLock(payload, tail, head, s.cap - Relative(tail, s.cap) < full + HEADER))
    case WLock(payload, tail, head, placeholder) =>
      if s.tail == Unlock(tail) then
        (s.(tail := Lock(tail), writer := Some(t)),
         WFill(payload, tail, placeholder, if placeholder then StorePayloadSize else CopyPayload(0)))
      else (s, WLoadTail(payload))
    case WFill(_, _, _, _) => FillStep(s, l)
    case WCommit(payload, tail, placeholder, size) =>
      if s.tail == Lock(tail) then
        (s.(tail := tail + size, writer := None, log := s.log + [Entry(tail, size, Payload(payload, placeholder))]),
         if placeholder then WLoadTail(payload) else Return(Ok, tail, |payload|, []))
      else (s, Fail(IllegalState, tail))
  }

  /** A placeholder stores its two sizes in the other order. */
  function FillStep(s: Shared, l: Local): (Shared, Local)
    requires 0 < s.cap && l.WFill?
  {
    var WFill(payload, tail, placeholder, pc) := l;
    var p := Relative(tail, s.cap);
    match pc
    case CopyPayload(i) =>
      if i < |payload| then StoreByte(s, p + HEADER + i, payload[i], l.(pc := CopyPayload(i + 1)))
      else (s, l.(pc := StoreEntrySize))
    case StorePayloadSize =>
      Store(s, p + 8, |Payload(payload, placeholder)|, l.(pc := if placeholder then StoreEntrySize else StoreSeq))
    case StoreEntrySize =>
      Store(s, p + 16, ReservedSize(s.cap, payload, tail, placeholder),
            l.(pc := if placeholder then StoreSeq else StorePayloadSize))
    case StoreSeq => Store(s, p, Wrap(tail), l.(pc := LoadEntrySize))
    case LoadEntrySize =>
      if p + 24 <= |s.mem| then (s, WCommit(payload, tail, placeholder, Get64(s.mem, p + 16))) else (s, Fault)
  }

  function HowTaken(op: Op, payloadSize: nat): How {
    if payloadSize == 0 then ByHop else if op.Read? then ByRead else BySkip
  }

  predicate AtHead(l: Local) {
    || l.RLoadHead? || l.RLock? || l.RLoadTail? || l.RSeq? || l.RPayloadSize? || l.REntrySize?
    || l.RCopy? || l.RCommit? || l.RUnlock?
  }

  function HeadStep(s: Shared, t: Tid, l: Local): (Shared, Local)
    requires 0 < s.cap && AtHead(l)
  {
    match l
    case RLoadHead(op) =>
      if IsLocked(s.head) then (s, Fail(Locked, Unlock(s.head)))
      else if op.Skip? && Unlock(s.head) != op.offset then (s, Fail(OffsetMismatch, Unlock(s.head)))
      else (s, RLock(op, s.head))
    case RLock(op, head) =>
      if s.head == Unlock(head) then (s.(head := Lock(head), reader := Some(t)), RLoadTail(op, head))
      else (s, RLoadHead(op))
    case RLoadTail(op, head) =>
      if Unlock(head) == Unlock(s.tail) then (s, RUnlock(op, head, Empty, 0))
      else if IsLocked(s.tail) then (s, RUnlock(op, head, NotReady, 0))
      else (s, RSeq(op, head))
    case RSeq(op, head) =>
      var p := Relative(head, s.cap);
      if p + 8 > |s.mem| then (s, Fault)
      else if Get64(s.mem, p) == Wrap(head) then (s, RPayloadSize(op, head))
      else (s, RUnlock(op, head, if IsLocked(head) then Locked else NotReady, 0))
    case RPayloadSize(op, head) =>
      var p := Relative(head, s.cap);
      if p + 16 > |s.mem| then (s, Fault) else (s, REntrySize(op, head, Get64(s.mem, p + 8)))
    case REntrySize(op, head, payloadSize) =>
      var p := Relative(head, s.cap);
      if p + 24 > |s.mem| then (s, Fault)
      else
        var entrySize := Get64(s.mem, p + 16);
        if payloadSize == 0 || op.Skip? then (s, RCommit(op, head, payloadSize, entrySize, []))
        else if op.Peek? then (s, RUnlock(op, head, Ok, payloadSize))
        else if op.room < payloadSize then (s, RUnlock(op, head, TooSmall, payloadSize))
        else (s, RCopy(op, head, payloadSize, entrySize, []))
    case RCopy(op, head, payloadSize, entrySize, got) =>
      var o := Relative(head, s.cap) + HEADER + |got|;
      if |got| >= payloadSize then (s, RCommit(op, head, payloadSize, entrySize, got))
      else if o >= |s.mem| then (s, Fault)
      else (s, RCopy(op, head, payloadSize, entrySize, got + [s.mem[o]]))
    case RCommit(op, head, payloadSize, entrySize, got) =>
      if s.head == Lock(head) then
        (s.(head := head + entrySize, reader := None, taken := s.taken + [Taken(t, HowTaken(op, payloadSize), head, got)]),
         if payloadSize == 0 then RLoadHead(op) else Return(Ok, head, payloadSize, got))
      else (s, Fail(IllegalState, head))
    case RUnlock(op, head, status, payloadSize) =>
      if s.head == Lock(head) then (s.(head := Unlock(head), reader := None), Return(status, head, payloadSize, []))
      else (s, Fail(IllegalState, head))
  }

  function ForceStep(s: Shared, t: Tid, l: Local): (Shared, Local)
    requires 0 < s.cap
    requires l.FLoadHead? || l.FLoadTail? || l.FEntrySize? || l.FCommit?
  {
    match l
    case FLoadHead => (s, FLoadTail(Unlock(s.head)))
    case FLoadTail(head) =>
      if head == Unlock(s.tail) then (s, Fail(Empty, head)) else (s, FEntrySize(head))
    case FEntrySize(head) =>
      var p := Relative(head, s.cap);
      if p + 24 > |s.mem| then (s, Fault) else (s, FCommit(head, Get64(s.mem, p + 16)))
    case FCommit(head, entrySize) =>
      if s.head == head then
        (s.(head := head + entrySize, taken := s.taken + [Taken(t, ByForce, head, [])]), Fail(Ok, head))
      else (s, Fail(AlreadySkipped, s.head))
  }

  /** One step of thread t; `call` matters only when t is idle. */
  function Step(s: Shared, t: Tid, l: Local, call: Call): (Shared, Local)
    requires 0 < s.cap
  {
    if l.Idle? then (s, Start(s, call))
    else if l.Fault? then (s, l)
    else if AtHead(l) then HeadStep(s, t, l)
    else if l.FLoadHead? || l.FLoadTail? || l.FEntrySize? || l.FCommit? then ForceStep(s, t, l)
    else WriterStep(s, t, l)
  }

  function Next(st: State, t: Tid, call: Call): State
    requires t in st.threads && 0 < st.shared.cap
  {
    var (s', l') := Step(st.shared, t, st.threads[t], call);
    State(s', st.threads[t := l'])
  }

  /** A fresh buffer, with arbitrary bytes in its data area, and idle threads. */
  ghost predicate Init(st: State) {
    var s := st.shared;
    && IsPow2(s.cap) && 0 < s.cap <= HALF && |s.mem| == s.cap
    && s.head == 0 && s.tail == 0 && s.log == [] && s.taken == []
    && s.writer == None && s.reader == None
    && forall t :: t in st.threads ==> st.threads[t] == Idle(None)
  }

  /** A schedule picks any thread, and any call for it, at every step. */
  ghost predicate IsRun(run: seq<State>, schedule: seq<(Tid, Call)>) {
    && |run| == |schedule| + 1
    && Init(run[0])
    && forall i {:trigger schedule[i]} :: 0 <= i < |schedule| ==>
         && schedule[i].0 in run[i].threads && 0 < run[i].shared.cap
         && run[i + 1] == Next(run[i], schedule[i].0, schedule[i].1)
  }
}
