/** The invariant of the step machine, in rely-guarantee form: what holds of the
    shared memory, what each thread may believe at each program counter, and what
    a step of one thread promises to all the others. */
module MachineInv {
  import opened Words
  import opened RingModel
  import opened Wrappers
  import opened Machine

  /** The ring of entries that are committed and not yet consumed. */
  function View(s: Shared): (r: Ring)
    requires |s.taken| <= |s.log|
    ensures r.cap == s.cap && |r.live| == |s.log| - |s.taken|
  {
    Ring(s.cap, EndOf(s.log[..|s.taken|], 0), s.log[|s.taken|..])
  }

  /** What a consumption record says about the entry it consumed. */
  ghost predicate Matches(k: Taken, e: Entry) {
    && k.off == e.off
    && (k.how == ByHop ==> IsPlaceholder(e))
    && (k.how == ByRead || k.how == BySkip ==> !IsPlaceholder(e))
    && (k.how == ByRead ==> k.bytes == e.payload)
  }

  ghost predicate SharedInv(s: Shared) {
    && 0 < s.cap && |s.taken| <= |s.log|
    && Tiled(s.log, 0, s.cap)
    && RingInv(View(s)) && Tail(View(s)) == EndOf(s.log, 0)
    && Stored(s.mem, View(s))
    && Unlock(s.head) == View(s).head && Unlock(s.tail) == Tail(View(s))
    && (IsLocked(s.head) <==> s.reader.Some?) && (IsLocked(s.tail) <==> s.writer.Some?)
    && forall i :: 0 <= i < |s.taken| ==> Matches(s.taken[i], s.log[i])
  }

  // ------------------------------------------------------------------
  // What a thread may rely on
  // ------------------------------------------------------------------

  predicate InWriter(l: Local) { l.WFill? || l.WCommit? }

  predicate InReader(l: Local) {
    l.RLoadTail? || l.RSeq? || l.RPayloadSize? || l.REntrySize? || l.RCopy? || l.RCommit? || l.RUnlock?
  }

  ghost predicate Writable(s: Shared, payload: seq<byte>) {
    0 < |payload| && FullSize(|payload|) <= s.cap
  }

  /** An unlocked word that the offset behind `word` has reached. */
  ghost predicate Seen(snapshot: nat, word: nat) {
    Unlock(snapshot) == snapshot <= Unlock(word)
  }

  function ReservedEntry(cap: nat, payload: seq<byte>, tail: nat, placeholder: bool): Entry
    requires 0 < cap
  {
    Entry(tail, ReservedSize(cap, payload, tail, placeholder), Payload(payload, placeholder))
  }

  /** The writer owns the region behind the tail. */
  ghost predicate Reserves(s: Shared, payload: seq<byte>, tail: nat, placeholder: bool)
    requires 0 < s.cap && |s.taken| <= |s.log|
  {
    && Writable(s, payload) && 32 <= s.cap
    && s.tail == Lock(tail) && tail == Tail(View(s))
    && var e := ReservedEntry(s.cap, payload, tail, placeholder);
       Fits(s.cap, e) && HEADER + |e.payload| <= e.size <= Free(View(s)) && Relative(tail, s.cap) + e.size <= s.cap
  }

  /** Which stores have been made when the writer is about to execute pc. */
  ghost predicate FilledTo(m: seq<byte>, p: nat, e: Entry, placeholder: bool, pc: FillPc) {
    && p + e.size <= |m| && HEADER + |e.payload| <= e.size
    && match pc
       case CopyPayload(i) =>
         !placeholder && i <= |e.payload| && BytesAt(m, p + HEADER, e.payload[..i])
       case StorePayloadSize =>
         BytesAt(m, p + HEADER, e.payload) && (!placeholder ==> Get64(m, p + 16) == e.size)
       case StoreEntrySize =>
         BytesAt(m, p + HEADER, e.payload) && (placeholder ==> Get64(m, p + 8) == 0)
       case StoreSeq =>
         BytesAt(m, p + HEADER, e.payload) && Get64(m, p + 8) == |e.payload| && Get64(m, p + 16) == e.size
       case LoadEntrySize =>
         BytesAt(m, p + HEADER, e.payload) && HeaderAt(m, p, Wrap(e.off), |e.payload|, e.size)
  }

  /** The reader holds the head lock. */
  ghost predicate HoldsHead(s: Shared, head: nat)
    requires |s.taken| <= |s.log|
  {
    s.head == Lock(head) && head == View(s).head && Unlock(head) == head
  }

  function Front(s: Shared): Entry
    requires |s.taken| < |s.log|
  {
    s.log[|s.taken|]
  }

  /** ... and there is an entry at the head. */
  ghost predicate HoldsFront(s: Shared, head: nat)
    requires |s.taken| <= |s.log|
  {
    HoldsHead(s, head) && |s.taken| < |s.log|
  }

  ghost predicate Believes(s: Shared, l: Local)
    requires 0 < s.cap && |s.taken| <= |s.log|
  {
    match l
    case Idle(last) => last.Some? ==> last.value.status != IllegalState
    case WLoadTail(payload) => Writable(s, payload)
    case WLoadHead(payload, tail) => Writable(s, payload) && Seen(tail, s.tail)
    case WLock(payload, tail, head, placeholder) =>
      && Writable(s, payload) && Seen(tail, s.tail) && Seen(head, s.head)
      && FullSize(|payload|) <= s.cap - (tail - head)
      && placeholder == (s.cap - Relative(tail, s.cap) < FullSize(|payload|) + HEADER)
    case WFill(payload, tail, placeholder, pc) =>
      && Reserves(s, payload, tail, placeholder)
      && FilledTo(s.mem, Relative(tail, s.cap), ReservedEntry(s.cap, payload, tail, placeholder), placeholder, pc)
    case WCommit(payload, tail, placeholder, size) =>
      && Reserves(s, payload, tail, placeholder)
      && size == ReservedSize(s.cap, payload, tail, placeholder)
      && InMemory(s.mem, ReservedEntry(s.cap, payload, tail, placeholder))
    case RLoadHead(op) => true
    case RLock(op, head) => Seen(head, s.head) && (op.Skip? ==> head == op.offset)
    case RLoadTail(op, head) => HoldsHead(s, head)
    case RSeq(op, head) => HoldsFront(s, head)
    case RPayloadSize(op, head) => HoldsFront(s, head)
    case REntrySize(op, head, payloadSize) => HoldsFront(s, head) && payloadSize == |Front(s).payload|
    case RCopy(op, head, payloadSize, entrySize, got) =>
      && HoldsFront(s, head) && op.Read? && payloadSize == |Front(s).payload| <= op.room && 0 < payloadSize
      && entrySize == Front(s).size && got <= Front(s).payload
    case RCommit(op, head, payloadSize, entrySize, got) =>
      && HoldsFront(s, head) && payloadSize == |Front(s).payload| && entrySize == Front(s).size
      && (0 < payloadSize ==> !op.Peek?) && (0 < payloadSize && op.Read? ==> got == Front(s).payload && payloadSize <= op.room)
    case RUnlock(op, head, status, payloadSize) =>
      && HoldsHead(s, head)
      && (status == Empty || status == NotReady || status == TooSmall || status == Ok)
      && (status == Ok ==> op.Peek? && HoldsFront(s, head) && 0 < payloadSize == |Front(s).payload|)
      && (status == TooSmall ==> op.Read? && HoldsFront(s, head) && op.room < payloadSize == |Front(s).payload|)
    case FLoadHead => true
    case FLoadTail(head) => Seen(head, s.head) && (32 <= s.cap ==> Boundary(s.cap, head))
    case FEntrySize(head) =>
      && Seen(head, s.head) && 32 <= s.cap && Boundary(s.cap, head)
      && (head == Unlock(s.head) ==> |s.taken| < |s.log|)
    case FCommit(head, entrySize) =>
      Seen(head, s.head) && (head == Unlock(s.head) ==> |s.taken| < |s.log| && entrySize == Front(s).size)
    case Fault => false
  }

  /** The lock bits belong to exactly the threads inside the critical sections. */
  ghost predicate LocalInv(s: Shared, t: Tid, l: Local)
    requires SharedInv(s)
  {
    && (s.writer == Some(t) <==> InWriter(l))
    && (s.reader == Some(t) <==> InReader(l))
    && (InReader(l) && l.op.Skip? ==> l.head == l.op.offset)
    && Believes(s, l)
  }

  ghost predicate Inv(st: State) {
    && SharedInv(st.shared)
    && (st.shared.writer.Some? ==> st.shared.writer.value in st.threads)
    && (st.shared.reader.Some? ==> st.shared.reader.value in st.threads)
    && forall t :: t in st.threads ==> LocalInv(st.shared, t, st.threads[t])
  }

  /** What a step of thread t promises to every other thread. */
  ghost predicate Guarantee(s: Shared, s': Shared, t: Tid)
    requires SharedInv(s) && SharedInv(s')
  {
    && s'.cap == s.cap
    && s.log <= s'.log && s.taken <= s'.taken
    && View(s).head <= View(s').head
    && (|s.taken| < |s'.taken| ==> View(s).head < View(s').head)
    && Tail(View(s)) <= Tail(View(s'))
    && (s.tail <= s'.tail)
    && (forall u :: u != t ==> (s.writer == Some(u) <==> s'.writer == Some(u)))
    && (forall u :: u != t ==> (s.reader == Some(u) <==> s'.reader == Some(u)))
    && (s.writer.Some? && s.writer != Some(t) ==> s'.tail == s.tail && s'.mem == s.mem && s'.log == s.log)
    && (s.reader.Some? && s.reader != Some(t) ==> s'.head == s.head && s'.taken == s.taken)
  }
}
