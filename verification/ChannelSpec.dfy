/** The read loops of core/src/ipc_channel.c as functions of a world that competitors
    change between the buffer calls, a clock, and the results of the futex waits. */
module ChannelSpec {
  import opened Words
  import opened Bits
  import opened RingModel
  import opened Wrappers
  import opened Fifo

  // ------------------------------------------------------------------
  // Competitors
  // ------------------------------------------------------------------

  /** The buffer as the channel sees it: the ring and the two lock bits. */
  datatype World = World(ring: Ring, headLocked: bool, tailLocked: bool)

  /** What competitors can do between two buffer calls of the reader. A lock bit
      that stays set is a competitor that is still inside its critical section. */
  datatype Action = Publish(payload: seq<byte>) | Take | LockHead | UnlockHead | LockTail | UnlockTail

  function Act(w: World, a: Action): (w': World)
    requires RingInv(w.ring)
    ensures RingInv(w'.ring) && Evolves(w.ring, w'.ring)
    ensures a != Take ==> w'.ring.head == w.ring.head
  {
    match a
    case Publish(payload) =>
      WriteEvolves(w.ring, w.tailLocked, payload);
      w.(ring := Fifo.WriteCall(w.ring, w.tailLocked, payload).1)
    case Take =>
      SkipForceRefinesFifo(w.ring, w.headLocked);
      PopEvolves(w.ring);
      w.(ring := SkipForceCall(w.ring, w.headLocked).1)
    case LockHead => w.(headLocked := true)
    case UnlockHead => w.(headLocked := false)
    case LockTail => w.(tailLocked := true)
    case UnlockTail => w.(tailLocked := false)
  }

  function Perform(w: World, actions: seq<Action>): (w': World)
    requires RingInv(w.ring)
    ensures RingInv(w'.ring) && Evolves(w.ring, w'.ring)
    ensures Take !in actions ==> w'.ring.head == w.ring.head
    decreases |actions|
  {
    if actions == [] then w else Perform(Act(w, actions[0]), actions[1..])
  }

  /** The head only moves forward, and while it stays the entries behind it stay. */
  ghost predicate Evolves(r: Ring, r': Ring) {
    && r'.cap == r.cap && r.head <= r'.head
    && (r'.head == r.head ==> r.live <= r'.live)
  }

  lemma PopEvolves(r: Ring)
    requires RingInv(r)
    ensures r.live != [] ==> RingInv(Pop(r)) && Evolves(r, Pop(r)) && r.head < Pop(r).head
  {
    hide Relative;
    if r.live != [] {
      PopKeepsInv(r);
    }
  }

  lemma WriteEvolves(r: Ring, tailLocked: bool, payload: seq<byte>)
    requires RingInv(r)
    ensures var r' := Fifo.WriteCall(r, tailLocked, payload).1;
            RingInv(r') && Evolves(r, r') && r'.head == r.head
  {
    hide Relative;
    if 0 < |payload| && FullSize(|payload|) <= r.cap {
      WriteRefinesFifo(r, payload);
    }
  }

  // ------------------------------------------------------------------
  // _try_read
  // ------------------------------------------------------------------

  /** What one call of _try_read comes to: its status, the entry it consumed, the
      world it leaves, the next gap, and the room its buffer then has. It went
      round again for every two gaps it used. */
  datatype TryResult = TryResult(status: Status, entry: Option<Entry>, world: World, gap: nat, room: nat)

  ghost predicate NoTakeFrom(env: nat -> seq<Action>, bound: nat) {
    forall k: nat :: bound <= k ==> Take !in env(k)
  }

  function PeekWorld(w: World): (w': World)
    requires RingInv(w.ring)
    ensures RingInv(w'.ring)
  {
    PeekRefinesFifo(w.ring, w.headLocked, w.tailLocked);
    w.(ring := PeekCall(w.ring, w.headLocked, w.tailLocked).1)
  }

  function PeekStatus(w: World): Status { PeekCall(w.ring, w.headLocked, w.tailLocked).0 }

  function ReadStatus(w: World, room: nat): Status { ReadCall(w.ring, w.headLocked, w.tailLocked, room).0 }

  function ReadWorld(w: World, room: nat): World { w.(ring := ReadCall(w.ring, w.headLocked, w.tailLocked, room).1) }

  /** The room after the peek: the buffer is grown to the peeked size if need be. */
  function GrownRoom(w: World, room: nat): nat
    requires RingInv(w.ring) && PeekStatus(w) == Ok
  {
    PeekRefinesFifo(w.ring, w.headLocked, w.tailLocked);
    var size := |PeekWorld(w).ring.live[0].payload|;
    if room < size then size else room
  }

  /** Competitors act in gap k between the peek and the read, and in gap k + 1
      before the next peek. */
  function TryRead(w: World, env: nat -> seq<Action>, k: nat, room: nat, bound: nat): TryResult
    requires RingInv(w.ring)
    decreases bound - k
  {
    PeekRefinesFifo(w.ring, w.headLocked, w.tailLocked);
    if PeekStatus(w) != Ok then
      TryResult(PeekStatus(w), None, PeekWorld(w), k, room)
    else
      var room1 := GrownRoom(w, room);
      var w1 := Perform(PeekWorld(w), env(k));
      var status := ReadStatus(w1, room1);
      ReadRefinesFifo(w1.ring, w1.headLocked, w1.tailLocked, room1);
      var w2 := ReadWorld(w1, room1);
      if status == TooSmall && k < bound then
        TryRead(Perform(w2, env(k + 1)), env, k + 2, room1, bound)
      else
        TryResult(status, if status == Ok then Some(FrontEntry(w1.ring.live)) else None, w2, k + 1, room1)
  }

  /** The queue has a front that may be read now. */
  predicate Readable(w: World) {
    !w.headLocked && !w.tailLocked && Queue(w.ring) != []
  }

  /** Why a world is not readable, in the order in which the code looks: the head lock,
      then whether anything is committed, then the tail lock. */
  function Unready(w: World): Status {
    if w.headLocked then Locked
    else if w.tailLocked && w.ring.live != [] then NotReady
    else Empty
  }

  /** The read that follows a peek finds its buffer too small only if the head has
      strictly advanced since that peek. */
  lemma TooSmallNeedsAdvance(w: World, actions: seq<Action>, room: nat)
    requires RingInv(w.ring) && PeekStatus(w) == Ok
    requires ReadStatus(Perform(PeekWorld(w), actions), GrownRoom(w, room)) == TooSmall
    ensures PeekWorld(w).ring.head < Perform(PeekWorld(w), actions).ring.head
    ensures Take in actions
  {
    hide Relative, Perform, RingInv;
    PeekRefinesFifo(w.ring, w.headLocked, w.tailLocked);
    PeekShowsEntry(w.ring, w.headLocked, w.tailLocked);
    var w1 := Perform(PeekWorld(w), actions);
    SameFrontFits(PeekWorld(w).ring, w1.ring, w1.headLocked, w1.tailLocked, GrownRoom(w, room));
  }

  lemma SameFrontFits(r: Ring, r': Ring, headLocked: bool, tailLocked: bool, room: nat)
    requires Evolves(r, r') && r.live != [] && !IsPlaceholder(r.live[0]) && |r.live[0].payload| <= room
    ensures r'.head == r.head ==> ReadCall(r', headLocked, tailLocked, room).0 != TooSmall
  {
    if r'.head == r.head {
      assert r'.live[0] == r.live[0];
    }
  }

  lemma PeekShowsEntry(r: Ring, headLocked: bool, tailLocked: bool)
    requires RingInv(r) && PeekCall(r, headLocked, tailLocked).0 == Ok
    ensures var r' := PeekCall(r, headLocked, tailLocked).1;
            r'.live != [] && !IsPlaceholder(r'.live[0]) && r.head <= r'.head
  {
    hide Relative;
    if r.live != [] && IsPlaceholder(r.live[0]) {
      OneHop(r);
      PopKeepsInv(r);
    }
  }

  /** _try_read never reports TOO_SMALL, an error or a mismatch: it returns OK with
      an entry, or one of the statuses that ask for a retry. */
  lemma {:induction false} TryReadStatus(w: World, env: nat -> seq<Action>, k: nat, room: nat, bound: nat)
    requires RingInv(w.ring) && NoTakeFrom(env, bound)
    ensures var t := TryRead(w, env, k, room, bound);
            && RingInv(t.world.ring)
            && (t.status == Ok || t.status == Empty || t.status == NotReady || t.status == Locked)
            && (t.status == Ok <==> t.entry.Some?)
    decreases bound - k
  {
    hide Relative, RingInv, Perform;
    PeekRefinesFifo(w.ring, w.headLocked, w.tailLocked);
    if PeekStatus(w) == Ok {
      var room1 := GrownRoom(w, room);
      var w1 := Perform(PeekWorld(w), env(k));
      ReadRefinesFifo(w1.ring, w1.headLocked, w1.tailLocked, room1);
      if ReadStatus(w1, room1) == TooSmall {
        TooSmallNeedsAdvance(w, env(k), room);
        TryReadStatus(Perform(ReadWorld(w1, room1), env(k + 1)), env, k + 2, room1, bound);
      } else {
        ReadStatuses(w1.ring, w1.headLocked, w1.tailLocked, room1);
      }
    }
  }

  lemma ReadStatuses(r: Ring, headLocked: bool, tailLocked: bool, room: nat)
    requires RingInv(r)
    ensures var s := ReadCall(r, headLocked, tailLocked, room).0;
            s == Ok || s == TooSmall || s == Empty || s == NotReady || s == Locked
  {
    hide Relative;
    ReadRefinesFifo(r, headLocked, tailLocked, room);
    if r.live != [] && IsPlaceholder(r.live[0]) {
      OneHop(r);
    }
  }

  /** OK from _try_read means that exactly one entry was consumed by it: in some
      world during the call it stood at the front of the queue, it fits the buffer,
      and the world left behind is that one without it. */
  lemma {:induction false} TryReadDelivers(w: World, env: nat -> seq<Action>, k: nat, room: nat, bound: nat) returns (w1: World)
    requires RingInv(w.ring) && TryRead(w, env, k, room, bound).status == Ok
    ensures var t := TryRead(w, env, k, room, bound);
            && t.entry.Some? && RingInv(w1.ring) && Readable(w1) && w.ring.head <= w1.ring.head
            && t.entry.value == FrontEntry(w1.ring.live) && t.entry.value.payload == Queue(w1.ring)[0]
            && 0 < |t.entry.value.payload| <= t.room
            && t.world == ReadWorld(w1, t.room) && Queue(t.world.ring) == Queue(w1.ring)[1..]
    decreases bound - k
  {
    hide Relative, RingInv, Perform, Payloads, FrontEntry;
    PeekRefinesFifo(w.ring, w.headLocked, w.tailLocked);
    PeekHeadGrows(w.ring, w.headLocked, w.tailLocked);
    var room1 := GrownRoom(w, room);
    w1 := Perform(PeekWorld(w), env(k));
    ReadRefinesFifo(w1.ring, w1.headLocked, w1.tailLocked, room1);
    if ReadStatus(w1, room1) == TooSmall && k < bound {
      ReadHeadGrows(w1.ring, w1.headLocked, w1.tailLocked, room1);
      w1 := TryReadDelivers(Perform(ReadWorld(w1, room1), env(k + 1)), env, k + 2, room1, bound);
    } else {
      FrontEntryIsFront(w1.ring.live);
      FrontNotEmpty(w1.ring.live);
    }
  }

  lemma {:induction false} FrontNotEmpty(es: seq<Entry>)
    requires Payloads(es) != []
    ensures Payloads(es)[0] != []
    decreases |es|
  {
    if IsPlaceholder(es[0]) {
      FrontNotEmpty(es[1..]);
    }
  }

  lemma PeekHeadGrows(r: Ring, headLocked: bool, tailLocked: bool)
    requires RingInv(r)
    ensures r.head <= PeekCall(r, headLocked, tailLocked).1.head
  {
    hide Relative;
    if r.live != [] && IsPlaceholder(r.live[0]) {
      OneHop(r);
      PopKeepsInv(r);
    }
  }

  lemma ReadHeadGrows(r: Ring, headLocked: bool, tailLocked: bool, room: nat)
    requires RingInv(r)
    ensures r.head <= ReadCall(r, headLocked, tailLocked, room).1.head
  {
    hide Relative;
    if r.live != [] {
      PopKeepsInv(r);
      if IsPlaceholder(r.live[0]) {
        OneHop(r);
        if Pop(r).live != [] {
          PopKeepsInv(Pop(r));
        }
      }
    }
  }

  /** Alone, _try_read goes round once and does what one read of the queue does. */
  lemma TryReadAlone(w: World, env: nat -> seq<Action>, k: nat, room: nat, bound: nat)
    requires RingInv(w.ring) && env(k) == []
    ensures var t := TryRead(w, env, k, room, bound);
            && t.gap <= k + 1
            && t.status == (if Readable(w) then Ok else Unready(w))
            && (t.status == Ok ==> t.entry.Some? && t.entry.value.payload == Queue(w.ring)[0]
                                   && Queue(t.world.ring) == Queue(w.ring)[1..])
            && (t.status != Ok ==> Queue(t.world.ring) == Queue(w.ring))
  {
    hide Relative, RingInv, Payloads, FrontEntry;
    PeekRefinesFifo(w.ring, w.headLocked, w.tailLocked);
    if PeekStatus(w) == Ok {
      var room1 := GrownRoom(w, room);
      var w1 := PeekWorld(w);
      assert Perform(w1, env(k)) == w1;
      ReadRefinesFifo(w1.ring, w1.headLocked, w1.tailLocked, room1);
      FrontEntryIsFront(w1.ring.live);
    }
  }

  // ------------------------------------------------------------------
  // ipc_channel_read
  // ------------------------------------------------------------------

  const NANOS_PER_SEC: nat := 1_000_000_000

  datatype Timespec = Timespec(sec: int, nsec: int)

  predicate NonNegative(t: Timespec) { 0 <= t.sec && 0 <= t.nsec }

  /** ipc_timespec_to_nanos, in wrapping 64-bit arithmetic. */
  function ToNanos(t: Timespec): u64
    requires NonNegative(t)
  {
    Wrap(t.sec * NANOS_PER_SEC + t.nsec)
  }

  /** The timespec built for the futex from the nanoseconds that remain. */
  function Remaining(nanos: u64): Timespec {
    Timespec(nanos / NANOS_PER_SEC, nanos % NANOS_PER_SEC)
  }

  /** It is normalised, and it converts back to exactly these nanoseconds. */
  lemma RemainingRoundTrip(nanos: u64)
    ensures var t := Remaining(nanos);
            NonNegative(t) && t.nsec < NANOS_PER_SEC && ToNanos(t) == nanos
  {
    RelativeSmall(nanos, WORD);
  }

  datatype WaitResult = Woken | TimedOut | WaitFailed

  /** Everything outside the reader: what competitors do in each gap, the readings
      of the clock (None when the call fails), and how each futex wait ends. */
  datatype Outside = Outside(actions: nat -> seq<Action>, clock: nat -> Option<Timespec>, waits: nat -> WaitResult)

  predicate IsRetry(status: Status) {
    status == NotReady || status == Empty || status == Corrupted || status == Locked
  }

  predicate IsError(status: Status) { status != Ok && !IsRetry(status) }

  /** The nanoseconds between the start and reading c. */
  function Elapsed(o: Outside, start: u64, c: nat): (e: Option<u64>) {
    if o.clock(c).Some? && NonNegative(o.clock(c).value) then Some(Sub64(ToNanos(o.clock(c).value), start)) else None
  }

  /** A clock that works: no negative reading, and as long as the deadline has not
      passed the next reading is a later one. It may go on for ever. */
  ghost predicate StrictClock(o: Outside, start: u64, timeout: u64) {
    && (forall c: nat :: o.clock(c).Some? ==> NonNegative(o.clock(c).value))
    && (forall c: nat :: Elapsed(o, start, c).Some? && Elapsed(o, start, c).value < timeout && Elapsed(o, start, c + 1).Some? ==>
          Elapsed(o, start, c).value < Elapsed(o, start, c + 1).value)
  }

  /** How much of the timeout is left at reading c: the measure of the loop. */
  function Left(o: Outside, start: u64, timeout: u64, c: nat): nat {
    match Elapsed(o, start, c)
    case None => 0
    case Some(e) => if timeout <= e then 0 else timeout - e
  }

  datatype ReadResult = ReadResult(status: Status, entry: Option<Entry>, world: World, clock: nat)

  /** The loop of ipc_channel_read, at gap k and clock reading c. When the peek was
      OK and _try_read then asks for a retry, the status of the peek is returned:
      OK, with nothing delivered. */
  function ReadLoop(w: World, o: Outside, k: nat, c: nat, start: u64, timeout: u64, bound: nat): ReadResult
    requires RingInv(w.ring) && StrictClock(o, start, timeout)
    decreases Left(o, start, timeout, c)
  {
    PeekRefinesFifo(w.ring, w.headLocked, w.tailLocked);
    var w0 := PeekWorld(w);
    if PeekStatus(w) == Ok then
      var t := TryRead(Perform(w0, o.actions(k)), o.actions, k + 1, 0, bound);
      if IsError(t.status) then ReadResult(t.status, None, t.world, c)
      else if t.status == Ok then ReadResult(Ok, t.entry, t.world, c)
      else ReadResult(PeekStatus(w), None, t.world, c)
    else if !IsRetry(PeekStatus(w)) then ReadResult(PeekStatus(w), None, w0, c)
    else
      match Elapsed(o, start, c)
      case None => ReadResult(SystemError, None, w0, c)
      case Some(e) =>
        if timeout <= e then ReadResult(Timeout, None, w0, c)
        else if o.waits(c) == WaitFailed then ReadResult(SystemError, None, w0, c)
        else ReadLoop(Perform(w0, o.actions(k)), o, k + 1, c + 1, start, timeout, bound)
  }

  /** The clock as ipc_channel_read needs it; its first reading is the start. */
  ghost predicate WorkingClock(o: Outside, timeout: Timespec) {
    o.clock(0).Some? && NonNegative(timeout) ==>
      NonNegative(o.clock(0).value) && StrictClock(o, ToNanos(o.clock(0).value), ToNanos(timeout))
  }

  /** The plainest clock, which never fails and advances by one nanosecond per
      reading for ever, works for every start and every timeout. */
  lemma TickingClockWorks(o: Outside, origin: nat, timeout: Timespec)
    requires forall c: nat :: o.clock(c) == Some(Timespec(0, origin + c))
    ensures WorkingClock(o, timeout)
  {
    hide Wrap;
    if NonNegative(timeout) {
      var start := ToNanos(o.clock(0).value);
      forall c: nat | Elapsed(o, start, c).value < ToNanos(timeout)
        ensures Elapsed(o, start, c + 1).value == Elapsed(o, start, c).value + 1
      {
        TickAdvances(origin + c, start);
      }
    }
  }

  lemma TickAdvances(n: nat, start: u64)
    requires Sub64(Wrap(n), start) < WORD - 1
    ensures Sub64(Wrap(n + 1), start) == Sub64(Wrap(n), start) + 1
  {
    WrapAdd(n, 1);
  }

  /** ipc_channel_read. */
  function ChannelRead(w: World, o: Outside, timeout: Timespec, bound: nat): ReadResult
    requires RingInv(w.ring) && WorkingClock(o, timeout)
  {
    if !NonNegative(timeout) then ReadResult(InvalidArgument, None, w, 0)
    else if o.clock(0) == None then ReadResult(SystemError, None, w, 0)
    else ReadLoop(w, o, 0, 1, ToNanos(o.clock(0).value), ToNanos(timeout), bound)
  }

  /** TIMEOUT is returned only when the deadline has passed and the peek made since
      the last wait found nothing to read; the ring then holds nothing readable. */
  lemma {:induction false} TimeoutMeans(w: World, o: Outside, k: nat, c: nat, start: u64, timeout: u64, bound: nat)
    requires RingInv(w.ring) && StrictClock(o, start, timeout) && NoTakeFrom(o.actions, bound)
    requires ReadLoop(w, o, k, c, start, timeout, bound).status == Timeout
    ensures var r := ReadLoop(w, o, k, c, start, timeout, bound);
            && r.entry == None && !Readable(r.world)
            && Elapsed(o, start, r.clock).Some? && timeout <= Elapsed(o, start, r.clock).value
    decreases Left(o, start, timeout, c)
  {
    hide Relative, RingInv, Perform, Payloads, TryRead;
    PeekRefinesFifo(w.ring, w.headLocked, w.tailLocked);
    var w0 := PeekWorld(w);
    if PeekStatus(w) == Ok {
      TryReadStatus(Perform(w0, o.actions(k)), o.actions, k + 1, 0, bound);
    } else if IsRetry(PeekStatus(w)) && Elapsed(o, start, c).Some? && Elapsed(o, start, c).value < timeout && o.waits(c) != WaitFailed {
      TimeoutMeans(Perform(w0, o.actions(k)), o, k + 1, c + 1, start, timeout, bound);
    }
  }

  /** No other statuses than these come out of the loop. */
  lemma {:induction false} ReadLoopStatus(w: World, o: Outside, k: nat, c: nat, start: u64, timeout: u64, bound: nat)
    requires RingInv(w.ring) && StrictClock(o, start, timeout) && NoTakeFrom(o.actions, bound)
    ensures var r := ReadLoop(w, o, k, c, start, timeout, bound);
            && RingInv(r.world.ring)
            && (r.status == Ok || r.status == Timeout || r.status == SystemError)
            && (r.entry.Some? ==> r.status == Ok)
    decreases Left(o, start, timeout, c)
  {
    hide Relative, RingInv, Perform, Payloads, TryRead;
    PeekRefinesFifo(w.ring, w.headLocked, w.tailLocked);
    PeekStatuses(w.ring, w.headLocked, w.tailLocked);
    var w0 := PeekWorld(w);
    if PeekStatus(w) == Ok {
      TryReadStatus(Perform(w0, o.actions(k)), o.actions, k + 1, 0, bound);
    } else if Elapsed(o, start, c).Some? && Elapsed(o, start, c).value < timeout && o.waits(c) != WaitFailed {
      ReadLoopStatus(Perform(w0, o.actions(k)), o, k + 1, c + 1, start, timeout, bound);
    }
  }

  lemma PeekStatuses(r: Ring, headLocked: bool, tailLocked: bool)
    requires RingInv(r)
    ensures var s := PeekCall(r, headLocked, tailLocked).0;
            s == Ok || s == Empty || s == NotReady || s == Locked
  {
    hide Relative;
    PeekRefinesFifo(r, headLocked, tailLocked);
    if r.live != [] && IsPlaceholder(r.live[0]) {
      OneHop(r);
    }
  }

  // ------------------------------------------------------------------
  // When OK means that an entry was delivered
  // ------------------------------------------------------------------

  /** The worlds that somebody sees who does nothing but peek, one peek between any
      two gaps. No buffer, no read and no retry occurs here. */
  function Watched(w: World, env: nat -> seq<Action>, k: nat, i: nat): (w': World)
    requires RingInv(w.ring)
    ensures RingInv(w'.ring)
    decreases i
  {
    if i == 0 then w else Watched(Perform(PeekWorld(w), env(k)), env, k + 1, i - 1)
  }

  function PeekedAt(w: World, env: nat -> seq<Action>, k: nat, n: nat): World
    requires RingInv(w.ring)
  {
    Watched(w, env, k, 2 * n)
  }

  function ReadAt(w: World, env: nat -> seq<Action>, k: nat, n: nat): World
    requires RingInv(w.ring)
  {
    Watched(w, env, k, 2 * n + 1)
  }

  function FrontSize(w: World): nat {
    if Queue(w.ring) == [] then 0 else |Queue(w.ring)[0]|
  }

  /** Up to the n-th read there was always something readable, and at that moment the
      front was no longer than the buffer at the start or some front peeked before. */
  ghost predicate ServedAt(w: World, env: nat -> seq<Action>, k: nat, room: nat, n: nat)
    requires RingInv(w.ring)
  {
    && (forall m :: 0 <= m <= n ==> Readable(PeekedAt(w, env, k, m)) && Readable(ReadAt(w, env, k, m)))
    && (FrontSize(ReadAt(w, env, k, n)) <= room ||
        exists m :: 0 <= m <= n && FrontSize(ReadAt(w, env, k, n)) <= FrontSize(PeekedAt(w, env, k, m)))
  }

  ghost predicate Served(w: World, env: nat -> seq<Action>, k: nat, room: nat)
    requires RingInv(w.ring)
  {
    exists n: nat :: ServedAt(w, env, k, room, n)
  }

  /** The second round sees what the watcher sees two gaps later. */
  lemma ServedLater(w: World, env: nat -> seq<Action>, k: nat, room: nat, n: nat)
    requires RingInv(w.ring) && Readable(w) && Readable(Watched(w, env, k, 1))
    ensures var room1 := if room < FrontSize(w) then FrontSize(w) else room;
            ServedAt(w, env, k, room, n + 1) <==> ServedAt(Watched(w, env, k, 2), env, k + 2, room1, n)
  {
    hide Relative, RingInv, Perform, Readable, FrontSize, PeekWorld;
    var w2, k2 := Watched(w, env, k, 2), k + 2;
    assert PeekedAt(w, env, k, 0) == w && ReadAt(w, env, k, 0) == Watched(w, env, k, 1);
    forall m: nat
      ensures PeekedAt(w2, env, k2, m) == PeekedAt(w, env, k, m + 1)
    {
      WatchedLater(w, env, k, 2 * m);
    }
    forall m: nat
      ensures ReadAt(w2, env, k2, m) == ReadAt(w, env, k, m + 1)
    {
      WatchedLater(w, env, k, 2 * m + 1);
    }
    forall m: nat | m > 0
      ensures PeekedAt(w, env, k, m) == PeekedAt(w2, env, k2, m - 1) && ReadAt(w, env, k, m) == ReadAt(w2, env, k2, m - 1)
    {
      assert m - 1 + 1 == m;
    }
  }

  lemma WatchedLater(w: World, env: nat -> seq<Action>, k: nat, i: nat)
    requires RingInv(w.ring)
    ensures Watched(w, env, k, i + 2) == Watched(Watched(w, env, k, 2), env, k + 2, i)
  {
    hide Relative, RingInv, Perform, PeekWorld;
  }

  lemma ServedAfterRound(w: World, env: nat -> seq<Action>, k: nat, room: nat)
    requires RingInv(w.ring) && Readable(w) && Readable(Watched(w, env, k, 1)) && !ServedAt(w, env, k, room, 0)
    ensures var room1 := if room < FrontSize(w) then FrontSize(w) else room;
            Served(w, env, k, room) <==> Served(Watched(w, env, k, 2), env, k + 2, room1)
  {
    hide Relative, RingInv, Perform, Payloads, ServedAt, PeekWorld, Watched, Readable, FrontSize;
    var room1 := if room < FrontSize(w) then FrontSize(w) else room;
    var w2, k2 := Watched(w, env, k, 2), k + 2;
    if n: nat :| ServedAt(w, env, k, room, n) {
      ServedLater(w, env, k, room, n - 1);
      assert ServedAt(w2, env, k2, room1, n - 1);
    }
    if n: nat :| ServedAt(w2, env, k2, room1, n) {
      ServedLater(w, env, k, room, n);
      assert ServedAt(w, env, k, room, n + 1);
    }
  }

  lemma NeverServed(w: World, env: nat -> seq<Action>, k: nat, room: nat)
    requires RingInv(w.ring) && (!Readable(w) || !Readable(Watched(w, env, k, 1)))
    ensures forall n: nat :: !ServedAt(w, env, k, room, n)
  {
    hide Relative, RingInv, Perform, Readable, FrontSize, PeekWorld;
    assert PeekedAt(w, env, k, 0) == w && ReadAt(w, env, k, 0) == Watched(w, env, k, 1);
  }

  lemma ServedAtOnce(w: World, env: nat -> seq<Action>, k: nat, room: nat)
    requires RingInv(w.ring) && Readable(w) && Readable(Watched(w, env, k, 1))
    requires FrontSize(Watched(w, env, k, 1)) <= room || FrontSize(Watched(w, env, k, 1)) <= FrontSize(w)
    ensures ServedAt(w, env, k, room, 0)
  {
    hide Relative, RingInv, Perform, Readable, FrontSize, PeekWorld;
    assert PeekedAt(w, env, k, 0) == w && ReadAt(w, env, k, 0) == Watched(w, env, k, 1);
  }

  lemma NotServedAtOnce(w: World, env: nat -> seq<Action>, k: nat, room: nat)
    requires RingInv(w.ring)
    requires FrontSize(Watched(w, env, k, 1)) > room && FrontSize(Watched(w, env, k, 1)) > FrontSize(w)
    ensures !ServedAt(w, env, k, room, 0)
  {
    hide Relative, RingInv, Perform, Readable, FrontSize, PeekWorld;
    assert PeekedAt(w, env, k, 0) == w && ReadAt(w, env, k, 0) == Watched(w, env, k, 1);
  }

  /** A first round in which the front has outgrown the buffer: _try_read goes round. */
  lemma GoesRound(w: World, env: nat -> seq<Action>, k: nat, room: nat, bound: nat)
    requires RingInv(w.ring) && NoTakeFrom(env, bound) && Readable(w) && Readable(Watched(w, env, k, 1))
    requires FrontSize(Watched(w, env, k, 1)) > room && FrontSize(Watched(w, env, k, 1)) > FrontSize(w)
    ensures var room1 := if room < FrontSize(w) then FrontSize(w) else room;
            k < bound && TryRead(w, env, k, room, bound) == TryRead(Watched(w, env, k, 2), env, k + 2, room1, bound)
  {
    hide Relative, RingInv, Perform, Payloads;
    PeekRefinesFifo(w.ring, w.headLocked, w.tailLocked);
    var w1, room1 := Watched(w, env, k, 1), GrownRoom(w, room);
    ReadRefinesFifo(w1.ring, w1.headLocked, w1.tailLocked, room1);
    TooSmallNeedsAdvance(w, env(k), room);
    TooSmallIsPeek(w1, room1);
  }

  /** A first round that serves. */
  lemma ServesNow(w: World, env: nat -> seq<Action>, k: nat, room: nat, bound: nat)
    requires RingInv(w.ring) && Readable(w) && Readable(Watched(w, env, k, 1))
    requires FrontSize(Watched(w, env, k, 1)) <= room || FrontSize(Watched(w, env, k, 1)) <= FrontSize(w)
    ensures var t, u := TryRead(w, env, k, room, bound), Watched(w, env, k, 1);
            && t.status == Ok && t.gap == k + 1 && t.entry == Some(FrontEntry(u.ring.live))
            && PeekWorld(u).ring.live != [] && t.world == PeekWorld(u).(ring := Pop(PeekWorld(u).ring))
  {
    hide Relative, RingInv, Perform, Payloads, FrontEntry;
    PeekRefinesFifo(w.ring, w.headLocked, w.tailLocked);
    var w1, room1 := Watched(w, env, k, 1), GrownRoom(w, room);
    ReadRefinesFifo(w1.ring, w1.headLocked, w1.tailLocked, room1);
    ReadIsPeekAndPop(w1, room1);
  }

  /** A first round that finds nothing readable, at the peek or at the read. */
  lemma FailsNow(w: World, env: nat -> seq<Action>, k: nat, room: nat, bound: nat)
    requires RingInv(w.ring) && (!Readable(w) || !Readable(Watched(w, env, k, 1)))
    ensures var t, i := TryRead(w, env, k, room, bound), if Readable(w) then 1 else 0;
            var u := Watched(w, env, k, i);
            t.status == Unready(u) && t.entry == None && t.world == PeekWorld(u) && t.gap == k + i
  {
    hide Relative, RingInv, Perform, Payloads;
    PeekRefinesFifo(w.ring, w.headLocked, w.tailLocked);
    if Readable(w) {
      UnreadyReadIsPeek(Watched(w, env, k, 1), GrownRoom(w, room));
    }
  }

  /** What _try_read comes to when it is served: the front of the queue at the first
      moment that serves it, and the world without that front. */
  lemma {:induction false} TryReadServed(w: World, env: nat -> seq<Action>, k: nat, room: nat, bound: nat, n: nat)
    requires RingInv(w.ring) && NoTakeFrom(env, bound)
    requires ServedAt(w, env, k, room, n) && forall m: nat :: m < n ==> !ServedAt(w, env, k, room, m)
    ensures var t, u := TryRead(w, env, k, room, bound), ReadAt(w, env, k, n);
            && t.status == Ok && t.gap == k + 2 * n + 1
            && Queue(u.ring) != [] && t.entry == Some(FrontEntry(u.ring.live))
            && PeekWorld(u).ring.live != [] && t.world == PeekWorld(u).(ring := Pop(PeekWorld(u).ring))
    decreases n
  {
    hide Relative, RingInv, Perform, Payloads, ServedAt, FrontEntry, TryRead, PeekWorld, FrontSize;
    var w1 := Watched(w, env, k, 1);
    if !Readable(w) || !Readable(w1) {
      NeverServed(w, env, k, room);
    } else if FrontSize(w1) <= room || FrontSize(w1) <= FrontSize(w) {
      ServedAtOnce(w, env, k, room);
      ServesNow(w, env, k, room, bound);
    } else {
      GoesRound(w, env, k, room, bound);
      NotServedAtOnce(w, env, k, room);
      var w2, k2 := Watched(w, env, k, 2), k + 2;
      var room1 := if room < FrontSize(w) then FrontSize(w) else room;
      ServedLater(w, env, k, room, n - 1);
      forall m: nat | m < n - 1
        ensures !ServedAt(w2, env, k2, room1, m)
      {
        ServedLater(w, env, k, room, m);
        assert !ServedAt(w, env, k, room, m + 1);
      }
      TryReadServed(w2, env, k2, room1, bound, n - 1);
      WatchedLater(w, env, k, 2 * (n - 1) + 1);
    }
  }

  lemma ReadIsPeekAndPop(w: World, room: nat)
    requires RingInv(w.ring) && ReadStatus(w, room) == Ok
    ensures PeekWorld(w).ring.live != [] && ReadWorld(w, room) == PeekWorld(w).(ring := Pop(PeekWorld(w).ring))
  {
    hide Relative;
    var r := w.ring;
    if IsPlaceholder(r.live[0]) {
      OneHop(r);
      assert ReadCall(r, w.headLocked, w.tailLocked, room) == ReadCall(Pop(r), w.headLocked, w.tailLocked, room);
      assert PeekCall(r, w.headLocked, w.tailLocked) == PeekCall(Pop(r), w.headLocked, w.tailLocked);
    }
  }

  /** What _try_read comes to when it is not: the reason why the first unreadable world
      that the watcher sees is unreadable. */
  lemma {:induction false} TryReadUnserved(w: World, env: nat -> seq<Action>, k: nat, room: nat, bound: nat, i: nat)
    requires RingInv(w.ring) && NoTakeFrom(env, bound) && !Served(w, env, k, room)
    requires !Readable(Watched(w, env, k, i)) && forall m: nat :: m < i ==> Readable(Watched(w, env, k, m))
    ensures var t, u := TryRead(w, env, k, room, bound), Watched(w, env, k, i);
            t.status == Unready(u) && t.entry == None && t.world == PeekWorld(u) && t.gap == k + i
    decreases i
  {
    hide Relative, RingInv, Perform, Payloads, ServedAt, Served, TryRead, PeekWorld, FrontSize, Readable;
    assert i > 0 ==> Readable(Watched(w, env, k, 0));
    assert i > 1 ==> Readable(Watched(w, env, k, 1));
    if i <= 1 {
      FailsNow(w, env, k, room, bound);
    } else {
      UnservedOnce(w, env, k, room);
      GoesRound(w, env, k, room, bound);
      NotServedAtOnce(w, env, k, room);
      ServedAfterRound(w, env, k, room);
      var w2, k2 := Watched(w, env, k, 2), k + 2;
      var room1 := if room < FrontSize(w) then FrontSize(w) else room;
      WatchedLater(w, env, k, i - 2);
      forall m: nat | m < i - 2
        ensures Readable(Watched(w2, env, k2, m))
      {
        WatchedLater(w, env, k, m);
        assert Readable(Watched(w, env, k, m + 2));
      }
      TryReadUnserved(w2, env, k2, room1, bound, i - 2);
    }
  }

  lemma UnservedOnce(w: World, env: nat -> seq<Action>, k: nat, room: nat)
    requires RingInv(w.ring) && !Served(w, env, k, room) && Readable(w) && Readable(Watched(w, env, k, 1))
    ensures FrontSize(Watched(w, env, k, 1)) > room && FrontSize(Watched(w, env, k, 1)) > FrontSize(w)
  {
    hide Relative, RingInv, Perform, Readable, FrontSize, PeekWorld, ServedAt;
    if FrontSize(Watched(w, env, k, 1)) <= room || FrontSize(Watched(w, env, k, 1)) <= FrontSize(w) {
      ServedAtOnce(w, env, k, room);
    }
  }

  lemma UnreadyReadIsPeek(w: World, room: nat)
    requires RingInv(w.ring) && !Readable(w)
    ensures ReadStatus(w, room) == Unready(w) && ReadWorld(w, room) == PeekWorld(w)
  {
    hide Relative;
    ReadRefinesFifo(w.ring, w.headLocked, w.tailLocked, room);
    var r := w.ring;
    if !w.headLocked && !w.tailLocked && r.live != [] && IsPlaceholder(r.live[0]) {
      OneHop(r);
      assert ReadCall(r, w.headLocked, w.tailLocked, room) == ReadCall(Pop(r), w.headLocked, w.tailLocked, room);
      assert PeekCall(r, w.headLocked, w.tailLocked) == PeekCall(Pop(r), w.headLocked, w.tailLocked);
    }
  }

  /** A call that is not served does see an unreadable world, so one of the two lemmas
      above says what every _try_read comes to. */
  lemma {:induction false} UnservedSees(w: World, env: nat -> seq<Action>, k: nat, room: nat, bound: nat) returns (i: nat)
    requires RingInv(w.ring) && NoTakeFrom(env, bound) && !Served(w, env, k, room)
    ensures !Readable(Watched(w, env, k, i)) && forall m: nat :: m < i ==> Readable(Watched(w, env, k, m))
    decreases bound - k
  {
    hide Relative, RingInv, Perform, Payloads, ServedAt, Served, TryRead, PeekWorld, FrontSize;
    if !Readable(w) {
      i := 0;
    } else if !Readable(Watched(w, env, k, 1)) {
      i := 1;
    } else {
      UnservedOnce(w, env, k, room);
      GoesRound(w, env, k, room, bound);
      NotServedAtOnce(w, env, k, room);
      ServedAfterRound(w, env, k, room);
      var room1 := if room < FrontSize(w) then FrontSize(w) else room;
      i := UnservedSees(Watched(w, env, k, 2), env, k + 2, room1, bound);
      WatchedLater(w, env, k, i);
      forall m: nat | m < i + 2
        ensures Readable(Watched(w, env, k, m))
      {
        if m >= 2 {
          WatchedLater(w, env, k, m - 2);
        }
      }
      i := i + 2;
    }
  }

  /** A read whose buffer is too small leaves what a peek would leave. */
  lemma TooSmallIsPeek(w: World, room: nat)
    requires RingInv(w.ring) && ReadStatus(w, room) == TooSmall
    ensures ReadWorld(w, room) == PeekWorld(w)
  {
    hide Relative;
    var r := w.ring;
    if IsPlaceholder(r.live[0]) {
      OneHop(r);
      assert ReadCall(r, w.headLocked, w.tailLocked, room) == ReadCall(Pop(r), w.headLocked, w.tailLocked, room);
      assert PeekCall(r, w.headLocked, w.tailLocked) == PeekCall(Pop(r), w.headLocked, w.tailLocked);
    }
  }

  /** _try_read delivers if and only if the competitors, watched from outside, serve it
      at some moment. */
  lemma TryReadOkIff(w: World, env: nat -> seq<Action>, k: nat, room: nat, bound: nat)
    requires RingInv(w.ring) && NoTakeFrom(env, bound)
    ensures TryRead(w, env, k, room, bound).status == Ok <==> Served(w, env, k, room)
  {
    hide Relative, RingInv, Perform, Payloads, ServedAt, FrontEntry, TryRead, PeekWorld, Readable, Watched;
    if n: nat :| ServedAt(w, env, k, room, n) {
      var first := FirstServed(w, env, k, room, n);
      TryReadServed(w, env, k, room, bound, first);
    } else {
      var i := UnservedSees(w, env, k, room, bound);
      TryReadUnserved(w, env, k, room, bound, i);
    }
  }

  lemma {:induction false} FirstServed(w: World, env: nat -> seq<Action>, k: nat, room: nat, n: nat) returns (first: nat)
    requires RingInv(w.ring) && ServedAt(w, env, k, room, n)
    ensures first <= n && ServedAt(w, env, k, room, first) && forall m: nat :: m < first ==> !ServedAt(w, env, k, room, m)
    decreases n
  {
    hide ServedAt, RingInv;
    if m: nat :| m < n && ServedAt(w, env, k, room, m) {
      first := FirstServed(w, env, k, room, m);
    } else {
      first := n;
    }
  }

  /** ipc_channel_read on a readable channel returns OK whatever happens; it has
      delivered an entry if and only if competitors, acting after its own peek, serve
      the read that follows. */
  lemma ReadableMeansOk(w: World, o: Outside, k: nat, c: nat, start: u64, timeout: u64, bound: nat)
    requires RingInv(w.ring) && StrictClock(o, start, timeout) && NoTakeFrom(o.actions, bound) && Readable(w)
    ensures RingInv(PeekWorld(w).ring)
    ensures var r := ReadLoop(w, o, k, c, start, timeout, bound);
            && r.status == Ok
            && (r.entry.Some? <==> Served(Perform(PeekWorld(w), o.actions(k)), o.actions, k + 1, 0))
  {
    hide Relative, RingInv, Perform, Payloads, TryRead, Served;
    PeekRefinesFifo(w.ring, w.headLocked, w.tailLocked);
    var w1 := Perform(PeekWorld(w), o.actions(k));
    TryReadStatus(w1, o.actions, k + 1, 0, bound);
    TryReadOkIff(w1, o.actions, k + 1, 0, bound);
  }

  /** With no competing consumer in the two gaps that matter, an entry is delivered if
      and only if no lock is held at the two moments after them: not by another reader,
      and not by a producer in the middle of a write. The entry is then the front of
      the queue; otherwise OK comes without one. */
  lemma SingleConsumerDelivers(w: World, o: Outside, k: nat, c: nat, start: u64, timeout: u64, bound: nat)
    requires RingInv(w.ring) && StrictClock(o, start, timeout) && Readable(w)
    requires Take !in o.actions(k) && Take !in o.actions(k + 1)
    ensures var r := ReadLoop(w, o, k, c, start, timeout, bound);
            var w1 := Perform(PeekWorld(w), o.actions(k));
            var w2 := Perform(w1, o.actions(k + 1));
            && r.status == Ok
            && (r.entry.Some? <==> !w1.headLocked && !w1.tailLocked && !w2.headLocked && !w2.tailLocked)
            && (r.entry.Some? ==> r.entry.value.payload == Queue(w.ring)[0])
  {
    hide Relative, RingInv, Perform, Payloads, FrontEntry;
    PeekRefinesFifo(w.ring, w.headLocked, w.tailLocked);
    PeekShowsEntry(w.ring, w.headLocked, w.tailLocked);
    var w0 := PeekWorld(w);
    var w1 := Perform(w0, o.actions(k));
    var w2 := Perform(w1, o.actions(k + 1));
    PeekOfEntry(w1);
    FrontOfEntry(w0.ring.live);
    FrontOfEntry(w1.ring.live);
    FrontOfEntry(w2.ring.live);
    ReadOfEntry(w2, |w1.ring.live[0].payload|);
  }

  lemma ReadOfEntry(w: World, room: nat)
    requires RingInv(w.ring) && w.ring.live != [] && !IsPlaceholder(w.ring.live[0]) && |w.ring.live[0].payload| <= room
    ensures ReadStatus(w, room) == if w.headLocked then Locked else if w.tailLocked then NotReady else Ok
  {
  }

  // ------------------------------------------------------------------
  // How ipc_channel_read ends
  // ------------------------------------------------------------------

  /** Nanoseconds as the C code computes them, before they are cut to 64 bits. */
  function RawNanos(t: Timespec): int { t.sec * 1_000_000_000 + t.nsec }

  /** Reading c of the clock, less reading 0, modulo 2^64, has reached the timeout. */
  predicate DeadlinePassed(o: Outside, timeout: Timespec, c: nat) {
    && o.clock(0).Some? && o.clock(c).Some?
    && (RawNanos(o.clock(c).value) - RawNanos(o.clock(0).value)) % WORD >= RawNanos(timeout) % WORD
  }

  /** Round n is the last: something can be read, or the clock fails, or the deadline
      has passed, or the wait fails. The code looks in this order. */
  predicate LastRound(w: World, o: Outside, timeout: Timespec, n: nat)
    requires RingInv(w.ring)
  {
    || Readable(Watched(w, o.actions, 0, n))
    || o.clock(n + 1) == None
    || DeadlinePassed(o, timeout, n + 1)
    || o.waits(n + 1) == WaitFailed
  }

  lemma ModuloDifference(x: nat, y: nat)
    ensures ((x % WORD) - (y % WORD)) % WORD == (x - y) % WORD
  {
    var a, b := x / WORD, y / WORD;
    assert x - y == (x % WORD - y % WORD) + WORD * (a - b);
    ModuloLaps(x % WORD - y % WORD, a - b);
  }

  lemma ModuloLaps(d: int, laps: int)
    ensures (d + WORD * laps) % WORD == d % WORD
  {
    var q := d / WORD;
    assert d + WORD * laps == WORD * (q + laps) + d % WORD;
  }

  /** The comparison the loop makes is the one on raw nanoseconds modulo 2^64. */
  lemma DeadlineIsElapsed(o: Outside, timeout: Timespec, c: nat)
    requires NonNegative(timeout) && o.clock(0).Some? && NonNegative(o.clock(0).value)
    requires o.clock(c).Some? && NonNegative(o.clock(c).value)
    ensures var e := Elapsed(o, ToNanos(o.clock(0).value), c);
            e.Some? && (ToNanos(timeout) <= e.value <==> DeadlinePassed(o, timeout, c))
  {
    hide Relative, Wrap, Sub64;
    var x, y := RawNanos(o.clock(c).value), RawNanos(o.clock(0).value);
    WordArithmeticIsModular(x, Wrap(x), Wrap(y));
    WordArithmeticIsModular(y, 0, 0);
    WordArithmeticIsModular(RawNanos(timeout), 0, 0);
    ModuloDifference(x, y);
  }

  /** A round in which nothing can be read, when the clock works, time is left and the
      wait does not fail: the loop goes round. */
  lemma RoundGoesOn(u: World, o: Outside, k: nat, start: u64, timeout: u64, bound: nat)
    requires RingInv(u.ring) && StrictClock(o, start, timeout) && !Readable(u)
    requires Elapsed(o, start, k + 1).Some? && Elapsed(o, start, k + 1).value < timeout && o.waits(k + 1) != WaitFailed
    ensures ReadLoop(u, o, k, k + 1, start, timeout, bound)
            == ReadLoop(Perform(PeekWorld(u), o.actions(k)), o, k + 1, k + 2, start, timeout, bound)
  {
    hide Relative, RingInv, Perform, Payloads, TryRead, Elapsed, StrictClock, PeekCall;
    PeekRefinesFifo(u.ring, u.headLocked, u.tailLocked);
    PeekStatuses(u.ring, u.headLocked, u.tailLocked);
  }

  lemma RoundIsLast(u: World, o: Outside, k: nat, start: u64, timeout: u64, bound: nat)
    requires RingInv(u.ring) && StrictClock(o, start, timeout) && NoTakeFrom(o.actions, bound)
    ensures var r := ReadLoop(u, o, k, k + 1, start, timeout, bound);
            var e := Elapsed(o, start, k + 1);
            if Readable(u) then
              var t := TryRead(Perform(PeekWorld(u), o.actions(k)), o.actions, k + 1, 0, bound);
              r.status == Ok && r.entry == t.entry && r.world == t.world
            else if e == None then r.status == SystemError && r.entry == None && r.world == PeekWorld(u)
            else if timeout <= e.value then r.status == Timeout && r.entry == None && r.world == PeekWorld(u)
            else o.waits(k + 1) == WaitFailed ==> r.status == SystemError && r.entry == None && r.world == PeekWorld(u)
  {
    hide Relative, RingInv, Perform, Payloads, TryRead, Elapsed, StrictClock, PeekCall;
    PeekRefinesFifo(u.ring, u.headLocked, u.tailLocked);
    PeekStatuses(u.ring, u.headLocked, u.tailLocked);
    TryReadStatus(Perform(PeekWorld(u), o.actions(k)), o.actions, k + 1, 0, bound);
  }

  /** The loop from round k on. */
  lemma {:induction false} LoopOutcome(w: World, o: Outside, timeout: Timespec, bound: nat, k: nat, n: nat)
    requires RingInv(w.ring) && NonNegative(timeout) && o.clock(0).Some? && WorkingClock(o, timeout) && NoTakeFrom(o.actions, bound)
    requires k <= n && LastRound(w, o, timeout, n) && forall m: nat :: k <= m < n ==> !LastRound(w, o, timeout, m)
    ensures var r := ReadLoop(Watched(w, o.actions, 0, k), o, k, k + 1, ToNanos(o.clock(0).value), ToNanos(timeout), bound);
            Outcome(w, o, timeout, bound, n, r)
    decreases n - k
  {
    hide Relative, RingInv, Perform, Payloads, TryRead, ToNanos, DeadlinePassed, ReadLoop, Readable, Watched, PeekWorld;
    var u, start, limit := Watched(w, o.actions, 0, k), ToNanos(o.clock(0).value), ToNanos(timeout);
    WatchedNext(w, o.actions, 0, k);
    if o.clock(k + 1).Some? {
      DeadlineIsElapsed(o, timeout, k + 1);
    }
    if k < n {
      assert !LastRound(w, o, timeout, k);
      RoundGoesOn(u, o, k, start, limit, bound);
      LoopOutcome(w, o, timeout, bound, k + 1, n);
    } else {
      RoundIsLast(u, o, k, start, limit, bound);
    }
  }

  lemma {:induction false} WatchedNext(w: World, env: nat -> seq<Action>, k: nat, i: nat)
    requires RingInv(w.ring)
    ensures Watched(w, env, k, i + 1) == Perform(PeekWorld(Watched(w, env, k, i)), env(k + i))
    decreases i
  {
    hide Relative, RingInv, Perform, PeekWorld;
    if i > 0 {
      WatchedNext(Perform(PeekWorld(w), env(k)), env, k + 1, i - 1);
    }
  }

  /** What a call whose last round is n answers. When something can be read the entry,
      or its absence, and the world are those of the _try_read that follows. */
  ghost predicate Outcome(w: World, o: Outside, timeout: Timespec, bound: nat, n: nat, r: ReadResult)
    requires RingInv(w.ring)
  {
    var u := Watched(w, o.actions, 0, n);
    if Readable(u) then
      var t := TryRead(Watched(w, o.actions, 0, n + 1), o.actions, n + 1, 0, bound);
      r.status == Ok && r.entry == t.entry && r.world == t.world
    else
      && r.entry == None && r.world == PeekWorld(u)
      && r.status == (if o.clock(n + 1) == None then SystemError
                      else if DeadlinePassed(o, timeout, n + 1) then Timeout
                      else SystemError)
  }

  /** Exactly how ipc_channel_read ends: with the answer of the first round that is the
      last one. As long as there is nothing to read, the clock works, time is left and
      the waits do not fail, it waits and looks again. */
  lemma ChannelReadOutcome(w: World, o: Outside, timeout: Timespec, bound: nat, n: nat)
    requires RingInv(w.ring) && NonNegative(timeout) && o.clock(0).Some? && WorkingClock(o, timeout) && NoTakeFrom(o.actions, bound)
    requires LastRound(w, o, timeout, n) && forall m: nat :: m < n ==> !LastRound(w, o, timeout, m)
    ensures Outcome(w, o, timeout, bound, n, ChannelRead(w, o, timeout, bound))
  {
    hide Relative, RingInv, LastRound, Outcome, ReadLoop, ToNanos;
    LoopOutcome(w, o, timeout, bound, 0, n);
  }

  /** There always is a last round. */
  lemma {:induction false} SomeRoundIsLast(w: World, o: Outside, timeout: Timespec, k: nat) returns (n: nat)
    requires RingInv(w.ring) && NonNegative(timeout) && o.clock(0).Some? && WorkingClock(o, timeout)
    ensures k <= n && LastRound(w, o, timeout, n) && forall m: nat :: k <= m < n ==> !LastRound(w, o, timeout, m)
    decreases Left(o, ToNanos(o.clock(0).value), ToNanos(timeout), k + 1)
  {
    hide Relative, RingInv, Perform, Payloads, ToNanos, DeadlinePassed, Readable, Watched;
    if LastRound(w, o, timeout, k) {
      n := k;
    } else {
      DeadlineIsElapsed(o, timeout, k + 1);
      n := SomeRoundIsLast(w, o, timeout, k + 1);
    }
  }

  /** The answers before the loop: a timeout with a negative part is invalid, and nothing
      else is; without a first reading of the clock there is no read. Neither looks at
      the buffer. */
  lemma ChannelReadRefuses(w: World, o: Outside, timeout: Timespec, bound: nat)
    requires RingInv(w.ring) && WorkingClock(o, timeout) && NoTakeFrom(o.actions, bound)
    ensures var r := ChannelRead(w, o, timeout, bound);
            && (r.status == InvalidArgument <==> timeout.sec < 0 || timeout.nsec < 0)
            && (r.status == InvalidArgument || o.clock(0) == None ==> r.world == w && r.entry == None)
            && (NonNegative(timeout) && o.clock(0) == None ==> r.status == SystemError)
  {
    hide Relative, RingInv, ReadLoop, ToNanos;
    if NonNegative(timeout) && o.clock(0).Some? {
      ReadLoopStatus(w, o, 0, 1, ToNanos(o.clock(0).value), ToNanos(timeout), bound);
    }
  }

  lemma PeekOfEntry(w: World)
    requires RingInv(w.ring) && w.ring.live != [] && !IsPlaceholder(w.ring.live[0])
    ensures PeekWorld(w) == w
    ensures PeekStatus(w) == if w.headLocked then Locked else if w.tailLocked then NotReady else Ok
  {
  }

  lemma FrontOfEntry(es: seq<Entry>)
    requires es != [] && !IsPlaceholder(es[0])
    ensures Payloads(es) != [] && Payloads(es)[0] == es[0].payload && FrontEntry(es) == es[0]
  {
  }

  /** The race, concretely: one entry is queued, and a competitor takes it between
      the peek of ipc_channel_read and the peek of _try_read. The call returns OK
      and has delivered nothing. */
  lemma OkWithoutEntry(payload: seq<byte>, o: Outside, start: u64, timeout: u64)
    requires |payload| == 8 && StrictClock(o, start, timeout)
    requires o.actions(0) == [Take] && forall k :: k > 0 ==> o.actions(k) == []
    ensures var w := World(Ring(64, 0, [Entry(0, 32, payload)]), false, false);
            && RingInv(w.ring) && Readable(w)
            && var r := ReadLoop(w, o, 0, 1, start, timeout, 1);
            r.status == Ok && r.entry == None && Queue(r.world.ring) == []
  {
    var ring := Ring(64, 0, [Entry(0, 32, payload)]);
    var w := World(ring, false, false);
    OneEntryRing(payload);
    PeekOfEntry(w);
    FrontOfEntry(ring.live);
    assert [Take][1..] == [];
    var w1 := w.(ring := Pop(ring));
    assert Perform(w, [Take]) == Perform(w1, []) == w1;
    assert w1.ring.live == [];
    assert PeekStatus(w1) == Empty;
  }

  /** The same without any competing consumer: a producer takes the tail lock after
      the peek of ipc_channel_read and is still writing when _try_read looks. The call
      returns OK, delivers nothing, and the entry is still queued. */
  lemma OkDuringWrite(payload: seq<byte>, o: Outside, start: u64, timeout: u64)
    requires |payload| == 8 && StrictClock(o, start, timeout)
    requires o.actions(0) == [LockTail] && forall k :: k > 0 ==> o.actions(k) == []
    ensures var w := World(Ring(64, 0, [Entry(0, 32, payload)]), false, false);
            && RingInv(w.ring) && Readable(w)
            && var r := ReadLoop(w, o, 0, 1, start, timeout, 1);
            r.status == Ok && r.entry == None && Queue(r.world.ring) == [payload]
  {
    var w := World(Ring(64, 0, [Entry(0, 32, payload)]), false, false);
    OneEntryRing(payload);
    FrontOfEntry(w.ring.live);
    PeekOfEntry(w);
    assert [LockTail][1..] == [];
    var w1 := w.(tailLocked := true);
    assert Perform(w, [LockTail]) == Perform(w1, []) == w1;
    PeekOfEntry(w1);
    assert w.ring.live[1..] == [];
  }

  lemma OneEntryRing(payload: seq<byte>)
    requires |payload| == 8
    ensures RingInv(Ring(64, 0, [Entry(0, 32, payload)]))
  {
    assert Pow2(6) == 64 by {
      Pow2Add(3, 3);
      Pow2Small();
    }
  }
}
