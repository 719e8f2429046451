/** What the buffer operations mean when nothing interferes: each is a function
    from a ring (and the two lock bits) to a status and a ring.  The lemmas relate
    these functions to a plain FIFO of byte strings and say exactly which writes
    are accepted. */
module Fifo {
  import opened Words
  import opened RingModel

  /** The FIFO a ring stands for: the payloads, without the placeholders. */
  function Payloads(es: seq<Entry>): seq<seq<byte>> {
    if es == [] then []
    else (if IsPlaceholder(es[0]) then [] else [es[0].payload]) + Payloads(es[1..])
  }

  function Queue(r: Ring): seq<seq<byte>> { Payloads(r.live) }

  // ------------------------------------------------------------------
  // The operations
  // ------------------------------------------------------------------

  /** ipc_buffer_write after its argument checks, while the tail is unlocked. */
  function WriteUnlocked(r: Ring, payload: seq<byte>): (res: (Status, Ring))
    requires RingInv(r) && 0 < |payload| && FullSize(|payload|) <= r.cap
    ensures RingInv(res.1) && res.1.cap == r.cap
    decreases Free(r)
  {
    var full := FullSize(|payload|);
    if Free(r) < full then
      (NoSpaceContiguous, r)
    else if ToWrap(r) < full + HEADER then
      PlaceholderFits(r, full);
      AppendKeepsInv(r, [], ToWrap(r));
      WriteUnlocked(Append(r, [], ToWrap(r)), payload)
    else
      EntryFits(r, payload);
      AppendKeepsInv(r, payload, full);
      (Ok, Append(r, payload, full))
  }

  function WriteCall(r: Ring, tailLocked: bool, payload: seq<byte>): (Status, Ring)
    requires RingInv(r)
  {
    if payload == [] then (InvalidArgument, r)
    else if FullSize(|payload|) > r.cap then (EntryTooLarge, r)
    else if tailLocked then (Locked, r)
    else WriteUnlocked(r, payload)
  }

  /** What the checks on the front entry decide once the head is locked:
      EMPTY is decided before NOT_READY. */
  function FrontStatus(r: Ring, tailLocked: bool): Status {
    if r.live == [] then Empty else if tailLocked then NotReady else Ok
  }

  function ReadCall(r: Ring, headLocked: bool, tailLocked: bool, room: nat): (Status, Ring)
    decreases |r.live|
  {
    if headLocked then (Locked, r)
    else if FrontStatus(r, tailLocked) != Ok then (FrontStatus(r, tailLocked), r)
    else if IsPlaceholder(r.live[0]) then ReadCall(Pop(r), headLocked, tailLocked, room)
    else if room < |r.live[0].payload| then (TooSmall, r)
    else (Ok, Pop(r))
  }

  function PeekCall(r: Ring, headLocked: bool, tailLocked: bool): (Status, Ring)
    decreases |r.live|
  {
    if headLocked then (Locked, r)
    else if FrontStatus(r, tailLocked) != Ok then (FrontStatus(r, tailLocked), r)
    else if IsPlaceholder(r.live[0]) then PeekCall(Pop(r), headLocked, tailLocked)
    else (Ok, r)
  }

  function SkipCall(r: Ring, headLocked: bool, tailLocked: bool, offset: u64): (Status, Ring)
    decreases |r.live|
  {
    if !Aligned8(offset) then (InvalidArgument, r)
    else if headLocked then (Locked, r)
    else if Wrap(r.head) != offset then (OffsetMismatch, r)
    else if FrontStatus(r, tailLocked) != Ok then (FrontStatus(r, tailLocked), r)
    else if IsPlaceholder(r.live[0]) then SkipCall(Pop(r), headLocked, tailLocked, offset)
    else (Ok, Pop(r))
  }

  /** ipc_buffer_skip_force ignores a locked tail and never takes the head lock. */
  function SkipForceCall(r: Ring, headLocked: bool): (Status, Ring) {
    if r.live == [] then (Empty, r)
    else if headLocked then (AlreadySkipped, r)
    else (Ok, Pop(r))
  }

  /** The first entry that is not a placeholder. */
  function FrontEntry(es: seq<Entry>): Entry
    requires Payloads(es) != []
  {
    if IsPlaceholder(es[0]) then FrontEntry(es[1..]) else es[0]
  }

  lemma {:induction false} FrontEntryIsFront(es: seq<Entry>)
    requires Payloads(es) != []
    ensures FrontEntry(es).payload == Payloads(es)[0] && FrontEntry(es) in es
    decreases |es|
  {
    if IsPlaceholder(es[0]) {
      FrontEntryIsFront(es[1..]);
    }
  }

  // ------------------------------------------------------------------
  // The operations keep the invariant
  // ------------------------------------------------------------------

  /** No front entry is a placeholder twice in a row: one hop is enough. */
  lemma OneHop(r: Ring)
    requires RingInv(r) && r.live != [] && IsPlaceholder(r.live[0])
    ensures RingInv(Pop(r))
    ensures Pop(r).live != [] ==> !IsPlaceholder(Pop(r).live[0])
    ensures Queue(Pop(r)) == Queue(r)
  {
    PopKeepsInv(r);
    if |r.live| > 1 && IsPlaceholder(r.live[1]) {
      SingleLivePlaceholder(r, 0, 1);
      assert false;
    }
  }

  // ------------------------------------------------------------------
  // Refinement of a FIFO of byte strings
  // ------------------------------------------------------------------

  lemma {:induction false} PayloadsConcat(a: seq<Entry>, b: seq<Entry>)
    ensures Payloads(a + b) == Payloads(a) + Payloads(b)
  {
    if a == [] {
      assert a + b == b;
    } else {
      assert (a + b)[1..] == a[1..] + b;
      PayloadsConcat(a[1..], b);
    }
  }

  lemma QueueAppend(r: Ring, payload: seq<byte>, size: nat)
    ensures Queue(Append(r, payload, size)) == Queue(r) + (if payload == [] then [] else [payload])
  {
    var e := Entry(Tail(r), size, payload);
    PayloadsConcat(r.live, [e]);
    assert [e][1..] == [];
  }

  /** A write appends its payload to the queue exactly when it returns OK, and
      otherwise leaves the queue as it was, even when it left a placeholder
      behind. The head does not move, old entries stay where they are, and at
      most one placeholder is added: the recursion is entered at most once. */
  lemma WriteRefinesFifo(r: Ring, payload: seq<byte>)
    requires RingInv(r) && 0 < |payload| && FullSize(|payload|) <= r.cap
    ensures var (status, r') := WriteUnlocked(r, payload);
            && RingInv(r') && r'.head == r.head && r.live <= r'.live
            && (status == Ok || status == NoSpaceContiguous)
            && Queue(r') == Queue(r) + (if status == Ok then [payload] else [])
            && |r'.live| <= |r.live| + (if status == Ok then 2 else 1)
  {
    var full := FullSize(|payload|);
    if full <= Free(r) {
      if ToWrap(r) < full + HEADER {
        var r1 := AfterPlaceholder(r, payload);
        QueueAppend(r, [], ToWrap(r));
        QueueAppend(r1, payload, full);
      } else {
        QueueAppend(r, payload, full);
      }
    }
  }

  /** After the placeholder the tail is at the wrap, and the second attempt
      either finds too little space or writes the entry. */
  lemma AfterPlaceholder(r: Ring, payload: seq<byte>) returns (r1: Ring)
    requires RingInv(r) && 0 < |payload| && FullSize(|payload|) <= Free(r)
    requires ToWrap(r) < FullSize(|payload|) + HEADER
    ensures r1 == Append(r, [], ToWrap(r)) && RingInv(r1)
    ensures ToWrap(r1) == r.cap && Free(r1) == Free(r) - ToWrap(r) && HEADER <= ToWrap(r)
    ensures FullSize(|payload|) <= Free(r1) ==> FullSize(|payload|) + HEADER <= r.cap
    ensures WriteUnlocked(r, payload) ==
            if Free(r1) < FullSize(|payload|) then (NoSpaceContiguous, r1)
            else (Ok, Append(r1, payload, FullSize(|payload|)))
  {
    PlaceholderFits(r, FullSize(|payload|));
    AppendKeepsInv(r, [], ToWrap(r));
    r1 := Append(r, [], ToWrap(r));
    RelativeAdvance(Tail(r), ToWrap(r), r.cap);
  }

  /** A read delivers the front of the queue exactly when it can, and otherwise
      leaves the queue as it was. */
  lemma ReadRefinesFifo(r: Ring, headLocked: bool, tailLocked: bool, room: nat)
    requires RingInv(r)
    ensures var (status, r') := ReadCall(r, headLocked, tailLocked, room);
            && RingInv(r')
            && (status == Ok <==> !headLocked && !tailLocked && Queue(r) != [] && |Queue(r)[0]| <= room)
            && (status == TooSmall <==> !headLocked && !tailLocked && Queue(r) != [] && room < |Queue(r)[0]|)
            && (status == Locked <==> headLocked)
            && (status == NotReady <==> !headLocked && tailLocked && r.live != [])
            && (status == Empty <==> !headLocked && (r.live == [] || (!tailLocked && Queue(r) == [])))
            && Queue(r') == (if status == Ok then Queue(r)[1..] else Queue(r))
            && (status != Ok ==> r' == r || r'.live == r.live[1..])
  {
    hide Relative;
    if r.live != [] {
      PopKeepsInv(r);
      if IsPlaceholder(r.live[0]) {
        OneHop(r);
        if Pop(r).live != [] {
          PopKeepsInv(Pop(r));
        }
      }
    }
  }

  /** A peek never changes the queue; when it returns OK the entry it shows is
      the front of the queue. */
  lemma PeekRefinesFifo(r: Ring, headLocked: bool, tailLocked: bool)
    requires RingInv(r)
    ensures var (status, r') := PeekCall(r, headLocked, tailLocked);
            && RingInv(r') && Queue(r') == Queue(r)
            && (status == Ok <==> !headLocked && !tailLocked && Queue(r) != [])
            && (status == Ok ==> r'.live != [] && r'.live[0].payload == Queue(r)[0])
            && (status == Locked <==> headLocked)
            && (status == NotReady <==> !headLocked && tailLocked && r.live != [])
            && (status == Empty <==> !headLocked && (r.live == [] || (!tailLocked && Queue(r) == [])))
  {
    if r.live != [] && IsPlaceholder(r.live[0]) {
      OneHop(r);
    }
  }

  /** Skip pops the front of the queue exactly when the offset is that of a real
      front entry. Offered the offset of a placeholder, it drops the placeholder,
      reports a mismatch and leaves the queue alone. A locked head is reported before
      the offset is looked at, an empty ring before a locked tail. */
  lemma SkipRefinesFifo(r: Ring, headLocked: bool, tailLocked: bool, offset: u64)
    requires RingInv(r)
    ensures var (status, r') := SkipCall(r, headLocked, tailLocked, offset);
            var here := Aligned8(offset) && !headLocked && Wrap(r.head) == offset;
            && RingInv(r')
            && (status == InvalidArgument <==> !Aligned8(offset))
            && (status == Locked <==> Aligned8(offset) && headLocked)
            && (status == OffsetMismatch <==>
                  Aligned8(offset) && !headLocked
                  && (Wrap(r.head) != offset || (r.live != [] && !tailLocked && IsPlaceholder(r.live[0]))))
            && (status == Empty <==> here && r.live == [])
            && (status == NotReady <==> here && r.live != [] && tailLocked)
            && (status == Ok <==> here && r.live != [] && !tailLocked && !IsPlaceholder(r.live[0]))
            && Queue(r') == (if status == Ok then Queue(r)[1..] else Queue(r))
            && (status != Ok && r' != r ==> status == OffsetMismatch && IsPlaceholder(r.live[0]) && r' == Pop(r))
  {
    hide Relative, Wrap, Aligned8;
    WrapAligned(r.head);
    if r.live != [] {
      PopKeepsInv(r);
      PopMovesHead(r);
      if IsPlaceholder(r.live[0]) {
        OneHop(r);
      }
    }
  }

  /** Popping changes the wrapped head word too, also across 2^64. */
  lemma PopMovesHead(r: Ring)
    requires RingInv(r) && r.live != []
    ensures Aligned8(r.head) && Wrap(Pop(r).head) != Wrap(r.head)
  {
    hide Relative, Wrap, Aligned8;
    var h' := Pop(r).head;
    assert Fits(r.cap, r.live[0]);
    assert r.head < h' <= r.head + r.cap by {
      TiledBounds(r.live, r.head, r.cap, 0);
    }
    if Wrap(h') == Wrap(r.head) {
      WrapInjective(h', r.head);
      assert false;
    }
  }

  lemma SkipForceRefinesFifo(r: Ring, headLocked: bool)
    requires RingInv(r)
    ensures var (status, r') := SkipForceCall(r, headLocked);
            && RingInv(r')
            && (status == Empty <==> r.live == [])
            && (status == AlreadySkipped <==> r.live != [] && headLocked)
            && (status != Ok ==> r' == r)
            && (status == Ok ==> Queue(r') == if IsPlaceholder(r.live[0]) then Queue(r) else Queue(r)[1..])
  {
    if r.live != [] {
      PopKeepsInv(r);
    }
  }

  /** Peek followed by a skip of the peeked offset leaves the same ring as one
      read that had room enough. */
  lemma PeekThenSkipIsRead(r: Ring, room: nat)
    requires RingInv(r) && Queue(r) != [] && |Queue(r)[0]| <= room
    ensures var (peeked, r1) := PeekCall(r, false, false);
            && peeked == Ok
            && SkipCall(r1, false, false, Wrap(r1.head)) == ReadCall(r, false, false, room)
  {
    PeekRefinesFifo(r, false, false);
    var r1 := PeekCall(r, false, false).1;
    WrapAligned(r1.head);
    assert Aligned8(r1.head) by {
      PopKeepsInv(r1);
      assert Fits(r1.cap, r1.live[0]);
    }
    if IsPlaceholder(r.live[0]) {
      OneHop(r);
    }
  }

  // ------------------------------------------------------------------
  // Which writes are accepted
  // ------------------------------------------------------------------

  /** The exact condition under which one call succeeds. */
  lemma WriteAcceptedIff(r: Ring, payload: seq<byte>)
    requires RingInv(r) && 0 < |payload| && FullSize(|payload|) <= r.cap
    ensures var full := FullSize(|payload|);
            WriteUnlocked(r, payload).0 == Ok <==>
              full <= Free(r)
              && (full + HEADER <= ToWrap(r) || (full <= Free(r) - ToWrap(r) && full + HEADER <= r.cap))
  {
    var full := FullSize(|payload|);
    if full <= Free(r) && ToWrap(r) < full + HEADER {
      var _ := AfterPlaceholder(r, payload);
    }
  }

  /** Every status of a write, exactly. A payload that fits is never refused for good:
      a locked tail and a lack of space have statuses of their own. */
  lemma WriteStatusIff(r: Ring, tailLocked: bool, payload: seq<byte>)
    requires RingInv(r)
    ensures var full := FullSize(|payload|);
            var status := WriteCall(r, tailLocked, payload).0;
            var tried := payload != [] && full <= r.cap && !tailLocked;
            var room := full <= Free(r)
                        && (full + HEADER <= ToWrap(r) || (full <= Free(r) - ToWrap(r) && full + HEADER <= r.cap));
            && (status == InvalidArgument <==> payload == [])
            && (status == EntryTooLarge <==> payload != [] && full > r.cap)
            && (status == Locked <==> payload != [] && full <= r.cap && tailLocked)
            && (status == Ok <==> tried && room)
            && (status == NoSpaceContiguous <==> tried && !room)
    ensures var (status, r') := WriteCall(r, tailLocked, payload);
            status == InvalidArgument || status == EntryTooLarge || status == Locked ==> r' == r
  {
    hide Relative, Aligned8, FullSize;
    if payload != [] && FullSize(|payload|) <= r.cap {
      WriteAcceptedIff(r, payload);
      WriteRefinesFifo(r, payload);
    }
  }

  /** No write whose rounded size exceeds the capacity less one header is ever
      accepted, in any state. */
  lemma OversizeNeverAccepted(r: Ring, tailLocked: bool, payload: seq<byte>)
    requires RingInv(r) && FullSize(|payload|) > r.cap - HEADER
    ensures WriteCall(r, tailLocked, payload).0 != Ok
  {
    if 0 < |payload| && FullSize(|payload|) <= r.cap {
      WriteAcceptedIff(r, payload);
    }
  }

  /** On an empty ring: accepted in one call exactly when the entry and a header fit
      before the wrap, or the part before the position is large enough. */
  lemma EmptyRingAccepts(r: Ring, payload: seq<byte>)
    requires RingInv(r) && r.live == [] && 0 < |payload| && FullSize(|payload|) <= r.cap
    ensures var full, position := FullSize(|payload|), Relative(r.head, r.cap);
            WriteUnlocked(r, payload).0 == Ok <==>
              full + HEADER <= r.cap - position || (full <= position && full + HEADER <= r.cap)
  {
    WriteAcceptedIff(r, payload);
  }

  /** On an empty ring every entry with 2 * full + 16 <= capacity is accepted at every
      position, and the smallest entry whenever it is accepted at all. */
  lemma EmptyRingSuffices(r: Ring, payload: seq<byte>)
    requires RingInv(r) && r.live == [] && 0 < |payload| && FullSize(|payload|) + HEADER <= r.cap
    requires 2 * FullSize(|payload|) + 16 <= r.cap || FullSize(|payload|) == SMALLEST
    ensures WriteUnlocked(r, payload).0 == Ok
  {
    EmptyRingAccepts(r, payload);
    CapacityAligned(r);
    RelativeAligned(r.head, r.cap);
    var full, position := FullSize(|payload|), Relative(r.head, r.cap);
    if 2 * full + 16 <= r.cap && r.cap - position < full + HEADER {
      EmptyRingArithmetic(r.cap, position, full);
    }
  }

  lemma EmptyRingArithmetic(d: nat, position: nat, full: nat)
    requires Aligned8(d) && Aligned8(position) && Aligned8(full) && 2 * full + 16 <= d
    requires position < d && d - position < full + HEADER
    ensures full <= position
  {
    AlignedSub(d, position);
    AlignedAdd(full, HEADER);
    AlignedGap(d - position, full + HEADER);
  }

  lemma FullSizeLess8(n: nat)
    requires 8 <= n
    ensures FullSize(n - 8) == FullSize(n) - 8
  {
    RelativeLaps(HEADER + n - 1, 8, 1);
  }

  /** Any larger entry is refused by some empty ring: a fresh ring refuses it once an
      entry eight bytes shorter was written and read. */
  lemma EmptyRingRefuses(capacity: nat, payload: seq<byte>) returns (filler: seq<byte>)
    requires IsPow2(capacity) && capacity <= HALF
    requires SMALLEST < FullSize(|payload|) && FullSize(|payload|) + HEADER <= capacity < 2 * FullSize(|payload|) + 16
    ensures var r0 := Ring(capacity, 0, []);
            && RingInv(r0) && 0 < |filler| && FullSize(|filler|) <= capacity
            && var (wrote, r1) := WriteUnlocked(r0, filler);
            && wrote == Ok
            && var (got, r2) := ReadCall(r1, false, false, |filler|);
            got == Ok && RingInv(r2) && r2.live == [] && r2.cap == capacity && WriteUnlocked(r2, payload).0 != Ok
  {
    var n := |payload|;
    AlignedGap(SMALLEST, FullSize(n));
    FullSizeLess8(n);
    filler := payload[..n - 8];
    var full := FullSize(n - 8);
    var r0 := Ring(capacity, 0, []);
    FreshRing(capacity);
    WriteAcceptedIff(r0, filler);
    var r1 := Append(r0, filler, full);
    assert WriteUnlocked(r0, filler) == (Ok, r1);
    ReadRefinesFifo(r1, false, false, |filler|);
    var r2 := Ring(capacity, full, []);
    assert ReadCall(r1, false, false, |filler|).1 == r2;
    EmptyRingAccepts(r2, payload);
  }

  lemma FreshRing(capacity: nat)
    requires IsPow2(capacity) && 0 < capacity <= HALF
    ensures RingInv(Ring(capacity, 0, []))
  {
  }

  /** The exact bound: the writes that every empty ring of a capacity accepts in one
      call. Every position counted here is one that a fresh ring gets to. */
  lemma EmptyRingBound(capacity: nat, payload: seq<byte>)
    requires IsPow2(capacity) && 0 < capacity <= HALF && 0 < |payload|
    ensures (forall r :: RingInv(r) && r.cap == capacity && r.live == [] ==> WriteCall(r, false, payload).0 == Ok) <==>
            FullSize(|payload|) + HEADER <= capacity
            && (2 * FullSize(|payload|) + 16 <= capacity || FullSize(|payload|) == SMALLEST)
  {
    var full := FullSize(|payload|);
    if full + HEADER > capacity {
      FreshRing(capacity);
      OversizeNeverAccepted(Ring(capacity, 0, []), false, payload);
    } else if 2 * full + 16 <= capacity || full == SMALLEST {
      forall r | RingInv(r) && r.cap == capacity && r.live == []
        ensures WriteCall(r, false, payload).0 == Ok
      {
        EmptyRingSuffices(r, payload);
      }
    } else {
      var filler := EmptyRingRefuses(capacity, payload);
    }
  }

  /** The ring after everything in it has been consumed. */
  function Drained(r: Ring): Ring { Ring(r.cap, Tail(r), []) }

  lemma DrainedInv(r: Ring)
    requires RingInv(r)
    ensures RingInv(Drained(r))
  {
    if 32 <= r.cap {
      TailIsBoundary(r);
    }
  }

  /** Starting from an empty ring, a write with full <= capacity - 24 that is
      refused has left a placeholder behind, and succeeds on the second attempt if
      the ring is drained in between. */
  lemma SecondAttemptFromEmpty(r: Ring, payload: seq<byte>)
    requires RingInv(r) && r.live == [] && 0 < |payload| && FullSize(|payload|) + HEADER <= r.cap
    requires WriteUnlocked(r, payload).0 != Ok
    ensures var r1 := Drained(WriteUnlocked(r, payload).1);
            RingInv(r1) && r1.cap == r.cap && WriteUnlocked(r1, payload).0 == Ok
  {
    var r' := AfterPlaceholder(r, payload);
    DrainedInv(r');
    WriteAcceptedIff(Drained(r'), payload);
  }

  /** From any ring, draining before every retry, the third attempt succeeds at
      the latest. */
  lemma ThirdAttempt(r: Ring, payload: seq<byte>)
    requires RingInv(r) && 0 < |payload| && FullSize(|payload|) + HEADER <= r.cap
    ensures var (s1, r1) := WriteUnlocked(r, payload);
            && RingInv(Drained(r1))
            && var (s2, r2) := WriteUnlocked(Drained(r1), payload);
            && RingInv(Drained(r2))
            && (s1 == Ok || s2 == Ok || WriteUnlocked(Drained(r2), payload).0 == Ok)
  {
    var r1 := Drained(WriteUnlocked(r, payload).1);
    DrainedInv(WriteUnlocked(r, payload).1);
    DrainedInv(WriteUnlocked(r1, payload).1);
    if WriteUnlocked(r1, payload).0 != Ok {
      SecondAttemptFromEmpty(r1, payload);
    }
  }

  /** Two attempts succeed exactly when the first one succeeds, or it left a
      placeholder behind, or the position it stopped at suits the entry. */
  lemma SecondAttemptIff(r: Ring, payload: seq<byte>)
    requires RingInv(r) && 0 < |payload| && FullSize(|payload|) + HEADER <= r.cap
    requires WriteUnlocked(r, payload).0 != Ok
    ensures var full := FullSize(|payload|);
            var r1 := Drained(WriteUnlocked(r, payload).1);
            && RingInv(r1)
            && (WriteUnlocked(r1, payload).0 == Ok <==>
                full <= Free(r) || full + HEADER <= ToWrap(r) || full <= Relative(Tail(r), r.cap))
  {
    var r1 := Drained(WriteUnlocked(r, payload).1);
    DrainedInv(WriteUnlocked(r, payload).1);
    if FullSize(|payload|) <= Free(r) {
      var _ := AfterPlaceholder(r, payload);
    }
    WriteAcceptedIff(r1, payload);
  }

  /** Two attempts are not always enough when the ring was not empty at the first:
      a 64-byte ring holding one entry of 32 bytes refuses a 16-byte payload
      outright, and after a drain refuses it again at position 32. */
  lemma TwoAttemptsMayFail(first: seq<byte>, payload: seq<byte>)
    requires |first| == 8 && |payload| == 16
    ensures var r := Ring(64, 0, [Entry(0, 32, first)]);
            && RingInv(r) && FullSize(|payload|) + HEADER <= r.cap
            && WriteUnlocked(r, payload).0 == NoSpaceContiguous
            && var r1 := Drained(WriteUnlocked(r, payload).1);
            && RingInv(r1) && WriteUnlocked(r1, payload).0 == NoSpaceContiguous
  {
    var r := Ring(64, 0, [Entry(0, 32, first)]);
    assert Pow2(6) == 64 by {
      Pow2Add(3, 3);
      Pow2Of64();
    }
    assert RingInv(r);
    SecondAttemptIff(r, payload);
    WriteRefinesFifo(r, payload);
    WriteRefinesFifo(Drained(WriteUnlocked(r, payload).1), payload);
  }
}
