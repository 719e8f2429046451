/** The ring as its users may think of it: entries laid out back to back at
    ever-growing logical offsets, none of them crossing the wrap, and the bytes
    that represent them in memory.  Shared by the sequential buffer and by the
    concurrent step machine. */
module RingModel {
  import opened Words

  /** sizeof(EntryHeader): seq, payload_size, entry_size. */
  const HEADER: nat := 24

  /** The rounded size of the smallest real entry. */
  const SMALLEST: nat := 32

  datatype Status =
    | Ok | Empty | AlreadySkipped | Placeholder
    | EntryTooLarge | InvalidArgument | TooSmall | IllegalState | SystemError
    | NoSpaceContiguous | NotReady | Locked | OffsetMismatch | Timeout | Corrupted

  /** One committed entry. An empty payload marks a placeholder. */
  datatype Entry = Entry(off: nat, size: nat, payload: seq<byte>)

  function End(e: Entry): nat { e.off + e.size }

  predicate IsPlaceholder(e: Entry) { e.payload == [] }

  /** The rounded size of an entry that carries n payload bytes. */
  function FullSize(n: nat): (size: nat)
    ensures Aligned8(size) && HEADER + n <= size < HEADER + n + 8
    ensures 0 < n ==> 32 <= size
  {
    AlignUp8Facts(HEADER + n);
    if 0 < n then
      AlignedGap(HEADER, AlignUp8(HEADER + n));
      AlignUp8(HEADER + n)
    else
      AlignUp8(HEADER + n)
  }

  /** Where an entry may lie: aligned, inside one lap, and either filling the lap
      exactly (a placeholder) or leaving room for the next entry's header. */
  ghost predicate Fits(capacity: nat, e: Entry)
    requires 0 < capacity
  {
    && Aligned8(e.off) && Aligned8(e.size)
    && HEADER <= e.size
    && if IsPlaceholder(e) then Relative(e.off, capacity) + e.size == capacity
       else e.size == FullSize(|e.payload|) && Relative(e.off, capacity) + e.size + HEADER <= capacity
  }

  function EndOf(es: seq<Entry>, start: nat): nat {
    if es == [] then start else End(es[|es| - 1])
  }

  /** The entries cover [start, EndOf(es, start)) back to back. */
  ghost predicate Tiled(es: seq<Entry>, start: nat, capacity: nat)
    requires 0 < capacity
  {
    && (es != [] ==> es[0].off == start)
    && (forall i {:trigger End(es[i])} :: 0 <= i < |es| - 1 ==> es[i + 1].off == End(es[i]))
    && (forall i :: 0 <= i < |es| ==> Fits(capacity, es[i]))
  }

  /** Where an entry boundary can lie: at the start of a lap or at least one smallest
      entry behind it, and with room for one header before the wrap. */
  ghost predicate Boundary(capacity: nat, off: nat)
    requires 0 < capacity
  {
    && Aligned8(off)
    && (Relative(off, capacity) == 0 || SMALLEST <= Relative(off, capacity))
    && Relative(off, capacity) + HEADER <= capacity
  }

  datatype Ring = Ring(cap: nat, head: nat, live: seq<Entry>)

  function Tail(r: Ring): nat { EndOf(r.live, r.head) }

  function Used(r: Ring): int { Tail(r) - r.head }

  function Free(r: Ring): int { r.cap - Used(r) }

  function ToWrap(r: Ring): int
    requires 0 < r.cap
  {
    r.cap - Relative(Tail(r), r.cap)
  }

  /** A capacity below 32 bytes can be created, but no entry ever fits into it. */
  ghost predicate RingInv(r: Ring) {
    && IsPow2(r.cap) && 0 < r.cap <= HALF
    && Tiled(r.live, r.head, r.cap)
    && 0 <= Used(r) <= r.cap
    && if r.cap < 32 then r.head == 0 && r.live == [] else Boundary(r.cap, r.head)
  }

  function Append(r: Ring, payload: seq<byte>, size: nat): Ring {
    r.(live := r.live + [Entry(Tail(r), size, payload)])
  }

  function Pop(r: Ring): Ring
    requires r.live != []
  {
    Ring(r.cap, End(r.live[0]), r.live[1..])
  }

  // ------------------------------------------------------------------
  // Tiling
  // ------------------------------------------------------------------

  lemma {:induction false} TiledOrder(es: seq<Entry>, start: nat, capacity: nat, i: nat, j: nat)
    requires 0 < capacity && Tiled(es, start, capacity)
    requires i < j < |es|
    ensures End(es[i]) <= es[j].off
    decreases j
  {
    if i + 1 < j {
      TiledOrder(es, start, capacity, i, j - 1);
    }
    assert es[j].off == End(es[j - 1]);
  }

  /** Every entry lies between the start and the end of the chain. */
  lemma TiledBounds(es: seq<Entry>, start: nat, capacity: nat, i: nat)
    requires 0 < capacity && Tiled(es, start, capacity) && i < |es|
    ensures start <= es[i].off < End(es[i]) <= EndOf(es, start)
  {
    if 0 < i {
      TiledOrder(es, start, capacity, 0, i);
    }
    if i < |es| - 1 {
      TiledOrder(es, start, capacity, i, |es| - 1);
    }
  }

  lemma TiledAppend(es: seq<Entry>, start: nat, capacity: nat, e: Entry)
    requires 0 < capacity && Tiled(es, start, capacity)
    requires Fits(capacity, e) && e.off == EndOf(es, start)
    ensures Tiled(es + [e], start, capacity) && EndOf(es + [e], start) == End(e)
  {
    var es' := es + [e];
    forall i {:trigger End(es'[i])} | 0 <= i < |es'| - 1
      ensures es'[i + 1].off == End(es'[i])
    {
      assert es'[i] == es[i];
      if i < |es| - 1 {
        assert es[i + 1].off == End(es[i]);
      }
    }
  }

  lemma TiledSuffix(es: seq<Entry>, start: nat, capacity: nat, n: nat)
    requires 0 < capacity && Tiled(es, start, capacity) && n <= |es|
    ensures Tiled(es[n..], EndOf(es[..n], start), capacity)
    ensures EndOf(es[n..], EndOf(es[..n], start)) == EndOf(es, start)
  {
    var rest := es[n..];
    if rest != [] && n > 0 {
      assert es[n].off == End(es[n - 1]);
    }
    forall i {:trigger End(rest[i])} | 0 <= i < |rest| - 1
      ensures rest[i + 1].off == End(rest[i])
    {
      assert es[n + i + 1].off == End(es[n + i]);
    }
  }

  lemma CapacityAligned(r: Ring)
    requires RingInv(r) && 32 <= r.cap
    ensures Aligned8(r.cap)
  {
    Pow2Aligned(r.cap);
  }

  /** The end of an entry that fits is again a boundary. */
  lemma EndIsBoundary(capacity: nat, e: Entry)
    requires 32 <= capacity && Fits(capacity, e)
    ensures Boundary(capacity, End(e)) && HEADER <= e.size
  {
    RelativeAdvance(e.off, e.size, capacity);
    AlignedAdd(e.off, e.size);
  }

  lemma TailIsBoundary(r: Ring)
    requires RingInv(r) && 32 <= r.cap
    ensures Boundary(r.cap, Tail(r))
  {
    if r.live != [] {
      EndIsBoundary(r.cap, r.live[|r.live| - 1]);
    }
  }

  /** An entry that leaves room for one more header before the wrap fits at the tail. */
  lemma EntryFits(r: Ring, payload: seq<byte>)
    requires RingInv(r) && 0 < |payload| && FullSize(|payload|) + HEADER <= ToWrap(r)
    ensures 32 <= r.cap && Fits(r.cap, Entry(Tail(r), FullSize(|payload|), payload))
  {
    hide Relative;
    TailIsBoundary(r);
  }

  lemma AppendKeepsInv(r: Ring, payload: seq<byte>, size: nat)
    requires RingInv(r) && 32 <= r.cap
    requires Fits(r.cap, Entry(Tail(r), size, payload)) && size <= Free(r)
    ensures RingInv(Append(r, payload, size))
    ensures Tail(Append(r, payload, size)) == Tail(r) + size
  {
    TiledAppend(r.live, r.head, r.cap, Entry(Tail(r), size, payload));
  }

  lemma PopKeepsInv(r: Ring)
    requires RingInv(r) && r.live != []
    ensures RingInv(Pop(r)) && Tail(Pop(r)) == Tail(r)
    ensures r.head == r.live[0].off && r.head + HEADER <= Pop(r).head
  {
    TiledSuffix(r.live, r.head, r.cap, 1);
    assert r.live[..1] == [r.live[0]];
    TiledBounds(r.live, r.head, r.cap, 0);
    EndIsBoundary(r.cap, r.live[0]);
  }

  // ------------------------------------------------------------------
  // The free-space check and the placeholder
  // ------------------------------------------------------------------

  /** The writer checks the free space only against the entry it was asked to
      write, yet a placeholder of up to 16 bytes more always fits: the head of a
      non-empty ring can never lie within a header of the wrap. */
  lemma PlaceholderFits(r: Ring, full: nat)
    requires RingInv(r) && 32 <= r.cap
    requires full <= Free(r) && ToWrap(r) < full + HEADER && 0 < full
    ensures HEADER <= ToWrap(r) <= Free(r)
    ensures Fits(r.cap, Entry(Tail(r), ToWrap(r), []))
  {
    CapacityAligned(r);
    TailIsBoundary(r);
    SpaceToWrap(r.cap, r.head, Tail(r), full);
  }

  /** The same argument on plain offsets h <= t. */
  lemma SpaceToWrap(d: nat, h: nat, t: nat, full: nat)
    requires 0 < d && Aligned8(d) && Boundary(d, h) && Boundary(d, t)
    requires h <= t && 0 < full <= d - (t - h) && d - Relative(t, d) < full + HEADER
    ensures HEADER <= d - Relative(t, d) <= d - (t - h)
    ensures Aligned8(d - Relative(t, d))
  {
    RelativeAligned(t, d);
    AlignedSub(d, Relative(t, d));
    SameOrNextLap(d, h, t);
  }

  /** A region that starts at or after the end of an entry, and ends within one
      lap of the entry's start, does not touch the entry's bytes. */
  lemma RegionsDisjoint(d: nat, o: nat, s: nat, t: nat, z: nat)
    requires 0 < d && 0 < s && 0 < z
    requires o + s <= t && t + z <= o + d
    requires Relative(o, d) + s <= d && Relative(t, d) + z <= d
    ensures Relative(o, d) + s <= Relative(t, d) || Relative(t, d) + z <= Relative(o, d)
  {
    SameOrNextLap(d, o, t);
  }

  /** At most one placeholder is live, and it ends at a multiple of the capacity. */
  lemma SingleLivePlaceholder(r: Ring, i: nat, j: nat)
    requires RingInv(r) && i <= j < |r.live|
    requires IsPlaceholder(r.live[i]) && IsPlaceholder(r.live[j])
    ensures i == j && Relative(End(r.live[i]), r.cap) == 0
  {
    hide Relative, Aligned8;
    var d := r.cap;
    var a, b := r.live[i], r.live[j];
    RelativeAdvance(a.off, a.size, d);
    RelativeAdvance(b.off, b.size, d);
    if i < j {
      TiledOrder(r.live, r.head, d, i, j);
      TiledBounds(r.live, r.head, d, i);
      TiledBounds(r.live, r.head, d, j);
      SameOrNextLap(d, End(a), End(b));
      assert false;
    }
  }

  // ------------------------------------------------------------------
  // Entries in memory
  // ------------------------------------------------------------------

  /** The three header words of an entry at position p. */
  ghost predicate HeaderAt(m: seq<byte>, p: nat, seqno: nat, payloadSize: nat, entrySize: nat) {
    && p + HEADER <= |m|
    && Get64(m, p) == seqno && Get64(m, p + 8) == payloadSize && Get64(m, p + 16) == entrySize
  }

  /** The bytes of m hold entry e: its header words, then its payload. */
  ghost predicate InMemory(m: seq<byte>, e: Entry) {
    && 0 < |m|
    && HEADER + |e.payload| <= e.size
    && Relative(e.off, |m|) + e.size <= |m|
    && HeaderAt(m, Relative(e.off, |m|), Wrap(e.off), |e.payload|, e.size)
    && BytesAt(m, Relative(e.off, |m|) + HEADER, e.payload)
  }

  ghost predicate Stored(m: seq<byte>, r: Ring) {
    |m| == r.cap && forall i :: 0 <= i < |r.live| ==> InMemory(m, r.live[i])
  }

  lemma InMemoryFrame(m: seq<byte>, m': seq<byte>, e: Entry, lo: nat, hi: nat)
    requires InMemory(m, e) && SameOutside(m, m', lo, hi)
    requires Relative(e.off, |m|) + e.size <= lo || hi <= Relative(e.off, |m|)
    ensures InMemory(m', e)
  {
    hide Get64;
    var p := Relative(e.off, |m|);
    Word64Unchanged(m, m', lo, hi, p);
    Word64Unchanged(m, m', lo, hi, p + 8);
    Word64Unchanged(m, m', lo, hi, p + 16);
    SliceUnchanged(m, m', lo, hi, p + HEADER, p + HEADER + |e.payload|);
  }

  /** Writing anywhere into a reserved region behind the tail leaves every live
      entry in place. */
  lemma StoredFrame(m: seq<byte>, m': seq<byte>, r: Ring, size: nat)
    requires RingInv(r) && Stored(m, r)
    requires 0 < size <= Free(r) && Relative(Tail(r), r.cap) + size <= r.cap
    requires SameOutside(m, m', Relative(Tail(r), r.cap), Relative(Tail(r), r.cap) + size)
    ensures Stored(m', r)
  {
    var t := Tail(r);
    forall i | 0 <= i < |r.live|
      ensures InMemory(m', r.live[i])
    {
      var e := r.live[i];
      TiledBounds(r.live, r.head, r.cap, i);
      RegionsDisjoint(r.cap, e.off, e.size, t, size);
      InMemoryFrame(m, m', e, Relative(t, r.cap), Relative(t, r.cap) + size);
    }
  }

  lemma StoredAppend(m: seq<byte>, r: Ring, payload: seq<byte>, size: nat)
    requires Stored(m, r) && InMemory(m, Entry(Tail(r), size, payload))
    ensures Stored(m, Append(r, payload, size))
  {
  }

  lemma StoredPop(m: seq<byte>, r: Ring)
    requires Stored(m, r) && r.live != []
    ensures Stored(m, Pop(r))
  {
  }
}
