/** The power-of-two loops of core/src/ipc_utils.c and the size checks that rest
    on them: ipc_buffer_create, ipc_channel_create and the suggested sizes. */
module Sizing {
  import opened Words
  import opened RingModel
  import opened Buffer

  const CACHE_LINE: u64 := 64
  const OFFSET_WORD: u64 := 8
  const DATA_ALIGN: u64 := 8

  /** sizeof(IpcBufferHeader): head, data_size and padding fill one line, tail and padding
      the next. */
  const READ_PADDING: u64 := CACHE_LINE - 2 * OFFSET_WORD
  const WRITE_PADDING: u64 := CACHE_LINE - OFFSET_WORD
  const BUFFER_OVERHEAD: u64 := (OFFSET_WORD + OFFSET_WORD + READ_PADDING) + (OFFSET_WORD + WRITE_PADDING)

  /** The 4-byte notification word of the channel, rounded up to a line. */
  const CHANNEL_HEADER: u64 := CACHE_LINE

  // ------------------------------------------------------------------
  // The shift loops
  // ------------------------------------------------------------------

  /** `x << 1` on a 64-bit word. */
  function ShiftLeft(x: u64): u64 { Add64(x, x) }

  /** The least power of two that is at least n. */
  ghost predicate LeastPow2(p: nat, n: nat) {
    IsPow2(p) && n <= p && forall q :: IsPow2(q) && n <= q ==> p <= q
  }

  /** A power of two 2^k with 2^(k-1) below n is the least one. */
  lemma LeastWhenHalfIsBelow(k: nat, n: nat)
    requires n <= Pow2(k) && (k > 0 ==> Pow2(k - 1) < n)
    ensures LeastPow2(Pow2(k), n)
  {
    forall q | IsPow2(q) && n <= q
      ensures Pow2(k) <= q
    {
      var j: nat :| Pow2(j) == q;
      if j < k {
        Pow2Monotone(j, k - 1);
      } else {
        Pow2Monotone(k, j);
      }
    }
  }

  method FindNextPowerOf2(n: u64) returns (pow: u64)
    requires n <= HALF
    ensures LeastPow2(pow, n)
  {
    Pow2Monotone(0, 0);
    if n == 0 {
      LeastWhenHalfIsBelow(0, 0);
      return 1;
    }
    pow := 1;
    ghost var k: nat := 0;
    while pow < n
      invariant pow == Pow2(k) && 0 < pow && (k > 0 ==> Pow2(k - 1) < n)
      decreases n - pow
    {
      pow := ShiftLeft(pow);
      k := k + 1;
    }
    LeastWhenHalfIsBelow(k, n);
  }

  method IsPowerOf2(size: u64) returns (yes: bool)
    requires size <= HALF
    ensures yes <==> IsPow2(size)
  {
    var res: u64 := 1;
    ghost var k: nat := 0;
    while res < size
      invariant res == Pow2(k) && 0 < res && (k > 0 ==> Pow2(k - 1) < size)
      decreases size - res
    {
      res := ShiftLeft(res);
      k := k + 1;
    }
    LeastWhenHalfIsBelow(k, size);
    yes := res == size;
  }

  /** The loop variable of both loops after i iterations. */
  function Shifted(i: nat): u64 {
    if i == 0 then 1 else ShiftLeft(Shifted(i - 1))
  }

  /** Both loops stop exactly for n <= 2^63; above that the variable becomes 0
      and stays below n for ever. */
  lemma LoopStopsIff(n: u64)
    ensures LoopStops(n) <==> n <= HALF
  {
    Pow2Of64();
    ShiftedValue(63);
    assert Shifted(63) == HALF;
    if n > HALF {
      forall i: nat
        ensures Shifted(i) < n
      {
        ShiftedValue(i);
      }
    }
  }

  lemma {:induction false} ShiftedValue(i: nat)
    ensures Shifted(i) <= HALF
    ensures i <= 63 ==> Shifted(i) == Pow2(i)
    ensures i > 63 ==> Shifted(i) == 0
  {
    if i > 0 {
      ShiftedValue(i - 1);
      Pow2Of64();
      if i <= 63 {
        Pow2Monotone(i, 63);
      } else if i == 64 {
        assert Shifted(63) == HALF;
      }
    }
  }

  // ------------------------------------------------------------------
  // ipc_buffer_create and ipc_buffer_suggest_size
  // ------------------------------------------------------------------

  /** The loop of the power-of-two check comes to an end for n. */
  ghost predicate LoopStops(n: u64) {
    exists i: nat :: Shifted(i) >= n
  }

  /** ipc_buffer_create comes to an end for this size. */
  ghost predicate BufferCreateStops(size: u64) {
    size < BUFFER_OVERHEAD || LoopStops(size - BUFFER_OVERHEAD)
  }

  ghost predicate BufferSizeAccepted(size: u64) {
    BUFFER_OVERHEAD <= size && IsPow2(size - BUFFER_OVERHEAD)
  }

  method BufferCreate(size: u64) returns (status: Status, buffer: IpcBuffer?)
    requires BufferCreateStops(size)
    ensures status == if BufferSizeAccepted(size) then Ok else InvalidArgument
    ensures status == Ok ==>
              && buffer != null && fresh(buffer) && fresh(buffer.data) && buffer.Valid()
              && buffer.dataSize == size - 128 && buffer.ring == Ring(size - 128, 0, [])
              && !IsLocked(buffer.head) && !IsLocked(buffer.tail)
  {
    buffer := null;
    if size < BUFFER_OVERHEAD {
      return InvalidArgument, null;
    }
    var capacity := size - BUFFER_OVERHEAD;
    LoopStopsIff(capacity);
    var isPower := IsPowerOf2(capacity);
    if !isPower {
      return InvalidArgument, null;
    }
    if capacity == 0 {
      Pow2NotZero(capacity);
    }
    buffer := new IpcBuffer(capacity);
    status := Ok;
  }

  lemma Pow2NotZero(n: nat)
    requires IsPow2(n)
    ensures 0 < n
  {
    var k: nat :| Pow2(k) == n;
    Pow2Monotone(0, k);
  }

  method BufferSuggestSize(desiredCapacity: u64) returns (size: u64)
    requires desiredCapacity <= HALF
    ensures BufferCreateStops(size) && BufferSizeAccepted(size)
    ensures desiredCapacity < 8 ==> size == 128 + 8
    ensures desiredCapacity >= 8 ==> LeastPow2(size - 128, desiredCapacity)
  {
    var minSize := BUFFER_OVERHEAD + DATA_ALIGN;
    LoopStopsIff(DATA_ALIGN);
    if Add64(desiredCapacity, BUFFER_OVERHEAD) < minSize {
      Pow2Small();
      return minSize;
    }
    LeastBelowHalf(desiredCapacity);
    var alignedCapacity := FindNextPowerOf2(desiredCapacity);
    LoopStopsIff(alignedCapacity);
    size := Add64(alignedCapacity, BUFFER_OVERHEAD);
  }

  lemma LeastBelowHalf(n: nat)
    requires n <= HALF
    ensures forall p: nat :: LeastPow2(p, n) ==> p <= HALF
  {
    Pow2Of64();
    assert IsPow2(HALF);
  }

  // ------------------------------------------------------------------
  // ipc_channel_create and ipc_channel_suggest_size
  // ------------------------------------------------------------------

  /** ipc_channel_create checks its size only for zero before it subtracts the
      channel header, so a size of 1 to 63 bytes wraps round. */
  ghost predicate ChannelCreateStops(size: u64) {
    size == 0 || BufferCreateStops(Sub64(size, CHANNEL_HEADER))
  }

  ghost predicate ChannelSizeAccepted(size: u64) {
    CHANNEL_HEADER <= size && BufferSizeAccepted(size - CHANNEL_HEADER)
  }

  method ChannelCreate(size: u64) returns (status: Status, buffer: IpcBuffer?)
    requires ChannelCreateStops(size)
    ensures status == if ChannelSizeAccepted(size) then Ok else InvalidArgument
    ensures status == Ok ==>
              && buffer != null && fresh(buffer) && fresh(buffer.data) && buffer.Valid()
              && buffer.dataSize == size - 192 && buffer.ring == Ring(size - 192, 0, [])
  {
    if size == 0 {
      return InvalidArgument, null;
    }
    status, buffer := BufferCreate(Sub64(size, CHANNEL_HEADER));
  }

  /** For which sizes ipc_channel_create comes to an end: not for 1 to 63, where the
      size has wrapped round and the loop never stops, nor beyond 2^63 bytes of data. */
  lemma ChannelCreateStopsIff(size: u64)
    ensures ChannelCreateStops(size) <==>
              size == 0 || 64 <= size <= 64 + 128 + HALF
  {
    var inner := Sub64(size, CHANNEL_HEADER);
    if BUFFER_OVERHEAD <= inner {
      LoopStopsIff(inner - BUFFER_OVERHEAD);
    }
  }

  method ChannelSuggestSize(desiredCapacity: u64) returns (size: u64)
    requires desiredCapacity <= HALF
    ensures ChannelCreateStops(size) && ChannelSizeAccepted(size)
    ensures desiredCapacity < 8 ==> size == 192 + 8
    ensures desiredCapacity >= 8 ==> LeastPow2(size - 192, desiredCapacity)
  {
    var overhead := CHANNEL_HEADER + BUFFER_OVERHEAD;
    var minSize := overhead + DATA_ALIGN;
    LoopStopsIff(DATA_ALIGN);
    if Add64(desiredCapacity, overhead) < minSize {
      Pow2Small();
      return minSize;
    }
    LeastBelowHalf(desiredCapacity);
    var pow := FindNextPowerOf2(desiredCapacity);
    LoopStopsIff(pow);
    size := Add64(pow, overhead);
  }
}
