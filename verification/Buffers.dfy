/**
 The ring buffer, the padding executor and the pool that runs padding tasks on the caller's
 stack (src/buffer/ring-buffer.ts, src/buffer/buffer-padding-executor.ts,
 src/deps/java/executors.ts). Sequences and seconds are unbounded integers.
 */
module Buffers {
  import JavaLong
  import opened RingModel
  import opened Slots
  import opened PaddingModel

  datatype Refusal = SizeNotPositive | SizeNotPowerOfTwo | FactorOutOfRange | ArrayTooLong

  datatype Construction = Built(ring: RingBuffer) | Refused(reason: Refusal)

  const DEFAULT_TAKE_HANDLER := TakeHandler([], true)

  class RingBuffer {
    const bufferSize: int
    const indexMask: int
    const slots: array<int>
    const flags: array<int>
    const paddingThreshold: int

    // The percentage the threshold comes from
    ghost const paddingFactor: real

    // Tail: last position sequence to produce; cursor: current position sequence to consume
    var tail: int
    var cursor: int

    // The take handler; by default it throws. The put handler only logs, as the default does.
    var rejectedTakeHandler: TakeHandler
    var bufferPaddingExecutor: BufferPaddingExecutor?

    ghost var log: seq<int>
    ghost var live: set<int>
    ghost var issued: seq<int>

    ghost function Model(): Ring
      reads this
    {
      Ring(if bufferSize < 0 then 0 else bufferSize, log, cursor, live, issued)
    }

    ghost predicate Valid()
      reads this, slots, flags
    {
      && JavaLong.IsPowerOfTwo(bufferSize)
      && indexMask == bufferSize - 1
      && slots != flags
      && 0 <= paddingThreshold < bufferSize
      && 100.0 * paddingThreshold as real <= bufferSize as real * paddingFactor
      && bufferSize as real * paddingFactor < 100.0 * (paddingThreshold + 1) as real
      && tail == |log| - 1
      && Model().Valid()
      && Represents(Model(), slots[..], flags[..])
    }

    // An attached executor pads this ring.
    ghost predicate Linked()
      reads this, bufferPaddingExecutor, if bufferPaddingExecutor == null then {} else {bufferPaddingExecutor.pool}
    {
      bufferPaddingExecutor != null ==>
        && bufferPaddingExecutor.ringBuffer == this
        && bufferPaddingExecutor.pool.Valid()
        && Fruitful(bufferPaddingExecutor.uidProvider)
    }

    ghost function Executors(): set<object>
      reads this
    {
      if bufferPaddingExecutor == null then {} else {bufferPaddingExecutor, bufferPaddingExecutor.pool}
    }

    ghost function Settings(): Settings
      reads this
    {
      PaddingModel.Settings(
        paddingThreshold,
        if bufferPaddingExecutor == null then NoProvider() else bufferPaddingExecutor.uidProvider,
        bufferPaddingExecutor != null,
        rejectedTakeHandler)
    }

    // The ring together with the state of its executor.
    ghost function CacheModel(): Cache
      reads this, Executors()
    {
      if bufferPaddingExecutor == null then Cache(Model(), 0, false, false)
      else Cache(Model(), bufferPaddingExecutor.lastSecond, bufferPaddingExecutor.running,
                 bufferPaddingExecutor.pool.shutdown)
    }

    // The checks of the constructor. The size check sees the low 32 bits only, but no array of flags is longer.
    static method Create(bufferSize: int, paddingFactor: real) returns (r: Construction)
      ensures r.Built? <==>
        0 < bufferSize < JavaLong.TWO_32 && JavaLong.IsPowerOfTwo(bufferSize) && 0.0 < paddingFactor < 100.0
      ensures r.Built? ==>
        && fresh(r.ring) && fresh(r.ring.slots) && fresh(r.ring.flags)
        && r.ring.Valid() && r.ring.Model() == EmptyRing(bufferSize) && r.ring.paddingFactor == paddingFactor
        && 100.0 * r.ring.paddingThreshold as real <= bufferSize as real * paddingFactor
           < 100.0 * (r.ring.paddingThreshold + 1) as real
        && r.ring.rejectedTakeHandler.throws && r.ring.rejectedTakeHandler.uids == []
        && r.ring.bufferPaddingExecutor == null
      ensures r.Refused? ==>
        r.reason == if bufferSize <= 0 then SizeNotPositive
                    else if JavaLong.PopCount(bufferSize % JavaLong.TWO_32) != 1 then SizeNotPowerOfTwo
                    else if !(0.0 < paddingFactor < 100.0) then FactorOutOfRange
                    else ArrayTooLong
    {
      hide JavaLong.PopCount, JavaLong.IsPowerOfTwo, Threshold, Represents;
      if bufferSize <= 0 {
        return Refused(SizeNotPositive);
      }
      var bits := JavaLong.BitCount(bufferSize);
      if bits != 1 {
        SizeCheck(bufferSize);
        return Refused(SizeNotPowerOfTwo);
      }
      if !(0.0 < paddingFactor < 100.0) {
        return Refused(FactorOutOfRange);
      }
      // new Array(n) raises a RangeError from 2^32 on
      if bufferSize >= JavaLong.TWO_32 {
        return Refused(ArrayTooLong);
      }
      SizeCheck(bufferSize);
      var flags := InitFlags(bufferSize);
      var ring := new RingBuffer(bufferSize, paddingFactor, flags);
      FreshRingValid(ring);
      r := Built(ring);
    }

    constructor (bufferSize: int, paddingFactor: real, flags: array<int>)
      requires bufferSize > 0
      ensures this.bufferSize == bufferSize && indexMask == bufferSize - 1
      ensures fresh(slots) && slots.Length == bufferSize && this.flags == flags
      ensures paddingThreshold == Threshold(bufferSize, paddingFactor) && this.paddingFactor == paddingFactor
      ensures tail == START_POINT && Model() == EmptyRing(bufferSize)
      ensures rejectedTakeHandler == DEFAULT_TAKE_HANDLER && bufferPaddingExecutor == null
    {
      this.bufferSize := bufferSize;
      indexMask := bufferSize - 1;
      slots := new int[bufferSize](_ => 0);
      this.flags := flags;
      paddingThreshold := Threshold(bufferSize, paddingFactor);
      this.paddingFactor := paddingFactor;
      tail, cursor := START_POINT, START_POINT;
      rejectedTakeHandler, bufferPaddingExecutor := DEFAULT_TAKE_HANDLER, null;
      log, live, issued := [], {}, [];
    }

    static method InitFlags(bufferSize: nat) returns (flags: array<int>)
      ensures fresh(flags) && flags.Length == bufferSize
      ensures forall i :: 0 <= i < bufferSize ==> flags[i] == CAN_PUT_FLAG
    {
      flags := new int[bufferSize];
      var i := 0;
      while i < bufferSize
        invariant 0 <= i <= bufferSize
        invariant forall j :: 0 <= j < i ==> flags[j] == CAN_PUT_FLAG
      {
        flags[i] := CAN_PUT_FLAG;
        i := i + 1;
      }
    }

    // The mask computes the remainder, also for the start point -1.
    function CalSlotIndex(sequence: int): (i: int)
      requires JavaLong.IsPowerOfTwo(bufferSize) && indexMask == bufferSize - 1
      ensures i == sequence % bufferSize && 0 <= i < bufferSize
    {
      ghost var k: nat :| bufferSize == JavaLong.Pow2(k);
      JavaLong.AndMask(sequence, k);
      JavaLong.BitAnd(sequence, indexMask)
    }

    method Put(uid: int) returns (ok: bool)
      requires Valid()
      modifies this`tail, this`log, this`live, slots, flags
      ensures Valid()
      ensures ok == old(Model()).CanPut()
      ensures Model() == old(Model()).Put(uid)
    {
      hide JavaLong.IsPowerOfTwo;
      var currentTail := tail;
      var currentCursor := cursor;
      PutFlag(Model(), slots[..], flags[..]);

      // tail catches the cursor: the ring is full
      var distance := currentTail - (if currentCursor == START_POINT then 0 else currentCursor);
      if distance == bufferSize - 1 {
        return false;
      }

      var nextTailIndex := CalSlotIndex(currentTail + 1);
      if flags[nextTailIndex] != CAN_PUT_FLAG {
        return false;
      }

      PutValid(Model(), uid);
      PutRepresents(Model(), slots[..], flags[..], uid);
      slots[nextTailIndex] := uid;
      flags[nextTailIndex] := CAN_TAKE_FLAG;
      tail := tail + 1;
      log, live := log + [uid], live + {tail};
      return true;
    }

    // The atomic cursor update at the start of a take.
    method Claim() returns (nextCursor: int)
      requires Valid()
      modifies this`cursor
      ensures Valid()
      ensures Model() == old(Model()).Claim() && nextCursor == cursor
    {
      ClaimValid(Model());
      cursor := if cursor == tail then cursor else cursor + 1;
      nextCursor := cursor;
      assert forall q :: Model().InWindow(q) <==> old(Model()).InWindow(q);
    }

    // The end of a take: check the flag, read the slot, then clear the flag.
    method ReadSlot(nextCursor: int) returns (r: TakeResult)
      requires Valid()
      modifies this`live, this`issued, flags
      ensures Valid()
      ensures Model() == old(Model()).Finish(nextCursor)
      ensures r == if old(Model()).CanFinish(nextCursor)
                   then Uid(old(Model()).log[old(Model()).Occupant(nextCursor)]) else NotTakeable
    {
      TakeFlag(Model(), slots[..], flags[..], nextCursor);
      var nextCursorIndex := CalSlotIndex(nextCursor);
      if flags[nextCursorIndex] != CAN_TAKE_FLAG {
        return NotTakeable;
      }
      FinishValid(Model(), nextCursor);
      FinishRepresents(Model(), slots[..], flags[..], nextCursor);
      ghost var occupant := Model().Occupant(nextCursor);
      var uid := slots[nextCursorIndex];
      flags[nextCursorIndex] := CAN_PUT_FLAG;
      live, issued := live - {occupant}, issued + [occupant];
      return Uid(uid);
    }

    // Trigger padding, which runs here and now, if the threshold is reached.
    method TriggerPadding(nextCursor: int) returns (accepted: bool)
      requires Valid() && Linked() && nextCursor == cursor
      modifies this`tail, this`log, this`live, slots, flags, Executors()
      ensures Valid() && Linked()
      ensures accepted == !(Triggers(Settings(), old(Model())) && old(CacheModel()).shutdown)
      ensures CacheModel() == if Triggers(Settings(), old(Model())) && accepted
                              then PaddingPass(Settings(), old(CacheModel())) else old(CacheModel())
    {
      accepted := true;
      var currentTail := tail;
      if currentTail - nextCursor < paddingThreshold && bufferPaddingExecutor != null {
        accepted := bufferPaddingExecutor.AsyncPadding();
      }
    }

    method ClaimAndRefill() returns (nextCursor: int, accepted: bool)
      requires Valid() && Linked()
      modifies this`tail, this`cursor, this`log, this`live, slots, flags, Executors()
      ensures Valid() && Linked()
      ensures CacheModel() == Refilled(Settings(), old(CacheModel()))
      ensures accepted == !RefusesTask(Settings(), old(CacheModel()))
      ensures nextCursor == cursor && (nextCursor == old(cursor) <==> !old(Model()).CanClaim())
    {
      nextCursor := Claim();
      accepted := TriggerPadding(nextCursor);
    }

    // The puts of the take handler; a rejected one changes nothing.
    method HandleRejectedTake()
      requires Valid()
      modifies this`tail, this`log, this`live, slots, flags
      ensures Valid()
      ensures Model() == PutAll(old(Model()), rejectedTakeHandler.uids).0
    {
      var uids, i := rejectedTakeHandler.uids, 0;
      while i < |uids|
        invariant 0 <= i <= |uids|
        invariant Valid()
        invariant PutAll(old(Model()), uids).0 == PutAll(Model(), uids[i..]).0
      {
        assert uids[i..][0] == uids[i] && uids[i..][1..] == uids[i + 1..];
        RejectedPutsIdle(Model(), uids[i + 1..]);
        var ok := Put(uids[i]);
        i := i + 1;
      }
    }

    // The rejection of an empty take, then the slot.
    method FinishTake(nextCursor: int, wasEmpty: bool) returns (r: TakeResult)
      requires Valid() && nextCursor == cursor
      modifies this`tail, this`log, this`live, this`issued, slots, flags
      ensures Valid()
      ensures (CacheModel(), r) == Finished(Settings(), wasEmpty, old(CacheModel()))
    {
      // cursor catches the tail: there is no UID to take
      if wasEmpty {
        HandleRejectedTake();
        if rejectedTakeHandler.throws {
          return RejectedTake;
        }
      }
      r := ReadSlot(nextCursor);
    }

    method Take() returns (r: TakeResult)
      requires Valid() && Linked()
      modifies this`tail, this`cursor, this`log, this`live, this`issued, slots, flags, Executors()
      ensures Valid() && Linked()
      ensures (CacheModel(), r) == TakeStep(old(Settings()), old(CacheModel()))
      ensures old(rejectedTakeHandler.throws) && old(cursor) == old(tail) && old(bufferPaddingExecutor) == null ==>
        r == RejectedTake
    {
      hide Refilled, Represents, Handled;
      ghost var s, c := Settings(), CacheModel();
      if rejectedTakeHandler.throws && cursor == tail {
        ThrowingHandlerRejects(s, c);
      }
      var currentCursor := cursor;
      var nextCursor, accepted := ClaimAndRefill();
      if accepted {
        r := FinishTake(nextCursor, nextCursor == currentCursor);
      } else {
        r := PaddingRejected;
      }
    }

    method SetBufferPaddingExecutor(executor: BufferPaddingExecutor)
      modifies this`bufferPaddingExecutor
      ensures bufferPaddingExecutor == executor
    {
      bufferPaddingExecutor := executor;
    }

    method SetRejectedTakeHandler(handler: TakeHandler)
      modifies this`rejectedTakeHandler
      ensures rejectedTakeHandler == handler
      ensures Model() == old(Model()) && (old(Valid()) ==> Valid())
    {
      rejectedTakeHandler := handler;
    }
  }

  // A full ring stays as it is, however many more UIDs are offered.
  lemma RejectedPutsIdle(r: Ring, uids: seq<int>)
    ensures !r.CanPut() ==> PutAll(r, uids).0 == r
  {
  }

  // Below 2^32 the size check sees the whole number.
  lemma SizeCheck(bufferSize: int)
    ensures 0 < bufferSize < JavaLong.TWO_32 ==>
      (JavaLong.PopCount(bufferSize % JavaLong.TWO_32) == 1 <==> JavaLong.IsPowerOfTwo(bufferSize))
  {
    hide JavaLong.PopCount, JavaLong.IsPowerOfTwo;
    if 0 < bufferSize < JavaLong.TWO_32 {
      assert bufferSize % JavaLong.TWO_32 == bufferSize;
      JavaLong.PopCountOne(bufferSize);
    }
  }

  lemma FreshRingValid(ring: RingBuffer)
    requires JavaLong.IsPowerOfTwo(ring.bufferSize) && ring.bufferSize > 0 && 0.0 < ring.paddingFactor < 100.0
    requires ring.indexMask == ring.bufferSize - 1 && ring.slots != ring.flags
    requires ring.slots.Length == ring.bufferSize && ring.flags.Length == ring.bufferSize
    requires ring.paddingThreshold == Threshold(ring.bufferSize, ring.paddingFactor)
    requires ring.tail == START_POINT && ring.Model() == EmptyRing(ring.bufferSize)
    requires forall i :: 0 <= i < ring.bufferSize ==> ring.flags[i] == CAN_PUT_FLAG
    ensures ring.Valid()
  {
    ThresholdBound(ring.bufferSize, ring.paddingFactor);
    EmptyRingValid(ring.bufferSize);
    EmptyRepresents(ring.bufferSize, ring.slots[..], ring.flags[..]);
  }

  function NoProvider(): Provider {
    (second: int) => [0]
  }

  // Math.trunc(bufferSize * paddingFactor / 100)
  function Threshold(bufferSize: int, paddingFactor: real): int {
    (bufferSize as real * paddingFactor / 100.0).Floor
  }

  lemma ThresholdBound(bufferSize: int, paddingFactor: real)
    requires bufferSize > 0 && 0.0 < paddingFactor < 100.0
    ensures var t := Threshold(bufferSize, paddingFactor);
            && 0 <= t < bufferSize
            && 100.0 * t as real <= bufferSize as real * paddingFactor < 100.0 * (t + 1) as real
    ensures Threshold(bufferSize, paddingFactor) >= 1 <==> bufferSize as real * paddingFactor >= 100.0
  {
    var x := bufferSize as real;
    assert 0.0 < x * paddingFactor < x * 100.0;
  }

  // What is left lies below the threshold exactly when one more would not exceed the share.
  lemma BelowShare(threshold: int, share: real, rest: int)
    requires 100.0 * threshold as real <= share < 100.0 * (threshold + 1) as real
    ensures rest < threshold <==> 100.0 * (rest + 1) as real <= share
  {
    if rest < threshold {
      assert (rest + 1) as real <= threshold as real;
    } else {
      assert (threshold + 1) as real <= (rest + 1) as real;
    }
  }

  // A fixed pool whose workers only lend their names; tasks run on the caller's stack.
  class ExecutorService {
    const poolSize: nat
    var workers: seq<nat>
    var nextWorker: nat
    var shutdown: bool
    ghost var submitted: nat

    ghost predicate Valid()
      reads this
    {
      && poolSize > 0
      && (forall i :: 0 <= i < |workers| ==> workers[i] == i)
      && (if submitted <= poolSize then |workers| == submitted && nextWorker == 0
          else |workers| == poolSize && nextWorker == submitted % poolSize)
    }

    constructor (poolSize: nat)
      requires poolSize > 0
      ensures Valid() && !shutdown && submitted == 0 && this.poolSize == poolSize
    {
      this.poolSize := poolSize;
      workers, nextWorker, shutdown, submitted := [], 0, false, 0;
    }

    // Accepted tasks use the workers in turn; after a shutdown every task is rejected.
    method Submit() returns (accepted: bool, worker: nat)
      requires Valid()
      modifies this`workers, this`nextWorker, this`submitted
      ensures Valid()
      ensures accepted == !shutdown
      ensures accepted ==> submitted == old(submitted) + 1 && worker == old(submitted) % poolSize
      ensures !accepted ==> unchanged(this)
    {
      if shutdown {
        return false, 0;
      }
      worker := NextThread();
      return true, worker;
    }

    method NextThread() returns (worker: nat)
      requires Valid()
      modifies this`workers, this`nextWorker, this`submitted
      ensures Valid() && submitted == old(submitted) + 1 && worker == old(submitted) % poolSize
    {
      RoundRobin(submitted, poolSize);
      submitted := submitted + 1;
      if |workers| < poolSize {
        worker := |workers|;
        workers := workers + [worker];
        return;
      }
      worker := workers[nextWorker % poolSize];
      nextWorker := (nextWorker + 1) % poolSize;
    }

    method ShutdownNow()
      modifies this`shutdown
      ensures shutdown
    {
      shutdown := true;
    }
  }

  lemma RoundRobin(n: nat, size: nat)
    requires size > 0
    ensures (n % size + 1) % size == (n + 1) % size
    ensures (n % size) % size == n % size
    ensures n < size ==> n % size == n
    ensures n == size ==> n % size == 0
  {
    JavaLong.ModWraps(n % size + 1, n / size, size);
    JavaLong.ModWraps(n, 0, size);
    JavaLong.ModWraps(0, 1, size);
    JavaLong.ModWraps(n % size, 0, size);
  }

  class BufferPaddingExecutor {
    const ringBuffer: RingBuffer
    const uidProvider: Provider
    const pool: ExecutorService

    // Whether buffer padding is running; the last second whose UIDs have been asked for
    var running: bool
    var lastSecond: int

    constructor (ringBuffer: RingBuffer, uidProvider: Provider, now: int, cores: nat)
      requires cores > 0
      ensures this.ringBuffer == ringBuffer && this.uidProvider == uidProvider
      ensures !running && lastSecond == now
      ensures fresh(pool) && pool.Valid() && !pool.shutdown && pool.poolSize == 2 * cores && pool.submitted == 0
    {
      this.ringBuffer := ringBuffer;
      this.uidProvider := uidProvider;
      running, lastSecond := false, now;
      pool := new ExecutorService(cores * 2);
    }

    // Fill the slots until the tail catches the cursor; nothing happens while a pass is already running.
    method PaddingBuffer()
      requires ringBuffer.Valid() && Fruitful(uidProvider)
      modifies this`running, this`lastSecond, ringBuffer`tail, ringBuffer`log, ringBuffer`live
      modifies ringBuffer.slots, ringBuffer.flags
      ensures ringBuffer.Valid()
      ensures running == old(running)
      ensures old(running) ==> ringBuffer.Model() == old(ringBuffer.Model()) && lastSecond == old(lastSecond)
      ensures !old(running) ==>
        Padded(ringBuffer.Model(), lastSecond) == Pad(uidProvider, old(ringBuffer.Model()), old(lastSecond))
    {
      if running {
        return;
      }
      running := true;
      ghost var goal := Pad(uidProvider, ringBuffer.Model(), lastSecond);

      var isFullRingBuffer := false;
      while !isFullRingBuffer
        invariant running && ringBuffer.Valid()
        invariant if isFullRingBuffer then Padded(ringBuffer.Model(), lastSecond) == goal
                  else Pad(uidProvider, ringBuffer.Model(), lastSecond) == goal
        decreases !isFullRingBuffer, ringBuffer.Model().Free()
      {
        ghost var before, second := ringBuffer.Model(), lastSecond;
        lastSecond := lastSecond + 1;
        var uidList := uidProvider(lastSecond);
        PutAllExtends(before, uidList);
        isFullRingBuffer := OfferBatch(uidList);
        assert PutAll(before, uidList) == (ringBuffer.Model(), isFullRingBuffer);
      }

      running := false;
    }

    // The inner loop: offer the batch in order, up to the first rejection.
    method OfferBatch(uidList: seq<int>) returns (isFull: bool)
      requires ringBuffer.Valid()
      modifies ringBuffer`tail, ringBuffer`log, ringBuffer`live, ringBuffer.slots, ringBuffer.flags
      ensures ringBuffer.Valid()
      ensures (ringBuffer.Model(), isFull) == PutAll(old(ringBuffer.Model()), uidList)
    {
      isFull := false;
      var i := 0;
      while i < |uidList| && !isFull
        invariant 0 <= i <= |uidList|
        invariant ringBuffer.Valid()
        invariant if isFull then PutAll(old(ringBuffer.Model()), uidList) == (ringBuffer.Model(), true)
                  else PutAll(old(ringBuffer.Model()), uidList) == PutAll(ringBuffer.Model(), uidList[i..])
        decreases |uidList| - i, !isFull
      {
        var ok := ringBuffer.Put(uidList[i]);
        isFull := !ok;
        assert uidList[i..][0] == uidList[i] && uidList[i..][1..] == uidList[i + 1..];
        if ok {
          i := i + 1;
        }
      }
    }

    // Padding in the pool: inline, unless the pool was shut down.
    method AsyncPadding() returns (accepted: bool)
      requires ringBuffer.Valid() && Fruitful(uidProvider) && pool.Valid()
      modifies this`running, this`lastSecond, ringBuffer`tail, ringBuffer`log, ringBuffer`live
      modifies ringBuffer.slots, ringBuffer.flags
      modifies pool`workers, pool`nextWorker, pool`submitted
      ensures ringBuffer.Valid() && pool.Valid()
      ensures accepted == !pool.shutdown && running == old(running)
      ensures !accepted || old(running) ==>
        ringBuffer.Model() == old(ringBuffer.Model()) && lastSecond == old(lastSecond)
      ensures accepted && !old(running) ==>
        Padded(ringBuffer.Model(), lastSecond) == Pad(uidProvider, old(ringBuffer.Model()), old(lastSecond))
    {
      var worker: nat;
      accepted, worker := pool.Submit();
      if accepted {
        PaddingBuffer();
      }
    }

    method Shutdown()
      modifies pool`shutdown
      ensures pool.shutdown
    {
      if !pool.shutdown {
        pool.ShutdownNow();
      }
    }
  }
}
