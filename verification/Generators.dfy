/**
 The two generators as objects (src/impl/default-uid-generator.ts,
 src/impl/cached-uid-generator.ts). The clock is the sequence of readings Date.now() will
 return; the source's inheritance is composition here.
 */
module Generators {
  import opened JavaLong
  import opened BitsAllocation
  import opened Wrappers
  import opened DefaultModel
  import opened RingModel
  import opened PaddingModel
  import opened ClosedForm
  import opened CachedModel
  import opened Buffers
  import CacheRuns
  import DefaultRuns
  import opened Sequences

  datatype Initialization = Initialized | WidthsRejected | WorkerIdTooLarge

  class DefaultUidGenerator {
    var timeBits: int
    var workerBits: int
    var seqBits: int
    var epochSeconds: int
    var bitsAllocator: Option<BitsAllocator>
    var workerId: int

    // Changed by nextId
    var sequence: int
    var lastSecond: int

    const clock: seq<int>
    var clockPos: nat

    // Calls of NextId so far
    ghost var calls: nat

    ghost predicate WidthsPositive()
      reads this
    {
      timeBits > 0 && workerBits > 0 && seqBits > 0
    }

    ghost predicate Ready()
      reads this
    {
      && bitsAllocator.Some?
      && Settled().Valid()
      && IsAfter(Settled(), clock, calls, CallState())
    }

    function Settled(): Config
      reads this
      requires bitsAllocator.Some?
    {
      Config(bitsAllocator.value, epochSeconds, workerId)
    }

    function CallState(): State
      reads this
    {
      State(lastSecond, sequence, clockPos)
    }

    constructor (clock: seq<int>)
      ensures WidthsPositive() && timeBits == 28 && workerBits == 22 && seqBits == 13
      ensures epochSeconds == 1463673600 && bitsAllocator == None
      ensures this.clock == clock && calls == 0 && CallState() == Start().state
      ensures lastSecond == -1 && sequence == 0 && clockPos == 0
    {
      timeBits, workerBits, seqBits := 28, 22, 13;
      epochSeconds := 1463673600;
      bitsAllocator, workerId := None, 0;
      sequence, lastSecond, clockPos := 0, -1, 0;
      this.clock := clock;
      calls := 0;
    }

    // The setters ignore a width that is not positive.
    method SetTimeBits(bits: int)
      requires WidthsPositive()
      modifies this`timeBits
      ensures WidthsPositive() && timeBits == if bits > 0 then bits else old(timeBits)
    {
      if bits > 0 {
        timeBits := bits;
      }
    }

    method SetWorkerBits(bits: int)
      requires WidthsPositive()
      modifies this`workerBits
      ensures WidthsPositive() && workerBits == if bits > 0 then bits else old(workerBits)
    {
      if bits > 0 {
        workerBits := bits;
      }
    }

    method SetSeqBits(bits: int)
      requires WidthsPositive()
      modifies this`seqBits
      ensures WidthsPositive() && seqBits == if bits > 0 then bits else old(seqBits)
    {
      if bits > 0 {
        seqBits := bits;
      }
    }

    method SetEpochSeconds(epoch: int)
      modifies this`epochSeconds
      ensures epochSeconds == epoch
    {
      epochSeconds := epoch;
    }

    // `newWorkerId` is the answer of the worker id assigner.
    method AfterPropertiesSet(newWorkerId: int) returns (r: Initialization)
      requires WidthsPositive()
      modifies this`bitsAllocator, this`workerId
      ensures r == if timeBits + workerBits + seqBits != 63 then WidthsRejected
                   else if newWorkerId >= Pow2(workerBits) then WorkerIdTooLarge
                   else Initialized
      ensures r == WidthsRejected ==> unchanged(this)
      ensures r != WidthsRejected ==> bitsAllocator == Create(timeBits, workerBits, seqBits) && workerId == newWorkerId
      ensures r == Initialized && newWorkerId >= 0 && calls == 0 && CallState() == Start().state ==> Ready()
    {
      var allocator := Create(timeBits, workerBits, seqBits);
      if allocator == None {
        return WidthsRejected;
      }
      CreateLegal(timeBits, workerBits, seqBits);
      bitsAllocator := allocator;
      workerId := newWorkerId;
      if workerId > allocator.value.maxWorkerId {
        return WorkerIdTooLarge;
      }
      AfterStart(Settled(), clock);
      return Initialized;
    }

    // One reading of the clock.
    method GetCurrentSecond() returns (r: Spun)
      requires bitsAllocator.Some?
      modifies this`clockPos
      ensures r == if old(clockPos) >= |clock| then Silent
                   else match CurrentSecond(Settled(), clock[old(clockPos)])
                        case None => Expired
                        case Some(second) => Found(second)
      // In milliseconds: the second of the reading, or a reading after the last second of the delta field.
      ensures old(clockPos) < |clock| && 0 <= clock[old(clockPos)] <= MAX_TIME ==>
        var millis, last := clock[old(clockPos)], epochSeconds + bitsAllocator.value.maxDeltaSeconds;
        && (r.Expired? <==> millis >= 1000 * (last + 1))
        && (r.Found? ==> 1000 * r.second <= millis < 1000 * r.second + 1000)
      ensures clockPos == if r.Silent? then old(clockPos) else old(clockPos) + 1
    {
      if clockPos >= |clock| {
        return Silent;
      }
      if 0 <= clock[clockPos] <= MAX_TIME {
        RefusedReadings(Settled(), clock[clockPos]);
      }
      var currentSecond := ToSeconds(clock[clockPos]);
      clockPos := clockPos + 1;
      if currentSecond - epochSeconds > bitsAllocator.value.maxDeltaSeconds {
        return Expired;
      }
      return Found(currentSecond);
    }

    method GetNextSecond(lastTimestamp: int) returns (r: Spun)
      requires bitsAllocator.Some?
      modifies this`clockPos
      ensures (r, clockPos) == Spin(Settled(), clock, old(clockPos), lastTimestamp)
      ensures r.Found? ==>
        && lastTimestamp < r.second && 0 < clockPos <= |clock|
        && (0 <= clock[clockPos - 1] <= MAX_TIME ==> 1000 * r.second <= clock[clockPos - 1] < 1000 * r.second + 1000)
    {
      hide ToSeconds, CurrentSecond;
      r := GetCurrentSecond();
      while r.Found? && r.second <= lastTimestamp
        invariant clockPos >= old(clockPos)
        invariant if r.Found? && r.second <= lastTimestamp
                  then Spin(Settled(), clock, old(clockPos), lastTimestamp)
                       == Spin(Settled(), clock, clockPos, lastTimestamp)
                  else (r, clockPos) == Spin(Settled(), clock, old(clockPos), lastTimestamp)
        invariant r.Found? ==> clockPos <= |clock|
        decreases r.Found?, |clock| - clockPos
      {
        r := GetCurrentSecond();
      }
      if r.Found? && 0 <= clock[clockPos - 1] <= MAX_TIME {
        RefusedReadings(Settled(), clock[clockPos - 1]);
      }
    }

    method NextId() returns (r: Outcome)
      requires Ready()
      modifies this`sequence, this`lastSecond, this`clockPos, this`calls
      ensures Ready() && calls == old(calls) + 1
      ensures (CallState(), r) == DefaultModel.NextId(Settled(), clock, old(CallState()))
    {
      hide RunCalls, Pow2;
      AfterNextId(Settled(), clock, calls, CallState());
      var step := GetCurrentSecond();
      calls := calls + 1;
      if !step.Found? {
        return if step.Expired? then Exhausted else NoReading;
      }
      var currentSecond := step.second;

      // A clock that went back is refused.
      if currentSecond < lastSecond {
        return ClockMovedBackwards(lastSecond - currentSecond);
      }

      // At the same second, increase sequence; past the last one, wait for the next second
      if currentSecond == lastSecond {
        sequence := And(sequence + 1, bitsAllocator.value.maxSequence);
        if sequence == 0 {
          var later := GetNextSecond(lastSecond);
          if !later.Found? {
            return if later.Expired? then Exhausted else NoReading;
          }
          currentSecond := later.second;
        }
      } else {
        sequence := 0;
      }

      lastSecond := currentSecond;
      return Issued(bitsAllocator.value.Allocate(Subtract(currentSecond, epochSeconds), workerId, sequence));
    }

    // What the calls have returned so far, in order.
    ghost function Returned(): seq<int>
      requires bitsAllocator.Some?
      reads this
    {
      DefaultRuns.Returned(Settled(), clock, calls)
    }

    // The seconds and sequences the calls have gone through.
    ghost function Stamps(): seq<Stamp>
      requires bitsAllocator.Some?
      reads this
    {
      RunCalls(Settled(), clock, calls).stamps
    }

    // Throws where nextId does.
    method GetUID() returns (r: Outcome)
      requires Ready()
      modifies this`sequence, this`lastSecond, this`clockPos, this`calls
      ensures Ready() && calls == old(calls) + 1
      ensures (CallState(), r) == DefaultModel.NextId(Settled(), clock, old(CallState()))
      // The UID is that of the last reading used, this worker and the sequence reached.
      ensures Returned() == old(Returned()) + if r.Issued? then [r.uid] else []
      ensures r.Issued? ==>
        var a := bitsAllocator.value;
        && a.DeltaSpan() > 0 && LastRead(clock, clockPos, lastSecond)
        && a.DecodeDeltaSeconds(r.uid) == (lastSecond - epochSeconds) % a.DeltaSpan()
        && a.DecodeWorkerId(r.uid) == workerId && a.DecodeSequence(r.uid) == sequence
      ensures r.ClockMovedBackwards? ==>
        r.refusedSeconds > 0 && ToSeconds(clock[old(clockPos)]) + r.refusedSeconds == lastSecond == old(lastSecond)
      // Order and repetition of everything returned so far
      ensures DefaultRuns.WithinSpan(Settled(), Stamps()) ==>
        (Increasing(Returned()) <==> NeverReplays(Settled(), clock, calls))
      ensures DefaultRuns.WithinOneSpan(Settled(), Stamps()) ==>
        (NoDuplicates(Returned()) <==> NeverReplays(Settled(), clock, calls))
    {
      hide RunCalls, NeverReplays, Increasing, NoDuplicates, DefaultRuns.Returned, Pow2;
      hide DefaultRuns.WithinSpan, DefaultRuns.WithinOneSpan, ToSeconds, And;
      ghost var cfg, k, st := Settled(), calls, CallState();
      CallsOfRuns(cfg, clock, k, st);
      r := NextId();
    }

    // The decoding half of parseUID, for any number: the fields encode back to its low 64 bits.
    method ParseFields(uid: int)
      returns (deltaSeconds: int, parsedWorkerId: int, parsedSequence: int, millis: int)
      requires bitsAllocator.Some? && bitsAllocator.value.Legal()
      ensures 0 <= deltaSeconds < bitsAllocator.value.DeltaSpan()
      ensures bitsAllocator.value.InRange(parsedWorkerId, parsedSequence)
      ensures bitsAllocator.value.Allocate(deltaSeconds, parsedWorkerId, parsedSequence) == ToLong(uid)
      ensures IsTime(1000 * (epochSeconds + deltaSeconds)) ==> millis == 1000 * (epochSeconds + deltaSeconds)
    {
      hide BitOr, Pow2;
      var a := bitsAllocator.value;
      AllocateDecode(a, uid);
      DecodeShifts(a, uid);
      parsedSequence := UnsignedShiftRight(ShiftLeft(uid, 64 - a.sequenceBits), 64 - a.sequenceBits);
      parsedWorkerId := UnsignedShiftRight(ShiftLeft(uid, a.timestampBits + 1), 64 - a.workerIdBits);
      deltaSeconds := UnsignedShiftRight(uid, a.workerIdBits + a.sequenceBits);
      if IsTime(1000 * (epochSeconds + deltaSeconds)) {
        MillisOfSecond(epochSeconds + deltaSeconds);
      }
      millis := ToMillis(epochSeconds + deltaSeconds);
    }
  }

  // The generator once afterPropertiesSet has initialized it.
  class CachedUidGenerator {
    const cfg: Config
    const ringBuffer: RingBuffer
    const bufferPaddingExecutor: BufferPaddingExecutor

    // The second of the executor's construction, the batches that fill the ring, and the operations since
    ghost const start: int
    ghost const fill: nat
    ghost var history: seq<Op>

    ghost predicate Wired()
      reads ringBuffer, ringBuffer.slots, ringBuffer.flags, bufferPaddingExecutor, bufferPaddingExecutor.pool
    {
      && ringBuffer.bufferPaddingExecutor == bufferPaddingExecutor
      && ringBuffer.Valid() && ringBuffer.Linked()
      && cfg.Valid() && bufferPaddingExecutor.uidProvider == BatchProvider(cfg)
      && ringBuffer.bufferSize == (cfg.allocator.maxSequence + 1) * fill
    }

    // The state of ring and executor is that of the recorded run.
    ghost predicate Valid()
      reads this, ringBuffer, ringBuffer.slots, ringBuffer.flags, bufferPaddingExecutor, bufferPaddingExecutor.pool
    {
      && Wired()
      && IsRun(ringBuffer.Settings(), ringBuffer.bufferSize, start, history, ringBuffer.CacheModel())
    }

    // The numbers the closed form of a run depends on.
    ghost function RunShape(): Shape
      requires ringBuffer.bufferSize > 0 && cfg.allocator.maxSequence >= 0
    {
      Shape(ringBuffer.bufferSize, ringBuffer.paddingThreshold, cfg.allocator.maxSequence + 1, fill)
    }

    // A ring of this size with the configured take handler: None where the ring buffer's constructor refuses.
    static method ConfiguredRing(seqBits: nat, boostPower: int, paddingFactor: real, takeHandler: Option<TakeHandler>)
      returns (r: Option<RingBuffer>)
      ensures r.Some? <==> seqBits + boostPower % 32 <= 30 && 0.0 < paddingFactor < 100.0
      ensures r.Some? ==>
        && fresh(r.value) && fresh(r.value.slots) && fresh(r.value.flags)
        && r.value.Valid() && r.value.Model() == EmptyRing(r.value.bufferSize)
        && r.value.bufferSize == Pow2(seqBits) * Pow2(boostPower % 32)
        && r.value.paddingFactor == paddingFactor
        && 100.0 * r.value.paddingThreshold as real <= r.value.bufferSize as real * paddingFactor
           < 100.0 * (r.value.paddingThreshold + 1) as real
        && r.value.rejectedTakeHandler == (if takeHandler.Some? then takeHandler.value else TakeHandler([], true))
    {
      hide Pow2, RingBuffer.Valid, IsPowerOfTwo;
      var bufferSize := ShiftLeftInt32(Pow2(seqBits), boostPower);
      BufferSizes(seqBits, boostPower);
      var construction := RingBuffer.Create(bufferSize, paddingFactor);
      if construction.Refused? {
        return None;
      }
      var ring := construction.ring;
      if takeHandler.Some? {
        ring.SetRejectedTakeHandler(takeHandler.value);
      }
      return Some(ring);
    }

    // initRingBuffer: None where the ring buffer's constructor refuses the size or the padding factor.
    static method InitRingBuffer(cfg: Config, boostPower: int, paddingFactor: real, takeHandler: Option<TakeHandler>,
                                 nowMillis: int, cores: nat)
      returns (r: Option<CachedUidGenerator>)
      requires cfg.Valid() && cores > 0
      ensures r.Some? <==> cfg.allocator.sequenceBits + boostPower % 32 <= 30 && 0.0 < paddingFactor < 100.0
      ensures r.Some? ==>
        && fresh(r.value) && fresh(r.value.ringBuffer) && fresh(r.value.ringBuffer.slots)
        && fresh(r.value.ringBuffer.flags) && fresh(r.value.bufferPaddingExecutor)
        && fresh(r.value.bufferPaddingExecutor.pool) && r.value.Valid() && r.value.cfg == cfg && r.value.history == []
        && r.value.start == ToSeconds(nowMillis) && r.value.fill == Pow2(boostPower % 32)
        && r.value.ringBuffer.rejectedTakeHandler
           == (if takeHandler.Some? then takeHandler.value else TakeHandler([], true))
        && r.value.ringBuffer.paddingFactor == paddingFactor
      // The second the clock shows, and the share of the ring below which padding starts
      ensures r.Some? && 0 <= nowMillis <= MAX_TIME ==> 1000 * r.value.start <= nowMillis < 1000 * r.value.start + 1000
      ensures r.Some? ==>
        var ring := r.value.ringBuffer;
        && ring.bufferSize == Pow2(cfg.allocator.sequenceBits) * Pow2(boostPower % 32)
        && 100.0 * ring.paddingThreshold as real <= ring.bufferSize as real * paddingFactor
           < 100.0 * (ring.paddingThreshold + 1) as real
    {
      hide Pow2, RunOps, Started, Batch, BatchProvider, RingBuffer.Valid, ToSeconds, IsRun;
      var ring := ConfiguredRing(cfg.allocator.sequenceBits, boostPower, paddingFactor, takeHandler);
      if ring == None {
        return None;
      }
      StartSecond(nowMillis);
      var generator := new CachedUidGenerator(cfg, ring.value, Pow2(boostPower % 32), ToSeconds(nowMillis), cores);
      return Some(generator);
    }

    // Attach an executor over the batches of this generator and fill all slots of the new ring.
    constructor (cfg: Config, ring: RingBuffer, ghost fill: nat, now: int, cores: nat)
      requires cfg.Valid() && cores > 0
      requires ring.Valid() && ring.Model() == EmptyRing(ring.bufferSize)
      requires ring.bufferSize == (cfg.allocator.maxSequence + 1) * fill
      modifies ring`bufferPaddingExecutor, ring`tail, ring`log, ring`live, ring.slots, ring.flags
      ensures Valid() && this.cfg == cfg && ringBuffer == ring && this.fill == fill
      ensures history == [] && start == now
      ensures fresh(bufferPaddingExecutor) && fresh(bufferPaddingExecutor.pool)
    {
      hide Pad, RunOps, BatchProvider, Pow2;
      this.cfg, ringBuffer, this.fill := cfg, ring, fill;
      bufferPaddingExecutor := new BufferPaddingExecutor(ring, BatchProvider(cfg), now, cores);
      start, history := now, [];
      new;
      ring.SetBufferPaddingExecutor(bufferPaddingExecutor);
      BatchesUniform(ring.Settings(), cfg);
      bufferPaddingExecutor.PaddingBuffer();
      RunStarts(ring.Settings(), ring.bufferSize, now);
    }

    // All UIDs of one second: one allocation, then offsets.
    method NextIdsForOneSecond(currentSecond: int) returns (uids: seq<int>)
      requires cfg.Valid()
      ensures uids == Batch(cfg, currentSecond)
    {
      WordSplit(cfg.allocator);
      var listSize := cfg.allocator.maxSequence + 1;
      var uidList := new int[listSize];
      var firstSeqUid := cfg.allocator.Allocate(Subtract(currentSecond, cfg.epochSeconds), cfg.workerId, 0);
      var offset := 0;
      while offset < listSize
        invariant 0 <= offset <= listSize
        invariant forall i :: 0 <= i < offset ==> uidList[i] == cfg.Uid(currentSecond, i)
      {
        BatchElement(cfg, currentSecond, offset);
        uidList[offset] := Add(firstSeqUid, offset);
        offset := offset + 1;
      }
      return uidList[..];
    }

    // What the calls have returned so far, in order.
    ghost function Returned(): seq<int>
      requires ringBuffer.Model().Valid()
      reads ringBuffer
    {
      IssuedUids(ringBuffer.Model())
    }

    // Only padding fills the ring: the take handler offers nothing, or is never called.
    ghost predicate OwnUidsOnly()
      reads this, ringBuffer
    {
      ringBuffer.rejectedTakeHandler.uids == [] || (CacheRuns.NoShutdown(history) && ringBuffer.paddingThreshold >= 1)
    }

    // The ring's take, recorded.
    method TakeRecorded() returns (r: TakeResult)
      requires Valid()
      modifies this`history, ringBuffer, ringBuffer.slots, ringBuffer.flags
      modifies bufferPaddingExecutor, bufferPaddingExecutor.pool
      ensures Valid() && history == old(history) + [TakeOp]
      ensures ringBuffer.Settings() == old(ringBuffer.Settings())
      ensures (ringBuffer.CacheModel(), r) == TakeStep(old(ringBuffer.Settings()), old(ringBuffer.CacheModel()))
    {
      hide RunOps, Started, TakeStep, Extends;
      ghost var s, c := ringBuffer.Settings(), ringBuffer.CacheModel();
      RunContinues(s, ringBuffer.bufferSize, start, history, c, TakeOp);
      r := ringBuffer.Take();
      history := history + [TakeOp];
    }

    // Throws as the ring's take does; only the outcome matters here.
    method GetUID() returns (r: TakeResult)
      requires Valid()
      modifies this`history, ringBuffer, ringBuffer.slots, ringBuffer.flags
      modifies bufferPaddingExecutor, bufferPaddingExecutor.pool
      ensures Valid() && history == old(history) + [TakeOp]
      ensures r == TakeOutcome(old(ringBuffer.Settings()), old(ringBuffer.CacheModel()))
      ensures Returned() == old(Returned()) + if r.Uid? then [r.uid] else []
      ensures OwnUidsOnly() && SpanHolds(cfg, start, bufferPaddingExecutor.lastSecond) ==> Increasing(Returned())
      ensures OwnUidsOnly() && bufferPaddingExecutor.lastSecond - start <= cfg.allocator.DeltaSpan() ==>
        NoDuplicates(Returned())
      // Seconds are borrowed exactly when what is left, and one more, does not exceed the configured share of the ring.
      ensures bufferPaddingExecutor.lastSecond > old(bufferPaddingExecutor.lastSecond) <==>
        && !old(bufferPaddingExecutor.pool.shutdown)
        && 100.0 * (old(ringBuffer.tail) - ringBuffer.cursor + 1) as real
           <= ringBuffer.bufferSize as real * ringBuffer.paddingFactor
      ensures CacheRuns.NoShutdown(old(history)) && ringBuffer.paddingThreshold >= 1 ==> r.Uid?
      ensures old(history) == CacheRuns.Takes(|old(history)|) && RunShape().Valid() ==>
        var m := |old(history)|; r == Uid(cfg.Uid(RunShape().SecondOf(start, m), RunShape().OffsetOf(m)))
    {
      hide RunOps, Started, TakeStep, Extends, IssuedUids, SpanHolds, Increasing, NoDuplicates;
      ghost var s, c := ringBuffer.Settings(), ringBuffer.CacheModel();
      TakeResultsOfRuns(s, cfg, RunShape(), start, history, c);
      ReturnedGrows(s, c);
      BorrowsBelowShare(s, ringBuffer.bufferSize, start, history, c,
                        ringBuffer.bufferSize as real * ringBuffer.paddingFactor);
      r := TakeRecorded();
      OrderOfRuns(s, cfg, ringBuffer.bufferSize, start, history, ringBuffer.CacheModel());
    }

    // A scheduled or direct padding pass between calls.
    method PaddingBuffer()
      requires Valid()
      modifies this`history, ringBuffer, ringBuffer.slots, ringBuffer.flags
      modifies bufferPaddingExecutor, bufferPaddingExecutor.pool
      ensures Valid() && history == old(history) + [PaddingOp]
    {
      ghost var s, c := ringBuffer.Settings(), ringBuffer.CacheModel();
      RunContinues(s, ringBuffer.bufferSize, start, history, c, PaddingOp);
      bufferPaddingExecutor.PaddingBuffer();
      history := history + [PaddingOp];
    }

    method Destroy()
      requires Valid()
      modifies this`history, bufferPaddingExecutor.pool
      ensures Valid() && history == old(history) + [ShutdownOp]
      ensures bufferPaddingExecutor.pool.shutdown && ringBuffer.Model() == old(ringBuffer.Model())
    {
      ghost var s, c := ringBuffer.Settings(), ringBuffer.CacheModel();
      RunContinues(s, ringBuffer.bufferSize, start, history, c, ShutdownOp);
      bufferPaddingExecutor.Shutdown();
      history := history + [ShutdownOp];
    }
  }

  // What the run theorems say about the next call of the default generator.
  lemma CallsOfRuns(cfg: Config, clock: seq<int>, k: nat, st: State)
    requires cfg.Valid() && IsAfter(cfg, clock, k, st)
    ensures var (st', r) := DefaultModel.NextId(cfg, clock, st); var a := cfg.allocator;
            && IsAfter(cfg, clock, k + 1, st')
            && DefaultRuns.Returned(cfg, clock, k + 1)
               == DefaultRuns.Returned(cfg, clock, k) + (if r.Issued? then [r.uid] else [])
            && (r.Issued? ==>
                 && a.DeltaSpan() > 0 && LastRead(clock, st'.pos, st'.lastSecond)
                 && a.DecodeDeltaSeconds(r.uid) == (st'.lastSecond - cfg.epochSeconds) % a.DeltaSpan()
                 && a.DecodeWorkerId(r.uid) == cfg.workerId && a.DecodeSequence(r.uid) == st'.sequence)
            && (r.ClockMovedBackwards? ==>
                 st.pos < |clock| && r.refusedSeconds > 0 && st'.lastSecond == st.lastSecond
                 && ToSeconds(clock[st.pos]) + r.refusedSeconds == st.lastSecond)
    ensures var stamps := RunCalls(cfg, clock, k + 1).stamps; var returned := DefaultRuns.Returned(cfg, clock, k + 1);
            && (DefaultRuns.WithinSpan(cfg, stamps) ==> (Increasing(returned) <==> NeverReplays(cfg, clock, k + 1)))
            && (DefaultRuns.WithinOneSpan(cfg, stamps) ==>
                 (NoDuplicates(returned) <==> NeverReplays(cfg, clock, k + 1)))
  {
    hide RunCalls, NeverReplays, Increasing, NoDuplicates, DefaultRuns.Returned, Pow2, ToSeconds, And;
    hide DefaultRuns.WithinSpan, DefaultRuns.WithinOneSpan, DefaultRuns.Carried, Config.Uid;
    AfterNextId(cfg, clock, k, st);
    DefaultRuns.CallReturns(cfg, clock, k);
    BackwardsCall(cfg, clock, k, st);
    DefaultRuns.UidsIncrease(cfg, clock, k + 1);
    DefaultRuns.DistinctUnlessReplayed(cfg, clock, k + 1);
  }

  lemma BackwardsCall(cfg: Config, clock: seq<int>, k: nat, st: State)
    requires cfg.Valid() && IsAfter(cfg, clock, k, st)
    ensures var (st', r) := DefaultModel.NextId(cfg, clock, st);
            r.ClockMovedBackwards? ==>
              st.pos < |clock| && r.refusedSeconds > 0 && st'.lastSecond == st.lastSecond
              && ToSeconds(clock[st.pos]) + r.refusedSeconds == st.lastSecond
  {
    hide RunCalls, ToSeconds, And, Config.Uid, Pow2;
    RunInv(cfg, clock, k);
    if st.pos < |clock| {
      ReadingDecides(cfg, clock, st);
    }
  }

  // The ring's size in ints: 2^(seqBits + boostPower), or refused.
  lemma BufferSizes(seqBits: nat, boostPower: int)
    ensures var size := ShiftLeftInt32(Pow2(seqBits), boostPower);
            if seqBits + boostPower % 32 <= 30
            then size == Pow2(seqBits) * Pow2(boostPower % 32) && 0 < size < TWO_32 && IsPowerOfTwo(size)
            else size <= 0
  {
    ShiftedPowerOfTwo(seqBits, boostPower);
    if seqBits + boostPower % 32 <= 30 {
      PowerPasses(seqBits, boostPower % 32);
    }
  }

  lemma PowerPasses(s: nat, b: nat)
    requires s + b <= 30
    ensures Pow2(s + b) == Pow2(s) * Pow2(b)
    ensures 0 < Pow2(s + b) < TWO_32 && IsPowerOfTwo(Pow2(s + b))
  {
    Pow2Add(s, b);
    Int32Bounds(s + b);
  }

  lemma StartSecond(millis: int)
    ensures 0 <= millis <= MAX_TIME ==> 1000 * ToSeconds(millis) <= millis < 1000 * ToSeconds(millis) + 1000
  {
    if 0 <= millis <= MAX_TIME {
      SecondOfReading(millis);
    }
  }

  // What the run theorems say about the next take.
  lemma TakeResultsOfRuns(s: PaddingModel.Settings, cfg: Config, shape: Shape, start: int, history: seq<Op>, c: Cache)
    requires Over(s, cfg) && s.attached && s.threshold == shape.threshold
    requires IsRun(s, shape.size, start, history, c)
    requires 0 <= shape.threshold < shape.size
    requires shape.batch == cfg.allocator.maxSequence + 1 && shape.size == shape.batch * shape.fill
    ensures CacheRuns.NoShutdown(history) && s.threshold >= 1 ==> TakeOutcome(s, c).Uid?
    ensures history == CacheRuns.Takes(|history|) && shape.Valid() ==>
      TakeOutcome(s, c) == Uid(cfg.Uid(shape.SecondOf(start, |history|), shape.OffsetOf(|history|)))
  {
    BatchesUniform(s, cfg);
    if CacheRuns.NoShutdown(history) && s.threshold >= 1 {
      CacheRuns.NoStarvation(s, shape.size, start, history);
    }
    if history == CacheRuns.Takes(|history|) && shape.Valid() {
      CachedClosedForm(s, cfg, shape, start, |history|);
    }
  }

  // When the next take borrows seconds.
  lemma BorrowsBelowShare(s: PaddingModel.Settings, size: int, start: int, history: seq<Op>, c: Cache, share: real)
    requires IsRun(s, size, start, history, c) && s.attached
    requires 100.0 * s.threshold as real <= share < 100.0 * (s.threshold + 1) as real
    ensures Take(s, c).lastSecond > c.lastSecond <==>
            !c.shutdown && 100.0 * (c.ring.Tail() - Take(s, c).ring.cursor + 1) as real <= share
  {
    hide Take, RunOps, Started;
    CacheRuns.StartedHealthy(s, size, start);
    CacheRuns.RunHealthy(s, Started(s, size, start), history);
    TakeBorrows(s, c);
    TakeCursor(s, c);
    BelowShare(s.threshold, share, c.ring.Tail() - Take(s, c).ring.cursor);
  }

  // What the run theorems say about everything returned so far.
  lemma OrderOfRuns(s: PaddingModel.Settings, cfg: Config, size: nat, start: int, history: seq<Op>, c: Cache)
    requires Over(s, cfg) && s.attached && s.threshold < size
    requires IsRun(s, size, start, history, c)
    ensures s.handler.uids == [] || (CacheRuns.NoShutdown(history) && s.threshold >= 1) ==>
      && (SpanHolds(cfg, start, c.lastSecond) ==> Increasing(IssuedUids(c.ring)))
      && (c.lastSecond - start <= cfg.allocator.DeltaSpan() ==> NoDuplicates(IssuedUids(c.ring)))
  {
    hide RunOps, Started, IssuedUids, SpanHolds, Increasing, NoDuplicates;
    if s.handler.uids == [] || (CacheRuns.NoShutdown(history) && s.threshold >= 1) {
      StaysUndiluted(s, size, start, history);
      ReturnedUidsOrder(s, cfg, size, start, history);
    }
  }
}
