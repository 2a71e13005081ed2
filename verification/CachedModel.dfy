/**
 The cached generator on values: the batch of a second, and what whole runs of the cache hand
 out when the batches come from the allocator (src/impl/cached-uid-generator.ts).
 */
module CachedModel {
  import opened JavaLong
  import opened BitsAllocation
  import opened Wrappers
  import opened DefaultModel
  import opened RingModel
  import opened PaddingModel
  import opened CacheRuns
  import opened ClosedForm
  import opened Sequences
  import DefaultRuns

  // The UIDs of one second, each allocated on its own.
  function Batch(cfg: Config, second: int): seq<int> {
    if cfg.allocator.maxSequence < 0 then []
    else seq(cfg.allocator.maxSequence + 1, i => cfg.Uid(second, i))
  }

  function BatchProvider(cfg: Config): Provider {
    (second: int) => Batch(cfg, second)
  }

  // The settings of a cache over this configuration.
  ghost predicate Over(s: Settings, cfg: Config) {
    && cfg.Valid()
    && s.provider == BatchProvider(cfg)
  }

  lemma BatchesUniform(s: Settings, cfg: Config)
    requires Over(s, cfg)
    ensures UniformBatches(s.provider, cfg.allocator.maxSequence + 1) && Fruitful(s.provider)
    ensures cfg.allocator.maxSequence >= 1
  {
    WordSplit(cfg.allocator);
    forall second ensures |s.provider(second)| == cfg.allocator.maxSequence + 1 {
      assert s.provider(second) == Batch(cfg, second);
    }
  }

  // The loop's form of a batch element: the first UID plus the offset.
  lemma BatchElement(cfg: Config, second: int, offset: int)
    requires cfg.Valid() && 0 <= offset <= cfg.allocator.maxSequence
    ensures Add(cfg.Uid(second, 0), offset) == cfg.Uid(second, offset)
    ensures cfg.Uid(second, offset) == cfg.Uid(second, 0) + offset
  {
    AllocateOffset(cfg.allocator, Subtract(second, cfg.epochSeconds), cfg.workerId, offset);
  }

  // n calls in a row that all read a new second, after k earlier calls.
  ghost predicate StaysIn(cfg: Config, clock: seq<int>, k: nat, second: int, n: nat) {
    var st := RunCalls(cfg, clock, k).state;
    && st.lastSecond < second && st.pos + n <= |clock|
    && forall i :: st.pos <= i < st.pos + n ==> CurrentSecond(cfg, clock[i]) == Some(second)
  }

  lemma {:induction false} FullSecondStamps(cfg: Config, clock: seq<int>, k: nat, second: int, n: nat)
    requires cfg.Valid() && 1 <= n <= cfg.allocator.maxSequence + 1 && StaysIn(cfg, clock, k, second, n)
    ensures var h := RunCalls(cfg, clock, k);
            RunCalls(cfg, clock, k + n)
            == History(State(second, n - 1, h.state.pos + n), h.stamps + seq(n, i => Stamp(second, i)))
    decreases n
  {
    hide Call, NextId, CurrentSecond, Pow2;
    var h := RunCalls(cfg, clock, k);
    var before := RunCalls(cfg, clock, k + n - 1);
    assert RunCalls(cfg, clock, k + n) == Call(cfg, clock, before);
    if n == 1 {
      var h' := FirstOfSecond(cfg, clock, h, second);
      assert h'.stamps == h.stamps + seq(1, i => Stamp(second, i));
    } else {
      FullSecondStamps(cfg, clock, k, second, n - 1);
      var h' := NextOfSecond(cfg, clock, before, second);
      assert seq(n, i => Stamp(second, i)) == seq(n - 1, i => Stamp(second, i)) + [Stamp(second, n - 1)];
      assert h'.stamps == h.stamps + seq(n, i => Stamp(second, i));
    }
  }

  /**
   A full second of the default generator: with one reading of that second per sequence, after any earlier run, it
   issues exactly the batch the cached generator borrows for that second.
   */
  lemma FullSecondIsBatch(cfg: Config, clock: seq<int>, k: nat, second: int)
    requires cfg.Valid() && StaysIn(cfg, clock, k, second, cfg.allocator.maxSequence + 1)
    ensures DefaultRuns.Returned(cfg, clock, k + cfg.allocator.maxSequence + 1)
            == DefaultRuns.Returned(cfg, clock, k) + Batch(cfg, second)
  {
    hide Call, NextId, CurrentSecond, Pow2, StaysIn, RunCalls, DefaultRuns.Returned, Config.Uid;
    var n := cfg.allocator.maxSequence + 1;
    WordSplit(cfg.allocator);
    FullSecondStamps(cfg, clock, k, second, n);
    var before, after := RunCalls(cfg, clock, k).stamps, RunCalls(cfg, clock, k + n).stamps;
    assert after == before + seq(n, i => Stamp(second, i));
    DefaultRuns.ReturnedAreUids(cfg, clock, k);
    DefaultRuns.ReturnedAreUids(cfg, clock, k + n);
    assert DefaultRuns.Uids(cfg, after) == DefaultRuns.Uids(cfg, before) + Batch(cfg, second);
  }

  lemma FirstOfSecond(cfg: Config, clock: seq<int>, h: History, second: int) returns (h': History)
    requires h.state.pos < |clock| && CurrentSecond(cfg, clock[h.state.pos]) == Some(second)
    requires h.state.lastSecond < second
    ensures h' == Call(cfg, clock, h)
    ensures h' == History(State(second, 0, h.state.pos + 1), h.stamps + [Stamp(second, 0)])
  {
    h' := Call(cfg, clock, h);
  }

  lemma NextOfSecond(cfg: Config, clock: seq<int>, h: History, second: int) returns (h': History)
    requires cfg.Valid()
    requires h.state.pos < |clock| && CurrentSecond(cfg, clock[h.state.pos]) == Some(second)
    requires h.state.lastSecond == second && 0 <= h.state.sequence < cfg.allocator.maxSequence
    ensures h' == Call(cfg, clock, h)
    ensures var next := h.state.sequence + 1;
            h' == History(State(second, next, h.state.pos + 1), h.stamps + [Stamp(second, next)])
  {
    NextSequence(cfg.allocator, h.state.sequence);
    h' := Call(cfg, clock, h);
  }

  // ----- runs of the cache -----

  // What the calls have returned, in order.
  ghost function IssuedUids(r: Ring): seq<int>
    requires r.Valid()
  {
    seq(|r.issued|, i requires 0 <= i < |r.issued| => (assert r.issued[i] in r.issued; r.log[r.issued[i]]))
  }

  /** A take appends the UID it returns to what has been returned, and nothing else changes there. */
  lemma ReturnedGrows(s: Settings, c: Cache)
    requires c.ring.Valid() && Fruitful(s.provider)
    ensures Take(s, c).ring.Valid()
    ensures IssuedUids(Take(s, c).ring)
            == IssuedUids(c.ring) + if TakeOutcome(s, c).Uid? then [TakeOutcome(s, c).uid] else []
  {
    hide Prepared, IssuedUids;
    PreparedValid(s, c);
    TakeValid(s, c);
    var prepared := Prepared(s, c);
    IssuedExtends(c.ring, prepared.ring);
    if TakeOutcome(s, c).Uid? {
      ReadGrows(s, c, prepared);
    }
  }

  lemma ReadGrows(s: Settings, c: Cache, prepared: Cache)
    requires c.ring.Valid() && Fruitful(s.provider) && prepared == Prepared(s, c) && TakeOutcome(s, c).Uid?
    ensures prepared.ring.Valid() && Take(s, c).ring.Valid()
    ensures IssuedUids(Take(s, c).ring) == IssuedUids(prepared.ring) + [TakeOutcome(s, c).uid]
  {
    hide Refilled, Handled;
    FinishValid(prepared.ring, prepared.ring.cursor);
    FinishGrows(prepared.ring, prepared.ring.cursor);
  }

  lemma IssuedExtends(r: Ring, r': Ring)
    requires r.Valid() && r'.Valid() && Extends(r.Claim(), r')
    ensures IssuedUids(r') == IssuedUids(r)
  {
    forall i | 0 <= i < |r.issued| ensures IssuedUids(r')[i] == IssuedUids(r)[i] {
      assert r.issued[i] in r.issued;
    }
  }

  lemma FinishGrows(r: Ring, q: int)
    requires r.Valid() && r.CanFinish(q) && 0 <= r.Occupant(q) < |r.log| && r.Finish(q).Valid()
    ensures IssuedUids(r.Finish(q)) == IssuedUids(r) + [r.log[r.Occupant(q)]]
  {
  }

  // Position g of the stream is sequence g % batch of second start + 1 + g / batch.
  lemma StreamIsUid(s: Settings, cfg: Config, start: int, g: nat)
    requires Over(s, cfg)
    ensures UniformBatches(s.provider, cfg.allocator.maxSequence + 1)
    ensures var batch := cfg.allocator.maxSequence + 1;
            && 0 <= g % batch < batch
            && StreamAt(s.provider, batch, start, g) == cfg.Uid(start + 1 + g / batch, g % batch)
            && StreamAt(s.provider, batch, start, g)
               == cfg.allocator.Allocate(start + 1 + g / batch - cfg.epochSeconds, cfg.workerId, g % batch)
  {
    hide Pow2, ShiftLeft, Or, ToLong, Config.Uid;
    BatchesUniform(s, cfg);
    var batch := cfg.allocator.maxSequence + 1;
    assert s.provider(start + 1 + g / batch) == Batch(cfg, start + 1 + g / batch);
    UidIsAllocate(cfg, start + 1 + g / batch, g % batch);
  }

  // Later positions carry later (second, sequence) pairs.
  lemma StreamRises(batch: nat, g: nat, g': nat)
    requires batch > 0 && g < g'
    ensures Before(g / batch, g % batch, g' / batch, g' % batch)
  {
    if g / batch > g' / batch {
      MulMonotone(g' / batch + 1, g / batch, batch);
      Distribute(g' / batch, 1, 1, batch);
    }
  }

  lemma StreamSecondBound(batch: nat, seconds: int, g: nat)
    requires batch > 0 && g < batch * seconds
    ensures 0 <= g / batch < seconds
  {
    QuotientBound(g, seconds, batch);
  }

  ghost predicate SpanHolds(cfg: Config, start: int, last: int) {
    cfg.allocator.FitsDelta(start + 1 - cfg.epochSeconds) && cfg.allocator.FitsDelta(last - cfg.epochSeconds)
  }

  // Two positions of the stream below `last`, as fields.
  lemma StreamPair(s: Settings, cfg: Config, start: int, last: int, g: nat, g': nat)
    requires Over(s, cfg) && g < g' < (cfg.allocator.maxSequence + 1) * (last - start)
    ensures UniformBatches(s.provider, cfg.allocator.maxSequence + 1)
    ensures var batch := cfg.allocator.maxSequence + 1; var d, d' := g / batch, g' / batch;
            && 0 <= d <= d' < last - start
            && 0 <= g % batch < batch && 0 <= g' % batch < batch
            && Before(d, g % batch, d', g' % batch)
            && StreamAt(s.provider, batch, start, g)
               == cfg.allocator.Allocate(start + 1 + d - cfg.epochSeconds, cfg.workerId, g % batch)
            && StreamAt(s.provider, batch, start, g')
               == cfg.allocator.Allocate(start + 1 + d' - cfg.epochSeconds, cfg.workerId, g' % batch)
  {
    var batch := cfg.allocator.maxSequence + 1;
    StreamIsUid(s, cfg, start, g);
    StreamIsUid(s, cfg, start, g');
    StreamRises(batch, g, g');
    StreamSecondBound(batch, last - start, g);
    StreamSecondBound(batch, last - start, g');
  }

  lemma DeltasOrdered(cfg: Config, start: int, last: int, d: int, q: int, d': int, q': int)
    requires cfg.Valid() && SpanHolds(cfg, start, last) && 0 <= d <= d' < last - start
    requires 0 <= q <= cfg.allocator.maxSequence && 0 <= q' <= cfg.allocator.maxSequence && Before(d, q, d', q')
    ensures cfg.allocator.Allocate(start + 1 + d - cfg.epochSeconds, cfg.workerId, q)
            < cfg.allocator.Allocate(start + 1 + d' - cfg.epochSeconds, cfg.workerId, q')
  {
    hide Pow2, ShiftLeft, Or, ToLong;
    AllocateOrder(cfg.allocator, cfg.workerId, start + 1 + d - cfg.epochSeconds, q,
                  start + 1 + d' - cfg.epochSeconds, q');
  }

  lemma StreamIncreases(s: Settings, cfg: Config, start: int, last: int, g: nat, g': nat)
    requires Over(s, cfg) && g < g' < (cfg.allocator.maxSequence + 1) * (last - start)
    requires UniformBatches(s.provider, cfg.allocator.maxSequence + 1) && SpanHolds(cfg, start, last)
    ensures StreamAt(s.provider, cfg.allocator.maxSequence + 1, start, g)
            < StreamAt(s.provider, cfg.allocator.maxSequence + 1, start, g')
  {
    hide StreamAt, Batch, BatchProvider, Pow2, BitsAllocator.Allocate, SpanHolds;
    var batch := cfg.allocator.maxSequence + 1;
    StreamPair(s, cfg, start, last, g, g');
    DeltasOrdered(cfg, start, last, g / batch, g % batch, g' / batch, g' % batch);
  }

  lemma StreamDistinct(s: Settings, cfg: Config, start: int, last: int, g: nat, g': nat)
    requires Over(s, cfg) && g < g' < (cfg.allocator.maxSequence + 1) * (last - start)
    requires UniformBatches(s.provider, cfg.allocator.maxSequence + 1) && last - start <= cfg.allocator.DeltaSpan()
    ensures StreamAt(s.provider, cfg.allocator.maxSequence + 1, start, g)
            != StreamAt(s.provider, cfg.allocator.maxSequence + 1, start, g')
  {
    var batch := cfg.allocator.maxSequence + 1;
    StreamPair(s, cfg, start, last, g, g');
    var d, d' := start + 1 + g / batch - cfg.epochSeconds, start + 1 + g' / batch - cfg.epochSeconds;
    if cfg.allocator.Allocate(d, cfg.workerId, g % batch) == cfg.allocator.Allocate(d', cfg.workerId, g' % batch) {
      AllocateInjective(cfg.allocator, d, cfg.workerId, g % batch, d', cfg.workerId, g' % batch);
    }
  }

  // The log itself, from the accounting of its seconds.
  lemma LogOrder(s: Settings, cfg: Config, size: nat, start: int, ops: seq<Op>)
    requires Over(s, cfg) && size > 0 && Fruitful(s.provider)
    requires Undiluted(s, Started(s, size, start), ops)
    ensures var c := RunOps(s, Started(s, size, start), ops);
            && (SpanHolds(cfg, start, c.lastSecond) ==> Increasing(c.ring.log))
            && (c.lastSecond - start <= cfg.allocator.DeltaSpan() ==> NoDuplicates(c.ring.log))
  {
    hide StreamAt, RunOps, Started, BatchProvider, Pow2, Undiluted;
    BatchesUniform(s, cfg);
    var batch := cfg.allocator.maxSequence + 1;
    var c := RunOps(s, Started(s, size, start), ops);
    var positions := RunAccounted(s, batch, size, start, ops);
    var log := c.ring.log;
    forall i, j | 0 <= i < j < |log|
      ensures SpanHolds(cfg, start, c.lastSecond) ==> log[i] < log[j]
      ensures c.lastSecond - start <= cfg.allocator.DeltaSpan() ==> log[i] != log[j]
    {
      if SpanHolds(cfg, start, c.lastSecond) {
        StreamIncreases(s, cfg, start, c.lastSecond, positions[i], positions[j]);
      }
      if c.lastSecond - start <= cfg.allocator.DeltaSpan() {
        StreamDistinct(s, cfg, start, c.lastSecond, positions[i], positions[j]);
      }
    }
  }

  /**
   Any interleaving of takes, padding passes and a shutdown in which only padding puts: the returned UIDs are strictly
   increasing while every borrowed second fits the delta field and its sign, and pairwise distinct while the seconds
   borrowed span no more than the deltas the field and the sign bit can tell apart, even though the UIDs then turn
   negative.
   */
  lemma ReturnedUidsOrder(s: Settings, cfg: Config, size: nat, start: int, ops: seq<Op>)
    requires Over(s, cfg) && size > 0 && Fruitful(s.provider)
    requires Undiluted(s, Started(s, size, start), ops)
    ensures var c := RunOps(s, Started(s, size, start), ops);
            && (SpanHolds(cfg, start, c.lastSecond) ==> Increasing(IssuedUids(c.ring)))
            && (c.lastSecond - start <= cfg.allocator.DeltaSpan() ==> NoDuplicates(IssuedUids(c.ring)))
  {
    LogOrder(s, cfg, size, start, ops);
    IssuedInOrder(s, size, start, ops);
  }

  // The second a position of the stream belongs to.
  function SecondAt(batch: nat, start: int, g: nat): int
    requires batch > 0
  {
    start + 1 + g / batch
  }

  // One of the UIDs of that second.
  ghost predicate OfSecond(cfg: Config, uid: int, second: int) {
    exists sequence :: 0 <= sequence <= cfg.allocator.maxSequence && uid == cfg.Uid(second, sequence)
  }

  lemma StreamSecond(s: Settings, cfg: Config, start: int, last: int, g: nat)
    requires Over(s, cfg) && g < (cfg.allocator.maxSequence + 1) * (last - start)
    ensures UniformBatches(s.provider, cfg.allocator.maxSequence + 1)
    ensures var second := SecondAt(cfg.allocator.maxSequence + 1, start, g);
            && start < second <= last
            && OfSecond(cfg, StreamAt(s.provider, cfg.allocator.maxSequence + 1, start, g), second)
  {
    hide StreamAt, Batch, BatchProvider, Pow2, Config.Uid;
    StreamIsUid(s, cfg, start, g);
    StreamSecondBound(cfg.allocator.maxSequence + 1, last - start, g);
  }

  // The second of a UID decides its sign.
  lemma SecondSign(cfg: Config, uid: int, second: int)
    requires cfg.Valid() && OfSecond(cfg, uid, second)
    ensures cfg.allocator.DeltaSpan() > 0
    ensures uid >= 0 <==> (second - cfg.epochSeconds) % cfg.allocator.DeltaSpan() <= cfg.allocator.maxDeltaSeconds
    ensures 0 <= second - cfg.epochSeconds < cfg.allocator.DeltaSpan() ==>
            (uid >= 0 <==> second - cfg.epochSeconds <= cfg.allocator.maxDeltaSeconds)
  {
    hide Config.Uid;
    var sequence :| 0 <= sequence <= cfg.allocator.maxSequence && uid == cfg.Uid(second, sequence);
    DefaultRuns.UidSign(cfg, second, sequence);
    SpanMod(cfg.allocator, second - cfg.epochSeconds, 0);
  }

  lemma LogSeconds(s: Settings, cfg: Config, size: nat, start: int, ops: seq<Op>) returns (seconds: seq<int>)
    requires Over(s, cfg) && size > 0 && Fruitful(s.provider)
    requires Undiluted(s, Started(s, size, start), ops)
    ensures var c := RunOps(s, Started(s, size, start), ops);
            && |seconds| == |c.ring.log|
            && forall i :: 0 <= i < |seconds| ==>
                 start < seconds[i] <= c.lastSecond && OfSecond(cfg, c.ring.log[i], seconds[i])
  {
    hide StreamAt, RunOps, Started, BatchProvider, Pow2, Undiluted, SecondAt, OfSecond;
    BatchesUniform(s, cfg);
    var batch := cfg.allocator.maxSequence + 1;
    var c := RunOps(s, Started(s, size, start), ops);
    var positions := RunAccounted(s, batch, size, start, ops);
    seconds := seq(|c.ring.log|, i requires 0 <= i < |c.ring.log| => SecondAt(batch, start, positions[i]));
    forall i | 0 <= i < |seconds|
      ensures start < seconds[i] <= c.lastSecond && OfSecond(cfg, c.ring.log[i], seconds[i])
    {
      StreamSecond(s, cfg, start, c.lastSecond, positions[i]);
    }
  }

  /**
   The sign of every UID returned by a run of the cached generator, which has no check of its own, is decided by the
   borrowed second it belongs to. In a run that starts no earlier than the epoch and borrows less than one delta span,
   a UID is negative exactly when its second lies beyond the delta field.
   */
  lemma ReturnedUidsSigns(s: Settings, cfg: Config, size: nat, start: int, ops: seq<Op>) returns (seconds: seq<int>)
    requires Over(s, cfg) && size > 0 && Fruitful(s.provider)
    requires Undiluted(s, Started(s, size, start), ops)
    ensures var c := RunOps(s, Started(s, size, start), ops); var uids := IssuedUids(c.ring);
            && cfg.allocator.DeltaSpan() > 0 && |seconds| == |uids|
            && (forall i :: 0 <= i < |uids| ==>
                 && start < seconds[i] <= c.lastSecond && OfSecond(cfg, uids[i], seconds[i])
                 && (uids[i] >= 0
                     <==> (seconds[i] - cfg.epochSeconds) % cfg.allocator.DeltaSpan() <= cfg.allocator.maxDeltaSeconds))
            && (start + 1 >= cfg.epochSeconds && c.lastSecond - cfg.epochSeconds < cfg.allocator.DeltaSpan() ==>
                 forall i :: 0 <= i < |uids| ==>
                   (uids[i] >= 0 <==> seconds[i] - cfg.epochSeconds <= cfg.allocator.maxDeltaSeconds))
  {
    hide RunOps, Started, BatchProvider, Pow2, Undiluted, OfSecond;
    WordSplit(cfg.allocator);
    var ofLog := LogSeconds(s, cfg, size, start, ops);
    var c := RunOps(s, Started(s, size, start), ops);
    var uids := IssuedUids(c.ring);
    seconds := seq(|uids|, i requires 0 <= i < |uids| =>
      (assert c.ring.issued[i] in c.ring.issued; ofLog[c.ring.issued[i]]));
    forall i | 0 <= i < |uids|
      ensures start < seconds[i] <= c.lastSecond && OfSecond(cfg, uids[i], seconds[i])
      ensures uids[i] >= 0
              <==> (seconds[i] - cfg.epochSeconds) % cfg.allocator.DeltaSpan() <= cfg.allocator.maxDeltaSeconds
      ensures start + 1 >= cfg.epochSeconds && c.lastSecond - cfg.epochSeconds < cfg.allocator.DeltaSpan() ==>
        (uids[i] >= 0 <==> seconds[i] - cfg.epochSeconds <= cfg.allocator.maxDeltaSeconds)
    {
      assert c.ring.issued[i] in c.ring.issued;
      SecondSign(cfg, uids[i], seconds[i]);
    }
  }

  /** The sign bit is reached: a cache started in the last second of the delta field returns a negative UID at once. */
  lemma FirstUidNegative(s: Settings, cfg: Config, shape: Shape)
    requires Over(s, cfg) && Matches(s, shape) && shape.batch == cfg.allocator.maxSequence + 1
    ensures var start := cfg.epochSeconds + cfg.allocator.maxDeltaSeconds;
            var outcome := TakeOutcome(s, RunOps(s, Started(s, shape.size, start), []));
            outcome.Uid? && outcome.uid < 0
  {
    hide TakeOutcome, Started, Config.Uid;
    var start := cfg.epochSeconds + cfg.allocator.maxDeltaSeconds;
    CachedClosedForm(s, cfg, shape, start, 0);
    assert Takes(0) == [];
    FirstBatch(0, shape.batch);
    WordSplit(cfg.allocator);
    DefaultRuns.UidSign(cfg, start + 1, 0);
    SpanMod(cfg.allocator, cfg.allocator.maxDeltaSeconds + 1, 0);
  }

  lemma StreamCarriesWorker(s: Settings, cfg: Config, start: int, g: nat)
    requires Over(s, cfg) && UniformBatches(s.provider, cfg.allocator.maxSequence + 1)
    ensures cfg.allocator.DecodeWorkerId(StreamAt(s.provider, cfg.allocator.maxSequence + 1, start, g)) == cfg.workerId
  {
    hide StreamAt, Batch, BatchProvider, Pow2;
    var batch := cfg.allocator.maxSequence + 1;
    StreamIsUid(s, cfg, start, g);
    DecodeAllocate(cfg.allocator, start + 1 + g / batch - cfg.epochSeconds, cfg.workerId, g % batch);
  }

  lemma LogCarriesWorker(s: Settings, cfg: Config, size: nat, start: int, ops: seq<Op>, i: nat)
    requires Over(s, cfg) && size > 0 && Fruitful(s.provider)
    requires Undiluted(s, Started(s, size, start), ops)
    requires i < |RunOps(s, Started(s, size, start), ops).ring.log|
    ensures cfg.allocator.DecodeWorkerId(RunOps(s, Started(s, size, start), ops).ring.log[i]) == cfg.workerId
  {
    hide StreamAt, RunOps, Started, BatchProvider, Pow2, Undiluted;
    BatchesUniform(s, cfg);
    var positions := RunAccounted(s, cfg.allocator.maxSequence + 1, size, start, ops);
    StreamCarriesWorker(s, cfg, start, positions[i]);
  }

  /** Every UID returned by such a run carries this node's worker id. */
  lemma ReturnedUidsCarryWorker(s: Settings, cfg: Config, size: nat, start: int, ops: seq<Op>, i: nat)
    requires Over(s, cfg) && size > 0 && Fruitful(s.provider)
    requires Undiluted(s, Started(s, size, start), ops)
    requires i < |IssuedUids(RunOps(s, Started(s, size, start), ops).ring)|
    ensures cfg.allocator.DecodeWorkerId(IssuedUids(RunOps(s, Started(s, size, start), ops).ring)[i]) == cfg.workerId
  {
    var r := RunOps(s, Started(s, size, start), ops).ring;
    assert r.issued[i] in r.issued;
    LogCarriesWorker(s, cfg, size, start, ops, r.issued[i]);
  }

  /** The closed form of a takes-only run of the cached generator. */
  lemma CachedClosedForm(s: Settings, cfg: Config, shape: Shape, start: int, m: nat)
    requires Over(s, cfg) && Matches(s, shape) && shape.batch == cfg.allocator.maxSequence + 1
    ensures TakeOutcome(s, RunOps(s, Started(s, shape.size, start), Takes(m)))
            == Uid(cfg.Uid(shape.SecondOf(start, m), shape.OffsetOf(m)))
  {
    TakesInClosedForm(s, shape, start, m);
    assert s.provider(shape.SecondOf(start, m)) == Batch(cfg, shape.SecondOf(start, m));
  }
}
