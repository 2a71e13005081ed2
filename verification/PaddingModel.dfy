/**
 The padding pass and the take that triggers it, on values
 (src/buffer/buffer-padding-executor.ts, src/buffer/ring-buffer.ts, src/deps/java/executors.ts).
 The classes of module Buffers refine these functions.
 */
module PaddingModel {
  import JavaLong
  import opened RingModel

  // A batch of UIDs for a second; the source's BufferedUidProvider.
  type Provider = int -> seq<int>

  ghost predicate Fruitful(provider: Provider) {
    forall second :: |provider(second)| > 0
  }

  // Offer the UIDs of one batch in order and stop at the first rejection.
  function PutAll(r: Ring, uids: seq<int>): (Ring, bool)
    decreases |uids|
  {
    if uids == [] then (r, false)
    else if !r.CanPut() then (r, true)
    else PutAll(r.Put(uids[0]), uids[1..])
  }

  datatype Padded = Padded(ring: Ring, lastSecond: int)

  // Ask for second after second until a put is rejected.
  ghost function Pad(provider: Provider, r: Ring, lastSecond: int): Padded
    requires r.Valid() && Fruitful(provider)
    decreases r.Free()
  {
    PutAllExtends(r, provider(lastSecond + 1));
    var (r', full) := PutAll(r, provider(lastSecond + 1));
    if full then Padded(r', lastSecond + 1) else Pad(provider, r', lastSecond + 1)
  }

  // r' is r after some accepted puts.
  ghost predicate Extends(r: Ring, r': Ring) {
    && r'.size == r.size && r'.cursor == r.cursor && r'.issued == r.issued
    && r.log <= r'.log
    && (forall q :: q in r'.live <==> q in r.live || r.Tail() < q <= r'.Tail())
  }

  lemma {:induction false} PutAllExtends(r: Ring, uids: seq<int>)
    requires r.Valid()
    ensures var (r', full) := PutAll(r, uids);
            && r'.Valid() && Extends(r, r')
            && r'.Free() == r.Free() - (|r'.log| - |r.log|)
            && (if full then !r'.CanPut() && |r'.log| - |r.log| < |uids| else |r'.log| - |r.log| == |uids|)
            && r'.log == r.log + uids[..|r'.log| - |r.log|]
    decreases |uids|
  {
    if uids != [] && r.CanPut() {
      PutValid(r, uids[0]);
      PutAllExtends(r.Put(uids[0]), uids[1..]);
      var k := |PutAll(r, uids).0.log| - |r.log|;
      assert [uids[0]] + uids[1..][..k - 1] == uids[..k];
    }
  }

  /** A padding pass only appends to the log; it ends with a rejected put. */
  lemma {:induction false} PadExtends(provider: Provider, r: Ring, lastSecond: int)
    requires r.Valid() && Fruitful(provider)
    ensures var p := Pad(provider, r, lastSecond);
            && p.ring.Valid() && Extends(r, p.ring) && !p.ring.CanPut()
            && p.lastSecond > lastSecond
    decreases r.Free()
  {
    PutAllExtends(r, provider(lastSecond + 1));
    var (r', full) := PutAll(r, provider(lastSecond + 1));
    if !full {
      PadExtends(provider, r', lastSecond + 1);
    }
  }

  // ----- providers with a fixed batch size -----

  ghost predicate UniformBatches(provider: Provider, batch: nat) {
    batch > 0 && forall second :: |provider(second)| == batch
  }

  // The g-th UID of all batches after `start`, read one after the other.
  ghost function StreamAt(provider: Provider, batch: nat, start: int, g: nat): int
    requires UniformBatches(provider, batch)
  {
    provider(start + 1 + g / batch)[g % batch]
  }

  ghost function Stream(provider: Provider, batch: nat, start: int, n: nat): seq<int>
    requires UniformBatches(provider, batch)
  {
    seq(n, g requires 0 <= g => StreamAt(provider, batch, start, g))
  }

  lemma NextBatch(n: int, batch: int)
    requires batch > 0
    ensures (n + batch) / batch == n / batch + 1 && (n + batch) % batch == n % batch
  {
    JavaLong.DivModUnique(n + batch, batch, n / batch + 1, n % batch);
  }

  lemma FirstBatch(n: int, batch: int)
    requires 0 <= n < batch
    ensures n / batch == 0 && n % batch == n
  {
    JavaLong.DivModUnique(n, batch, 0, n);
  }

  lemma StreamBatch(provider: Provider, batch: nat, start: int, k: nat)
    requires UniformBatches(provider, batch) && k <= batch
    ensures Stream(provider, batch, start, k) == provider(start + 1)[..k]
  {
    forall g | 0 <= g < k ensures Stream(provider, batch, start, k)[g] == provider(start + 1)[g] {
      FirstBatch(g, batch);
    }
  }

  lemma StreamUnroll(provider: Provider, batch: nat, start: int, n: nat)
    requires UniformBatches(provider, batch)
    ensures Stream(provider, batch, start, batch + n) == provider(start + 1) + Stream(provider, batch, start + 1, n)
  {
    var whole := Stream(provider, batch, start, batch + n);
    forall g | 0 <= g < batch + n
      ensures whole[g] == (provider(start + 1) + Stream(provider, batch, start + 1, n))[g]
    {
      if g < batch {
        FirstBatch(g, batch);
      } else {
        NextBatch(g - batch, batch);
      }
    }
  }

  /**
   What a pass costs: it appends the first UIDs of the stream and moves `lastSecond` over the batches it asked for,
   the last of which held the one rejected UID.
   */
  lemma {:induction false} PadStream(provider: Provider, batch: nat, r: Ring, lastSecond: int)
    requires r.Valid() && UniformBatches(provider, batch)
    ensures Fruitful(provider)
    ensures var p := Pad(provider, r, lastSecond); var n := |p.ring.log| - |r.log|;
            && n >= 0
            && p.ring.log == r.log + Stream(provider, batch, lastSecond, n)
            && p.lastSecond == lastSecond + n / batch + 1
    decreases r.Free()
  {
    var uids := provider(lastSecond + 1);
    PutAllExtends(r, uids);
    var (r', full) := PutAll(r, uids);
    var k := |r'.log| - |r.log|;
    if full {
      StreamBatch(provider, batch, lastSecond, k);
      FirstBatch(k, batch);
    } else {
      PadStream(provider, batch, r', lastSecond + 1);
      var n := |Pad(provider, r', lastSecond + 1).ring.log| - |r'.log|;
      StreamUnroll(provider, batch, lastSecond, n);
      NextBatch(n, batch);
    }
  }

  // Every unread sequence is still ahead of the cursor.
  ghost predicate NothingBehind(r: Ring) {
    forall q :: q in r.live ==> r.cursor < q
  }

  /** A pass over a ring without abandoned claims accepts exactly the free room and leaves the ring full. */
  lemma PadFills(provider: Provider, r: Ring, lastSecond: int)
    requires r.Valid() && Fruitful(provider)
    requires r.NoneAbandoned()
    ensures var p := Pad(provider, r, lastSecond);
            && |p.ring.log| == |r.log| + r.Free()
            && p.ring.Free() == 0
  {
    PadExtends(provider, r, lastSecond);
    var r' := Pad(provider, r, lastSecond).ring;
    if r'.cursor >= 0 {
      DistanceGuardSuffices(r');
    } else {
      DistanceGuardSufficesFresh(r');
    }
  }

  // ----- the cached object -----

  // A handler of rejected takes may offer UIDs to the ring; then it throws, as the default does at once, or returns.
  datatype TakeHandler = TakeHandler(uids: seq<int>, throws: bool)

  // threshold: paddingThreshold; attached: an executor was set
  datatype Settings = Settings(threshold: int, provider: Provider, attached: bool, handler: TakeHandler)

  datatype Cache = Cache(ring: Ring, lastSecond: int, running: bool, shutdown: bool)

  datatype TakeResult = Uid(uid: int) | PaddingRejected | RejectedTake | NotTakeable

  ghost function PaddingPass(s: Settings, c: Cache): (c': Cache)
    requires c.ring.Valid() && Fruitful(s.provider)
    ensures c'.ring.Valid() && c'.ring.size == c.ring.size
  {
    PadExtends(s.provider, c.ring, c.lastSecond);
    if c.running then c
    else var p := Pad(s.provider, c.ring, c.lastSecond); c.(ring := p.ring, lastSecond := p.lastSecond)
  }

  ghost predicate Triggers(s: Settings, r: Ring) {
    s.attached && r.Tail() - r.cursor < s.threshold
  }

  // After the claim and a padding pass if one was triggered; a shut down pool throws instead.
  ghost function Refilled(s: Settings, c: Cache): (c': Cache)
    requires c.ring.Valid() && Fruitful(s.provider)
    ensures c'.ring.Valid() && c'.ring.size == c.ring.size
  {
    ClaimValid(c.ring);
    var claimed := c.(ring := c.ring.Claim());
    if Triggers(s, claimed.ring) && !c.shutdown then PaddingPass(s, claimed) else claimed
  }

  // After the take handler of an empty take.
  ghost function Handled(s: Settings, wasEmpty: bool, c: Cache): (c': Cache)
    requires c.ring.Valid()
    ensures c'.ring.Valid() && c'.ring.size == c.ring.size
  {
    PutAllExtends(c.ring, s.handler.uids);
    if wasEmpty then c.(ring := PutAll(c.ring, s.handler.uids).0) else c
  }

  // The end of a take: check the slot of the cursor and read it.
  ghost function ReadAtCursor(c: Cache): (Cache, TakeResult)
    requires c.ring.Valid()
  {
    if !c.ring.CanFinish(c.ring.cursor) then (c, NotTakeable)
    else (
      FinishValid(c.ring, c.ring.cursor);
      (c.(ring := c.ring.Finish(c.ring.cursor)), Uid(c.ring.log[c.ring.Occupant(c.ring.cursor)])))
  }

  // The take handler and the slot assertion stand between the refill and the slot.
  ghost function Finished(s: Settings, wasEmpty: bool, c: Cache): (Cache, TakeResult)
    requires c.ring.Valid()
  {
    if wasEmpty && s.handler.throws then (Handled(s, wasEmpty, c), RejectedTake)
    else ReadAtCursor(Handled(s, wasEmpty, c))
  }

  ghost predicate RefusesTask(s: Settings, c: Cache) {
    Triggers(s, c.ring.Claim()) && c.shutdown
  }

  ghost function TakeStep(s: Settings, c: Cache): (Cache, TakeResult)
    requires c.ring.Valid() && Fruitful(s.provider)
  {
    if RefusesTask(s, c) then (Refilled(s, c), PaddingRejected)
    else Finished(s, !c.ring.CanClaim(), Refilled(s, c))
  }

  ghost function Take(s: Settings, c: Cache): Cache
    requires c.ring.Valid() && Fruitful(s.provider)
  {
    TakeStep(s, c).0
  }

  ghost function TakeOutcome(s: Settings, c: Cache): TakeResult
    requires c.ring.Valid() && Fruitful(s.provider)
  {
    TakeStep(s, c).1
  }

  lemma RefilledValid(s: Settings, c: Cache)
    requires c.ring.Valid() && Fruitful(s.provider)
    ensures var c' := Refilled(s, c);
            && c'.ring.Valid() && Extends(c.ring.Claim(), c'.ring)
            && c'.running == c.running && c'.shutdown == c.shutdown
  {
    ClaimValid(c.ring);
    if !c.running {
      PadExtends(s.provider, c.ring.Claim(), c.lastSecond);
    }
  }

  lemma HandledValid(s: Settings, wasEmpty: bool, c: Cache)
    requires c.ring.Valid()
    ensures var c' := Handled(s, wasEmpty, c);
            && c'.ring.Valid() && Extends(c.ring, c'.ring)
            && c'.running == c.running && c'.shutdown == c.shutdown && c'.lastSecond == c.lastSecond
            && (!wasEmpty || s.handler.uids == [] ==> c' == c)
  {
    PutAllExtends(c.ring, s.handler.uids);
  }

  // The ring a take reads its slot from.
  ghost function Prepared(s: Settings, c: Cache): (c': Cache)
    requires c.ring.Valid() && Fruitful(s.provider)
    ensures c'.ring.Valid() && c'.ring.size == c.ring.size
  {
    if RefusesTask(s, c) then Refilled(s, c) else Handled(s, !c.ring.CanClaim(), Refilled(s, c))
  }

  lemma PreparedValid(s: Settings, c: Cache)
    requires c.ring.Valid() && Fruitful(s.provider)
    ensures var c' := Prepared(s, c);
            && c'.ring.Valid() && Extends(c.ring.Claim(), c'.ring)
            && c'.running == c.running && c'.shutdown == c.shutdown
  {
    hide Refilled, Handled;
    RefilledValid(s, c);
    HandledValid(s, !c.ring.CanClaim(), Refilled(s, c));
  }

  lemma TakeValid(s: Settings, c: Cache)
    requires c.ring.Valid() && Fruitful(s.provider)
    ensures Take(s, c).ring.Valid() && Take(s, c).ring.size == c.ring.size
    ensures Take(s, c) == if TakeOutcome(s, c).Uid? then ReadAtCursor(Prepared(s, c)).0 else Prepared(s, c)
  {
    hide Refilled, Handled;
    var r := Prepared(s, c).ring;
    FinishValid(r, r.cursor);
  }

  /** A handler that throws rejects every empty take that gets as far as the handler. */
  lemma ThrowingHandlerRejects(s: Settings, c: Cache)
    requires c.ring.Valid() && Fruitful(s.provider) && !c.ring.CanClaim() && s.handler.throws
    ensures TakeOutcome(s, c) == if RefusesTask(s, c) then PaddingRejected else RejectedTake
    ensures Take(s, c).ring.issued == c.ring.issued && Take(s, c).ring.cursor == c.ring.cursor
  {
    hide Refilled, Handled, RefusesTask;
    PreparedValid(s, c);
  }

  lemma TakeCursor(s: Settings, c: Cache)
    requires c.ring.Valid() && Fruitful(s.provider)
    ensures Take(s, c).ring.cursor == c.ring.Claim().cursor
  {
    hide Refilled, Handled;
    PreparedValid(s, c);
    TakeValid(s, c);
  }

  /** A take borrows seconds exactly when it triggers a pass that is accepted and not already running. */
  lemma TakeBorrows(s: Settings, c: Cache)
    requires c.ring.Valid() && Fruitful(s.provider)
    ensures Take(s, c).lastSecond >= c.lastSecond
    ensures Take(s, c).lastSecond > c.lastSecond <==> Triggers(s, c.ring.Claim()) && !c.shutdown && !c.running
  {
    hide PutAll, Pad;
    ClaimValid(c.ring);
    PadExtends(s.provider, c.ring.Claim(), c.lastSecond);
  }

  // ----- runs -----

  datatype Op = TakeOp | PaddingOp | ShutdownOp

  ghost function Apply(s: Settings, c: Cache, op: Op): (c': Cache)
    requires c.ring.Valid() && Fruitful(s.provider)
    ensures c'.ring.Valid() && c'.ring.size == c.ring.size
  {
    match op
    case TakeOp => TakeValid(s, c); Take(s, c)
    case PaddingOp => PaddingPass(s, c)
    case ShutdownOp => c.(shutdown := true)
  }

  ghost function RunOps(s: Settings, c: Cache, ops: seq<Op>): (c': Cache)
    requires c.ring.Valid() && Fruitful(s.provider)
    ensures c'.ring.Valid() && c'.ring.size == c.ring.size
    decreases |ops|
  {
    if ops == [] then c else Apply(s, RunOps(s, c, ops[..|ops| - 1]), ops[|ops| - 1])
  }

  // The object after initRingBuffer: fresh and filled once.
  ghost function Started(s: Settings, size: nat, second: int): (c: Cache)
    requires size > 0 && Fruitful(s.provider)
    ensures c.ring.Valid() && c.ring.size == size
  {
    EmptyRingValid(size);
    PaddingPass(s, Cache(EmptyRing(size), second, false, false))
  }

  lemma RunSnoc(s: Settings, c: Cache, ops: seq<Op>, op: Op)
    requires c.ring.Valid() && Fruitful(s.provider)
    ensures RunOps(s, c, ops + [op]) == Apply(s, RunOps(s, c, ops), op)
  {
    assert (ops + [op])[..|ops|] == ops;
  }

  // c is what the operations make of a freshly started object.
  ghost predicate IsRun(s: Settings, size: int, start: int, ops: seq<Op>, c: Cache) {
    && size > 0 && Fruitful(s.provider)
    && c.ring.Valid() && c.ring.size == size
    && c == RunOps(s, Started(s, size, start), ops)
  }

  lemma RunStarts(s: Settings, size: int, start: int)
    requires size > 0 && Fruitful(s.provider)
    ensures IsRun(s, size, start, [], Started(s, size, start))
  {
  }

  lemma RunContinues(s: Settings, size: int, start: int, ops: seq<Op>, c: Cache, op: Op)
    requires IsRun(s, size, start, ops, c)
    ensures IsRun(s, size, start, ops + [op], Apply(s, c, op))
  {
    RunSnoc(s, Started(s, size, start), ops, op);
  }
}
