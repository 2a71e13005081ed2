/**
 Whole runs of the cached object: any interleaving of takes, scheduled or direct padding
 passes and a shutdown (src/buffer/ring-buffer.ts, src/buffer/buffer-padding-executor.ts).
 */
module CacheRuns {
  import opened RingModel
  import opened Sequences
  import opened PaddingModel

  // Takes can leave a claimed UID unread only by throwing out of a refused padding task.
  ghost predicate MayAbandon(s: Settings, c: Cache) {
    s.attached && s.threshold >= 1 && c.shutdown
  }

  ghost predicate Healthy(s: Settings, c: Cache) {
    && c.ring.Valid() && Fruitful(s.provider)
    && !c.running
    && c.ring.Tail() >= 0
    && c.ring.Intact()
    && (MayAbandon(s, c) || NothingBehind(c.ring))
    && (forall i :: 0 <= i < |c.ring.issued| ==> c.ring.issued[i] <= c.ring.cursor)
    && Increasing(c.ring.issued)
  }

  lemma StartedHealthy(s: Settings, size: nat, second: int)
    requires size > 0 && Fruitful(s.provider)
    ensures var c := Started(s, size, second);
            && Healthy(s, c) && !c.shutdown
            && c.ring.Tail() == size - 1 && c.ring.cursor == START_POINT && c.ring.issued == []
  {
    PadExtends(s.provider, EmptyRing(size), second);
    PadFills(s.provider, EmptyRing(size), second);
  }

  // The claimed sequence owns its slot, also after an inline refill and the handler.
  lemma ClaimedSlot(s: Settings, c: Cache)
    requires Healthy(s, c)
    ensures var r := Prepared(s, c).ring;
            && r.Occupant(r.cursor) == r.cursor
            && r.cursor == c.ring.Claim().cursor && 0 <= r.cursor + 1
            && (c.ring.CanClaim() ==> r.CanFinish(r.cursor))
            && (!c.ring.CanClaim() ==> r.CanFinish(r.cursor) ==> MayAbandon(s, c))
  {
    hide Prepared;
    PreparedValid(s, c);
    var r := Prepared(s, c).ring;
    assert r.cursor >= 0;
    OccupantIndex(r, r.cursor);
  }

  /**
   The outcome of a take in any healthy state, whatever the handler offers: it returns the next accepted UID unless the
   ring was empty or the padding pool was shut down; the slot assertion then never lets a stale UID through.
   */
  lemma TakeCases(s: Settings, c: Cache)
    requires Healthy(s, c)
    ensures var refused := Triggers(s, c.ring.Claim()) && c.shutdown;
            TakeOutcome(s, c) ==
              if refused then PaddingRejected
              else if c.ring.CanClaim() then Uid(c.ring.log[c.ring.cursor + 1])
              else if s.handler.throws then RejectedTake
              else NotTakeable
    ensures Take(s, c).ring.cursor == c.ring.Claim().cursor
    ensures Take(s, c).ring.issued ==
              if TakeOutcome(s, c).Uid? then c.ring.issued + [c.ring.cursor + 1] else c.ring.issued
    ensures Take(s, c).ring.live ==
              Prepared(s, c).ring.live - if TakeOutcome(s, c).Uid? then {c.ring.cursor + 1} else {}
    ensures Take(s, c).ring.log == Prepared(s, c).ring.log
  {
    hide Refilled, Handled, PutAll;
    PreparedValid(s, c);
    ClaimedSlot(s, c);
    if !c.ring.CanClaim() && MayAbandon(s, c) {
      assert Triggers(s, c.ring.Claim());
    }
  }

  lemma TakeHealthy(s: Settings, c: Cache)
    requires Healthy(s, c)
    ensures Healthy(s, Take(s, c))
  {
    hide Take, TakeOutcome, Prepared;
    TakeCases(s, c);
    TakeKeepsFlags(s, c);
    PreparedValid(s, c);
    ClaimedSlot(s, c);
  }

  lemma TakeKeepsFlags(s: Settings, c: Cache)
    requires c.ring.Valid() && Fruitful(s.provider)
    ensures var c' := Take(s, c);
            && c'.running == c.running && c'.shutdown == c.shutdown
            && c'.ring.Valid() && c'.ring.size == c.ring.size
  {
    hide Prepared;
    PreparedValid(s, c);
    TakeValid(s, c);
  }

  // What a take from a ring that is not empty does to the log and the seconds.
  lemma TakeEffect(s: Settings, c: Cache)
    requires Healthy(s, c) && !c.shutdown && c.ring.CanClaim()
    ensures var c' := Take(s, c); var claimed := c.ring.Claim();
            && claimed.Valid() && c'.ring.size == c.ring.size && c'.ring.cursor == claimed.cursor
            && !c'.shutdown && !c'.running
            && (if Triggers(s, claimed) then
                  var p := Pad(s.provider, claimed, c.lastSecond);
                  c'.ring.log == p.ring.log && c'.lastSecond == p.lastSecond
                else c'.ring.log == c.ring.log && c'.lastSecond == c.lastSecond)
            && TakeOutcome(s, c) == Uid(c.ring.log[c.ring.cursor + 1]) && claimed.NoneAbandoned()
  {
    hide PutAll;
    ClaimValid(c.ring);
    TakeCases(s, c);
    TakeValid(s, c);
  }

  lemma ApplyHealthy(s: Settings, c: Cache, op: Op)
    requires Healthy(s, c)
    ensures Healthy(s, Apply(s, c, op))
  {
    match op
    case TakeOp => TakeHealthy(s, c);
    case PaddingOp => PadExtends(s.provider, c.ring, c.lastSecond);
    case ShutdownOp =>
  }

  lemma {:induction false} RunHealthy(s: Settings, c: Cache, ops: seq<Op>)
    requires Healthy(s, c)
    ensures Healthy(s, RunOps(s, c, ops))
    decreases |ops|
  {
    if ops != [] {
      RunHealthy(s, c, ops[..|ops| - 1]);
      ApplyHealthy(s, RunOps(s, c, ops[..|ops| - 1]), ops[|ops| - 1]);
    }
  }

  // ----- order and loss -----

  /** UIDs leave in the order they were accepted, each at most once, whatever the interleaving. */
  lemma IssuedInOrder(s: Settings, size: nat, second: int, ops: seq<Op>)
    requires size > 0 && Fruitful(s.provider)
    ensures var r := RunOps(s, Started(s, size, second), ops).ring;
            Increasing(r.issued) && forall i :: 0 <= i < |r.issued| ==> 0 <= r.issued[i] <= r.cursor
  {
    StartedHealthy(s, size, second);
    RunHealthy(s, Started(s, size, second), ops);
    HealthyOrder(s, RunOps(s, Started(s, size, second), ops));
  }

  lemma HealthyOrder(s: Settings, c: Cache)
    requires Healthy(s, c)
    ensures Increasing(c.ring.issued)
    ensures forall i :: 0 <= i < |c.ring.issued| ==> 0 <= c.ring.issued[i] <= c.ring.cursor
  {
    forall i | 0 <= i < |c.ring.issued| ensures 0 <= c.ring.issued[i] {
      assert c.ring.issued[i] in c.ring.issued;
    }
  }

  ghost predicate NoShutdown(ops: seq<Op>) {
    forall i :: 0 <= i < |ops| ==> ops[i] != ShutdownOp
  }

  /** Without a shutdown nothing is lost: the sequences returned are exactly 0, 1, ..., cursor. */
  lemma {:induction false} NothingLost(s: Settings, size: nat, second: int, ops: seq<Op>)
    requires size > 0 && Fruitful(s.provider) && NoShutdown(ops)
    ensures var c := RunOps(s, Started(s, size, second), ops);
            && !c.shutdown
            && |c.ring.issued| == c.ring.cursor + 1
            && forall i :: 0 <= i < |c.ring.issued| ==> c.ring.issued[i] == i
    decreases |ops|
  {
    StartedHealthy(s, size, second);
    if ops != [] {
      var before := RunOps(s, Started(s, size, second), ops[..|ops| - 1]);
      NothingLost(s, size, second, ops[..|ops| - 1]);
      RunHealthy(s, Started(s, size, second), ops[..|ops| - 1]);
      match ops[|ops| - 1]
      case TakeOp => TakeCases(s, before); PreparedValid(s, before);
      case PaddingOp => PadExtends(s.provider, before.ring, before.lastSecond);
    }
  }

  /**
   After a shutdown, a take that leaves fewer than the threshold throws out of the refused padding task: the cursor has
   moved, the UID at the new cursor stays in its slot, and no later operation with this executor returns it
   (AbandonedComesBack: with a fresh one an empty take can).
   */
  lemma RefusedTakeLosesOne(s: Settings, c: Cache, ops: seq<Op>)
    requires Healthy(s, c) && c.shutdown && s.attached
    requires c.ring.CanClaim() && c.ring.Tail() - (c.ring.cursor + 1) < s.threshold
    ensures TakeOutcome(s, c) == PaddingRejected
    ensures Take(s, c) == c.(ring := c.ring.(cursor := c.ring.cursor + 1))
    ensures var lost := c.ring.cursor + 1; var end := RunOps(s, Take(s, c), ops).ring;
            lost in end.live && lost !in end.issued && end.Tail() < lost + end.size
  {
    TakeCases(s, c);
    TakeHealthy(s, c);
    AbandonedForever(s, Take(s, c), ops, c.ring.cursor + 1);
  }

  // An abandoned UID is never returned, and the tail can never lap it.
  lemma {:induction false} AbandonedForever(s: Settings, c: Cache, ops: seq<Op>, q: int)
    requires Healthy(s, c) && q in c.ring.live && q <= c.ring.cursor
    ensures var r := RunOps(s, c, ops).ring;
            q in r.live && q <= r.cursor && 0 <= q && q !in r.issued && r.Tail() < q + r.size
    decreases |ops|
  {
    hide Pad;
    if ops != [] {
      var before := RunOps(s, c, ops[..|ops| - 1]);
      AbandonedForever(s, c, ops[..|ops| - 1], q);
      RunHealthy(s, c, ops[..|ops| - 1]);
      match ops[|ops| - 1]
      case TakeOp =>
        TakeCases(s, before);
        PreparedValid(s, before);
        ClaimedSlot(s, before);
        TakeHealthy(s, before);
      case PaddingOp => PadExtends(s.provider, before.ring, before.lastSecond);
      case ShutdownOp =>
    }
  }

  // ----- no starvation -----

  ghost predicate Stocked(c: Cache) {
    c.ring.Tail() - c.ring.cursor >= 1
  }

  lemma TakeStocked(s: Settings, c: Cache)
    requires Healthy(s, c) && Stocked(c) && !c.shutdown
    requires s.attached && 1 <= s.threshold && 2 <= c.ring.size
    ensures TakeOutcome(s, c).Uid? && Stocked(Take(s, c))
  {
    TakeCases(s, c);
    RefilledValid(s, c);
    if Triggers(s, c.ring.Claim()) {
      PadFills(s.provider, c.ring.Claim(), c.lastSecond);
    }
  }

  lemma {:induction false} StaysStocked(s: Settings, size: nat, second: int, ops: seq<Op>)
    requires s.attached && 1 <= s.threshold < size && Fruitful(s.provider) && NoShutdown(ops)
    ensures var c := RunOps(s, Started(s, size, second), ops);
            Healthy(s, c) && Stocked(c) && !c.shutdown
    decreases |ops|
  {
    StartedHealthy(s, size, second);
    if ops != [] {
      var before := RunOps(s, Started(s, size, second), ops[..|ops| - 1]);
      StaysStocked(s, size, second, ops[..|ops| - 1]);
      ApplyHealthy(s, before, ops[|ops| - 1]);
      match ops[|ops| - 1]
      case TakeOp => TakeStocked(s, before); TakeKeepsFlags(s, before);
      case PaddingOp => PadExtends(s.provider, before.ring, before.lastSecond);
    }
  }

  /**
   With an attached executor and a threshold of at least 1, every take succeeds in every interleaving of takes and
   extra padding passes; between calls at least one UID waits and no pass is running.
   */
  lemma NoStarvation(s: Settings, size: nat, second: int, ops: seq<Op>)
    requires s.attached && 1 <= s.threshold < size && Fruitful(s.provider) && NoShutdown(ops)
    ensures var c := RunOps(s, Started(s, size, second), ops);
            TakeOutcome(s, c).Uid? && c.ring.Tail() - c.ring.cursor >= 1 && !c.running
  {
    StaysStocked(s, size, second, ops);
    TakeStocked(s, RunOps(s, Started(s, size, second), ops));
  }

  function Takes(n: nat): seq<Op> {
    seq(n, i => TakeOp)
  }

  lemma TakesSnoc(s: Settings, c: Cache, n: nat)
    requires c.ring.Valid() && Fruitful(s.provider)
    ensures RunOps(s, c, Takes(n + 1)) == Take(s, RunOps(s, c, Takes(n)))
  {
    assert Takes(n + 1) == Takes(n) + [TakeOp];
    RunSnoc(s, c, Takes(n), TakeOp);
  }

  // Without padding the ring is only ever emptied.
  lemma DrainStep(s: Settings, c: Cache)
    requires Healthy(s, c) && (!s.attached || s.threshold <= 0) && c.ring.CanClaim()
    ensures var c' := Take(s, c);
            Healthy(s, c') && c'.ring.Tail() == c.ring.Tail() && c'.ring.cursor == c.ring.cursor + 1
  {
    TakeHealthy(s, c);
    TakeCases(s, c);
  }

  lemma {:induction false} Draining(s: Settings, c: Cache, n: nat)
    requires Healthy(s, c) && (!s.attached || s.threshold <= 0) && n <= c.ring.Tail() - c.ring.cursor
    ensures var c' := RunOps(s, c, Takes(n));
            Healthy(s, c') && c'.ring.Tail() == c.ring.Tail() && c'.ring.cursor == c.ring.cursor + n
    decreases n
  {
    if n > 0 {
      Draining(s, c, n - 1);
      TakesSnoc(s, c, n - 1);
      DrainStep(s, RunOps(s, c, Takes(n - 1)));
    }
  }

  /** Takes alone never fail exactly when an executor is attached and the threshold, rounded down, is at least 1. */
  lemma StarvesExactlyBelowOne(s: Settings, size: nat, second: int)
    requires size > 0 && s.threshold < size && Fruitful(s.provider)
    ensures (forall n: nat :: TakeOutcome(s, RunOps(s, Started(s, size, second), Takes(n))).Uid?)
            <==> s.attached && s.threshold >= 1
  {
    if s.attached && s.threshold >= 1 {
      forall n: nat ensures TakeOutcome(s, RunOps(s, Started(s, size, second), Takes(n))).Uid? {
        NoStarvation(s, size, second, Takes(n));
      }
    } else {
      StartedHealthy(s, size, second);
      Draining(s, Started(s, size, second), size);
      TakeCases(s, RunOps(s, Started(s, size, second), Takes(size)));
    }
  }

  // ----- the empty take -----

  // On a ring that was never filled, the refill or the handler puts a whole lap of UIDs.
  ghost predicate FillsUp(s: Settings, c: Cache) {
    && c.ring.Tail() == START_POINT
    && ((s.attached && s.threshold >= 1 && !c.shutdown && !c.running) || |s.handler.uids| >= c.ring.size)
  }

  lemma HandlerFills(s: Settings, r: Ring)
    requires r.Valid() && r.cursor == START_POINT
    ensures var after := PutAll(r, s.handler.uids).0;
            |after.log| == r.size <==> |r.log| == r.size || |r.log| + |s.handler.uids| >= r.size
  {
    PutAllExtends(r, s.handler.uids);
    DistanceGuardSufficesFresh(PutAll(r, s.handler.uids).0);
  }

  lemma RefillFills(s: Settings, c: Cache)
    requires c.ring.Valid() && Fruitful(s.provider) && c.ring.Tail() == START_POINT && !RefusesTask(s, c)
    ensures |Refilled(s, c).ring.log|
            == if s.attached && s.threshold >= 1 && !c.shutdown && !c.running then c.ring.size else 0
  {
    assert c.ring.Claim() == c.ring;
    if Triggers(s, c.ring) && !c.running {
      PadFills(s.provider, c.ring, c.lastSecond);
    }
  }

  lemma PreparedFills(s: Settings, c: Cache)
    requires c.ring.Valid() && Fruitful(s.provider) && c.ring.Tail() == START_POINT && !RefusesTask(s, c)
    ensures |Prepared(s, c).ring.log| == c.ring.size <==> FillsUp(s, c)
  {
    hide PutAll, Refilled, RefusesTask;
    RefilledValid(s, c);
    RefillFills(s, c);
    HandlerFills(s, Refilled(s, c).ring);
  }

  // The slot an empty take reads: the cursor's own, or the last one on a ring that was never filled.
  lemma EmptySlot(s: Settings, c: Cache)
    requires c.ring.Valid() && Fruitful(s.provider) && !c.ring.CanClaim() && !RefusesTask(s, c)
    ensures var r := Prepared(s, c).ring;
            && r.cursor == c.ring.cursor
            && (r.CanFinish(r.cursor) <==> c.ring.cursor in c.ring.live || FillsUp(s, c))
            && (r.CanFinish(r.cursor) ==>
                 r.Occupant(r.cursor) == if c.ring.cursor in c.ring.live then c.ring.cursor else c.ring.size - 1)
            && (r.CanFinish(r.cursor) && c.ring.cursor !in c.ring.live ==> |r.log| == c.ring.size)
  {
    hide Prepared, RefusesTask;
    PreparedValid(s, c);
    var r := Prepared(s, c).ring;
    OccupantIndex(r, r.cursor);
    if c.ring.Tail() == START_POINT {
      PreparedFills(s, c);
    }
  }

  /**
   The exact exceptions to the rejection of an empty take. It yields a UID if and only if the handler returns, no task
   is refused, and either a refused task has left the UID of the last claim unread, or the ring was never filled and
   the refill or the handler has just put a whole lap, whose last index the start point -1 shares.
   */
  lemma EmptyTake(s: Settings, c: Cache)
    requires c.ring.Valid() && Fruitful(s.provider) && !c.ring.CanClaim()
    ensures TakeOutcome(s, c).Uid? <==>
      !s.handler.throws && !RefusesTask(s, c) && (c.ring.cursor in c.ring.live || FillsUp(s, c))
    ensures TakeOutcome(s, c).Uid? ==>
      if c.ring.cursor in c.ring.live then
        0 <= c.ring.cursor < |c.ring.log| && TakeOutcome(s, c) == Uid(c.ring.log[c.ring.cursor])
      else
        |Take(s, c).ring.log| == c.ring.size && TakeOutcome(s, c) == Uid(Take(s, c).ring.log[c.ring.size - 1])
  {
    hide Refilled, Handled, RefusesTask;
    PreparedValid(s, c);
    if !RefusesTask(s, c) {
      EmptySlot(s, c);
    }
  }

  /** The first exception is real: the last waiting UID, abandoned by a refused take, comes back from an empty ring. */
  lemma AbandonedComesBack(s: Settings, c: Cache, provider: Provider, second: int)
    requires Healthy(s, c) && c.shutdown && s.attached && s.threshold >= 1 && !s.handler.throws && Fruitful(provider)
    requires c.ring.Tail() == c.ring.cursor + 1
    ensures TakeOutcome(s, c) == PaddingRejected
    // A fresh executor is attached.
    ensures var c' := Take(s, c).(lastSecond := second, shutdown := false);
            && !c'.ring.CanClaim()
            && TakeOutcome(s.(provider := provider), c') == Uid(c.ring.log[c.ring.cursor + 1])
  {
    hide TakeOutcome;
    RefusedTakeLosesOne(s, c, []);
    TakeHealthy(s, c);
    EmptyTake(s.(provider := provider), Take(s, c).(lastSecond := second, shutdown := false));
  }

  // Such a state is reached by a take, a shutdown and nothing else.
  lemma AbandonedReached(s: Settings, start: int)
    requires s.attached && s.threshold == 1 && Fruitful(s.provider)
    ensures var c := RunOps(s, Started(s, 2, start), [TakeOp, ShutdownOp]);
            Healthy(s, c) && c.shutdown && c.ring.Tail() == c.ring.cursor + 1
  {
    hide TakeOutcome, Take;
    StartedHealthy(s, 2, start);
    var c := Started(s, 2, start);
    TakeEffect(s, c);
    TakeHealthy(s, c);
    TwoOps(s, c, TakeOp, ShutdownOp);
  }

  lemma TwoOps(s: Settings, c: Cache, op: Op, op': Op)
    requires c.ring.Valid() && Fruitful(s.provider)
    ensures RunOps(s, c, [op, op']) == Apply(s, Apply(s, c, op), op')
  {
    assert [op, op'] == ([] + [op]) + [op'];
    RunSnoc(s, c, [] + [op], op');
    RunSnoc(s, c, [], op);
  }

  /** The second exception is real: a take from a new, empty ring returns the last UID of its refill. */
  lemma NewRingReturnsLast(s: Settings, size: nat, second: int)
    requires size > 0 && Fruitful(s.provider) && !s.handler.throws
    requires (s.attached && s.threshold >= 1) || |s.handler.uids| >= size
    ensures var c := Cache(EmptyRing(size), second, false, false);
            |Take(s, c).ring.log| == size && TakeOutcome(s, c) == Uid(Take(s, c).ring.log[size - 1])
  {
    EmptyRingValid(size);
    hide TakeOutcome, Take;
    EmptyTake(s, Cache(EmptyRing(size), second, false, false));
  }

  // ----- capacity -----

  /**
   Over any run without a shutdown the flag check of `put` never fires: a put fails exactly when the distance guard
   stops it, with the whole ring waiting before the first take and one slot less afterwards.
   */
  lemma PutFailsOnlyAtCapacity(s: Settings, size: nat, second: int, ops: seq<Op>)
    requires size > 0 && Fruitful(s.provider) && NoShutdown(ops)
    ensures var r := RunOps(s, Started(s, size, second), ops).ring; var waiting := r.Tail() - r.cursor;
            && |r.live| == waiting
            && (r.CanPut() <==> waiting != if r.cursor == START_POINT then size else size - 1)
            && waiting <= if r.cursor == START_POINT then size else size - 1
  {
    StartedHealthy(s, size, second);
    RunHealthy(s, Started(s, size, second), ops);
    NothingLost(s, size, second, ops);
    var r := RunOps(s, Started(s, size, second), ops).ring;
    Capacity(r);
    if r.cursor >= 0 {
      DistanceGuardSuffices(r);
    } else {
      DistanceGuardSufficesFresh(r);
    }
  }
}
