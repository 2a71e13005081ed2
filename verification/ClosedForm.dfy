/**
 What a run of the cached object hands out, in terms of the seconds it borrows
 (src/buffer/buffer-padding-executor.ts, src/impl/cached-uid-generator.ts).
 */
module ClosedForm {
  import JavaLong
  import opened RingModel
  import opened PaddingModel
  import opened CacheRuns
  import opened Sequences

  // ----- accounting for seconds, any interleaving -----

  ghost function PassesOf(s: Settings, c: Cache, op: Op): nat {
    match op
    case TakeOp => if Triggers(s, c.ring.Claim()) && !c.shutdown && !c.running then 1 else 0
    case PaddingOp => if c.running then 0 else 1
    case ShutdownOp => 0
  }

  // Padding passes of a whole run, the initial filling included.
  ghost function Passes(s: Settings, start: Cache, ops: seq<Op>): nat
    requires start.ring.Valid() && Fruitful(s.provider)
    decreases |ops|
  {
    if ops == [] then 1
    else Passes(s, start, ops[..|ops| - 1]) + PassesOf(s, RunOps(s, start, ops[..|ops| - 1]), ops[|ops| - 1])
  }

  // A take of an empty ring whose handler offers UIDs of its own.
  ghost predicate Dilutes(s: Settings, c: Cache, op: Op) {
    op.TakeOp? && !c.ring.CanClaim() && !RefusesTask(s, c) && s.handler.uids != []
  }

  // Only padding passes have put UIDs.
  ghost predicate Undiluted(s: Settings, start: Cache, ops: seq<Op>)
    requires start.ring.Valid() && Fruitful(s.provider)
    decreases |ops|
  {
    ops == [] ||
    var earlier := ops[..|ops| - 1];
    Undiluted(s, start, earlier) && !Dilutes(s, RunOps(s, start, earlier), ops[|ops| - 1])
  }

  /** Handlers that offer nothing never dilute a run, and no handler does while no take can find the ring empty. */
  lemma {:induction false} StaysUndiluted(s: Settings, size: nat, start: int, ops: seq<Op>)
    requires size > 0 && Fruitful(s.provider)
    requires s.handler.uids == [] || (s.attached && 1 <= s.threshold < size && NoShutdown(ops))
    ensures Undiluted(s, Started(s, size, start), ops)
    decreases |ops|
  {
    hide Started, RunOps;
    if ops != [] {
      var earlier := ops[..|ops| - 1];
      StaysUndiluted(s, size, start, earlier);
      if s.handler.uids != [] {
        NoStarvation(s, size, start, earlier);
      }
    }
  }

  // The log is the sub-stream at `positions`, below `spent`; each pass has discarded 1 to `batch` UIDs of the stream.
  ghost predicate SubStream(provider: Provider, batch: nat, start: int, log: seq<int>, spent: int, positions: seq<int>,
                            passes: nat)
    requires UniformBatches(provider, batch)
  {
    && |positions| == |log|
    && Increasing(positions)
    && (forall i :: 0 <= i < |log| ==>
         0 <= positions[i] < spent && log[i] == StreamAt(provider, batch, start, positions[i]))
    && passes <= spent - |log| <= batch * passes
  }

  // All UIDs of all seconds up to `last` are spent.
  ghost predicate Accounted(provider: Provider, batch: nat, start: int, log: seq<int>, last: int, positions: seq<int>,
                            passes: nat)
    requires UniformBatches(provider, batch)
  {
    && last >= start
    && SubStream(provider, batch, start, log, batch * (last - start), positions, passes)
  }

  lemma StreamOffset(provider: Provider, batch: nat, start: int, last: int, i: nat)
    requires UniformBatches(provider, batch) && last >= start
    ensures batch * (last - start) + i >= 0
    ensures StreamAt(provider, batch, last, i) == StreamAt(provider, batch, start, batch * (last - start) + i)
  {
    var g := batch * (last - start) + i;
    JavaLong.MulMonotone(0, last - start, batch);
    assert g == (last - start + i / batch) * batch + i % batch by {
      JavaLong.Distribute(last - start, i / batch, 1, batch);
    }
    JavaLong.DivModUnique(g, batch, last - start + i / batch, i % batch);
  }

  // The seconds of one pass, counted in UIDs.
  lemma PassSpends(batch: nat, start: int, last: int, n: nat)
    requires batch > 0 && last >= start
    ensures var base := batch * (last - start); var spent := n / batch + 1;
            && base >= 0 && spent >= 1
            && batch * (last + spent - start) == base + spent * batch
            && n < spent * batch <= n + batch
  {
    var spent := n / batch + 1;
    JavaLong.MulMonotone(0, last - start, batch);
    JavaLong.Distribute(last - start, spent, 1, batch);
    JavaLong.Distribute(1, n / batch, 1, batch);
  }

  lemma StreamAccounted(provider: Provider, batch: nat, start: int, log: seq<int>, last: int, positions: seq<int>,
                        passes: nat, n: nat)
    returns (positions': seq<int>)
    requires UniformBatches(provider, batch)
    requires Accounted(provider, batch, start, log, last, positions, passes)
    ensures Accounted(provider, batch, start, log + Stream(provider, batch, last, n), last + n / batch + 1,
                      positions', passes + 1)
  {
    hide SubStream, StreamAt, Stream;
    var base := batch * (last - start);
    var cost, stream := (n / batch + 1) * batch, Stream(provider, batch, last, n);
    assert base >= 0 && n / batch >= 0 && n < cost <= n + batch
           && batch * (last + n / batch + 1 - start) == base + cost by {
      PassSpends(batch, start, last, n);
    }
    StreamMoved(provider, batch, start, last, n);
    assert batch * (passes + 1) == batch * passes + batch;
    positions' := AppendToSubStream(provider, batch, start, log, base, positions, passes, stream, cost);
  }

  lemma StreamMoved(provider: Provider, batch: nat, start: int, last: int, n: nat)
    requires UniformBatches(provider, batch) && last >= start
    ensures var base := batch * (last - start); var stream := Stream(provider, batch, last, n);
            base >= 0 && |stream| == n
            && forall i :: 0 <= i < |stream| ==> stream[i] == StreamAt(provider, batch, start, base + i)
  {
    var base, stream := batch * (last - start), Stream(provider, batch, last, n);
    JavaLong.MulMonotone(0, last - start, batch);
    forall i | 0 <= i < |stream| ensures stream[i] == StreamAt(provider, batch, start, base + i) {
      StreamOffset(provider, batch, start, last, i);
    }
  }

  lemma AppendToSubStream(provider: Provider, batch: nat, start: int, log: seq<int>, base: int, positions: seq<int>,
                          passes: nat, more: seq<int>, cost: int)
    returns (positions': seq<int>)
    requires UniformBatches(provider, batch) && base >= 0
    requires SubStream(provider, batch, start, log, base, positions, passes)
    requires forall i :: 0 <= i < |more| ==> more[i] == StreamAt(provider, batch, start, base + i)
    requires |more| < cost <= |more| + batch && batch * (passes + 1) == batch * passes + batch
    ensures SubStream(provider, batch, start, log + more, base + cost, positions', passes + 1)
  {
    positions' := positions + seq(|more|, i => base + i);
    forall i | |log| <= i < |log + more|
      ensures (log + more)[i] == StreamAt(provider, batch, start, positions'[i])
    {
      assert (log + more)[i] == more[i - |log|];
    }
  }

  /**
   Conservation of seconds, over any interleaving in which only padding passes put: the UIDs accepted so far are a
   sub-stream, in order and without repetition, of the batches of the seconds spent, and each padding pass has discarded
   between 1 and a whole batch.
   */
  lemma {:induction false} RunAccounted(s: Settings, batch: nat, size: nat, start: int, ops: seq<Op>)
    returns (positions: seq<int>)
    requires size > 0 && UniformBatches(s.provider, batch) && Fruitful(s.provider)
    requires Undiluted(s, Started(s, size, start), ops)
    ensures var c0 := Started(s, size, start); var c := RunOps(s, c0, ops);
            Accounted(s.provider, batch, start, c.ring.log, c.lastSecond, positions, Passes(s, c0, ops))
    decreases |ops|
  {
    hide StreamAt, Dilutes;
    var c0 := Started(s, size, start);
    if ops == [] {
      EmptyRingValid(size);
      PadStream(s.provider, batch, EmptyRing(size), start);
      positions := StreamAccounted(s.provider, batch, start, [], start, [], 0, |c0.ring.log|);
      assert [] + Stream(s.provider, batch, start, |c0.ring.log|) == c0.ring.log;
    } else {
      var before := RunOps(s, c0, ops[..|ops| - 1]);
      positions := RunAccounted(s, batch, size, start, ops[..|ops| - 1]);
      positions := OpAccounted(s, batch, start, before, ops[|ops| - 1], positions, Passes(s, c0, ops[..|ops| - 1]));
    }
  }

  // An operation that does not dilute changes log and second by its padding pass alone.
  lemma OpEffect(s: Settings, c: Cache, op: Op)
    requires c.ring.Valid() && Fruitful(s.provider) && !Dilutes(s, c, op)
    ensures var c' := Apply(s, c, op); var r := if op.TakeOp? then c.ring.Claim() else c.ring;
            && r.Valid() && r.log == c.ring.log
            && (if PassesOf(s, c, op) == 1 then
                  var p := Pad(s.provider, r, c.lastSecond); c'.ring.log == p.ring.log && c'.lastSecond == p.lastSecond
                else c'.ring.log == c.ring.log && c'.lastSecond == c.lastSecond)
  {
    hide Pad;
    ClaimValid(c.ring);
    if op.TakeOp? {
      TakeValid(s, c);
      RefilledValid(s, c);
      HandledValid(s, !c.ring.CanClaim(), Refilled(s, c));
    }
  }

  lemma OpAccounted(s: Settings, batch: nat, start: int, c: Cache, op: Op, positions: seq<int>, passes: nat)
    returns (positions': seq<int>)
    requires c.ring.Valid() && UniformBatches(s.provider, batch) && Fruitful(s.provider) && !Dilutes(s, c, op)
    requires Accounted(s.provider, batch, start, c.ring.log, c.lastSecond, positions, passes)
    ensures var c' := Apply(s, c, op);
            Accounted(s.provider, batch, start, c'.ring.log, c'.lastSecond, positions', passes + PassesOf(s, c, op))
  {
    hide Apply, Dilutes, Accounted, Pad;
    positions' := positions;
    OpEffect(s, c, op);
    if PassesOf(s, c, op) == 1 {
      var r := if op.TakeOp? then c.ring.Claim() else c.ring;
      PadStream(s.provider, batch, r, c.lastSecond);
      var n := |Pad(s.provider, r, c.lastSecond).ring.log| - |r.log|;
      positions' := StreamAccounted(s.provider, batch, start, r.log, c.lastSecond, positions, passes, n);
    }
  }

  /** A pass over a ring with nothing abandoned costs exactly one second per whole batch of room, and one more. */
  lemma PassCost(provider: Provider, batch: nat, r: Ring, lastSecond: int)
    requires r.Valid() && UniformBatches(provider, batch) && Fruitful(provider) && r.NoneAbandoned()
    ensures var p := Pad(provider, r, lastSecond);
            && p.ring.log == r.log + Stream(provider, batch, lastSecond, r.Free())
            && p.lastSecond == lastSecond + r.Free() / batch + 1
  {
    PadFills(provider, r, lastSecond);
    PadStream(provider, batch, r, lastSecond);
  }

  // ----- the closed form, takes only -----

  // size B of the ring, threshold T, batch size L, and the number K of batches that fill the ring
  datatype Shape = Shape(size: nat, threshold: int, batch: nat, fill: nat) {
    predicate Valid() {
      batch > 0 && fill > 0 && size == batch * fill && 1 <= threshold < size
    }

    function Refill(): int {
      size - threshold
    }

    // Seconds per refilling pass.
    function SecondsPerPass(): int
      requires Valid()
    {
      Refill() / batch + 1
    }

    // Refilling passes triggered by the first n takes.
    function PassesAfter(n: nat): int
      requires Valid()
    {
      if n == 0 then 0 else (n - 1) / Refill()
    }

    function SecondOf(start: int, m: nat): int
      requires Valid()
    {
      if m < size then start + 1 + m / batch
      else start + fill + 2 + ((m - size) / Refill()) * SecondsPerPass() + ((m - size) % Refill()) / batch
    }

    function OffsetOf(m: nat): (o: nat)
      requires Valid()
      ensures o < batch
    {
      if m < size then m % batch else ((m - size) % Refill()) % batch
    }
  }

  ghost predicate Matches(s: Settings, shape: Shape) {
    && shape.Valid() && s.attached && s.threshold == shape.threshold
    && UniformBatches(s.provider, shape.batch) && Fruitful(s.provider)
  }

  ghost predicate InForm(s: Settings, shape: Shape, start: int, c: Cache, n: nat)
    requires Matches(s, shape)
  {
    && Healthy(s, c) && !c.shutdown && c.ring.size == shape.size
    && c.ring.cursor == n - 1
    && c.ring.Tail() == shape.size - 1 + shape.PassesAfter(n) * shape.Refill()
    && c.lastSecond == start + shape.fill + 1 + shape.PassesAfter(n) * shape.SecondsPerPass()
    && (forall m :: 0 <= m < |c.ring.log| ==>
         c.ring.log[m] == s.provider(shape.SecondOf(start, m))[shape.OffsetOf(m)])
  }

  lemma StartInForm(s: Settings, shape: Shape, start: int)
    requires Matches(s, shape)
    ensures InForm(s, shape, start, Started(s, shape.size, start), 0)
  {
    var r := EmptyRing(shape.size);
    StartedHealthy(s, shape.size, start);
    PassCost(s.provider, shape.batch, r, start);
    JavaLong.DivModUnique(shape.size, shape.batch, shape.fill, 0);
  }

  // A pass is due exactly at the multiples of the refill.
  lemma PassDue(shape: Shape, n: nat)
    requires shape.Valid() && n >= 1
    ensures var d, p := shape.Refill(), shape.PassesAfter(n);
            && p * d + 1 <= n <= p * d + d
            && (n == p * d + d ==> shape.PassesAfter(n + 1) == p + 1)
            && (n < p * d + d ==> shape.PassesAfter(n + 1) == p)
  {
    var d, p := shape.Refill(), shape.PassesAfter(n);
    var o := (n - 1) % d;
    assert n - 1 == p * d + o;
    if n == p * d + d {
      JavaLong.Distribute(p, 1, 1, d);
      JavaLong.DivModUnique(n, d, p + 1, 0);
    } else {
      JavaLong.DivModUnique(n, d, p, o + 1);
    }
  }

  // The UIDs of the p-th refilling pass are where the closed form puts them.
  lemma RefillPlaces(shape: Shape, start: int, p: nat, o: nat)
    requires shape.Valid() && o < shape.Refill()
    ensures var m := shape.size + p * shape.Refill() + o;
            && m >= shape.size
            && shape.SecondOf(start, m) == start + shape.fill + 1 + p * shape.SecondsPerPass() + 1 + o / shape.batch
            && shape.OffsetOf(m) == o % shape.batch
  {
    JavaLong.MulMonotone(0, p, shape.Refill());
    JavaLong.DivModUnique(p * shape.Refill() + o, shape.Refill(), p, o);
  }

  lemma TakeInForm(s: Settings, shape: Shape, start: int, c: Cache, n: nat)
    requires Matches(s, shape) && InForm(s, shape, start, c, n)
    ensures InForm(s, shape, start, Take(s, c), n + 1)
    ensures TakeOutcome(s, c) == Uid(s.provider(shape.SecondOf(start, n))[shape.OffsetOf(n)])
  {
    CanTake(shape, n);
    TakeEffect(s, c);
    TakeHealthy(s, c);
    hide Healthy, Take, TakeOutcome, Pad, Stream;
    if Triggers(s, c.ring.Claim()) {
      PassCost(s.provider, shape.batch, c.ring.Claim(), c.lastSecond);
      TriggerStep(shape, n);
      RefillInForm(s, shape, start, c, Take(s, c), n);
    } else {
      QuietInForm(s, shape, start, c, Take(s, c), n);
    }
  }

  // A take without a pass.
  lemma QuietInForm(s: Settings, shape: Shape, start: int, c: Cache, c': Cache, n: nat)
    requires Matches(s, shape) && InForm(s, shape, start, c, n)
    requires Healthy(s, c') && !c'.shutdown && c'.ring.size == c.ring.size && c'.ring.cursor == n
    requires c'.ring.log == c.ring.log && c'.lastSecond == c.lastSecond
    requires shape.PassesAfter(n + 1) == shape.PassesAfter(n)
    ensures InForm(s, shape, start, c', n + 1)
  {
    hide Healthy;
  }

  // A take with a refilling pass.
  lemma RefillInForm(s: Settings, shape: Shape, start: int, c: Cache, c': Cache, n: nat)
    requires Matches(s, shape) && InForm(s, shape, start, c, n)
    requires Healthy(s, c') && !c'.shutdown && c'.ring.size == c.ring.size && c'.ring.cursor == n
    requires c'.ring.log == c.ring.log + Stream(s.provider, shape.batch, c.lastSecond, shape.Refill())
    requires c'.lastSecond == c.lastSecond + shape.SecondsPerPass()
    requires shape.PassesAfter(n + 1) * shape.Refill() == shape.PassesAfter(n) * shape.Refill() + shape.Refill()
    requires shape.PassesAfter(n + 1) * shape.SecondsPerPass()
             == shape.PassesAfter(n) * shape.SecondsPerPass() + shape.SecondsPerPass()
    ensures InForm(s, shape, start, c', n + 1)
  {
    hide Healthy, Shape.PassesAfter, Shape.SecondOf, Shape.OffsetOf, Shape.SecondsPerPass;
    RefillLog(s, shape, start, c, n);
  }

  lemma CanTake(shape: Shape, n: nat)
    requires shape.Valid()
    ensures n <= shape.size - 1 + shape.PassesAfter(n) * shape.Refill()
    ensures var rest := shape.size - 1 + shape.PassesAfter(n) * shape.Refill() - n;
            if rest < shape.threshold then n >= 1 && n == shape.PassesAfter(n) * shape.Refill() + shape.Refill()
            else shape.PassesAfter(n + 1) == shape.PassesAfter(n)
  {
    if n > 0 {
      PassDue(shape, n);
    }
  }

  lemma TriggerStep(shape: Shape, n: nat)
    requires shape.Valid() && n >= 1 && n == shape.PassesAfter(n) * shape.Refill() + shape.Refill()
    ensures shape.PassesAfter(n + 1) * shape.Refill() == shape.PassesAfter(n) * shape.Refill() + shape.Refill()
    ensures shape.PassesAfter(n + 1) * shape.SecondsPerPass()
            == shape.PassesAfter(n) * shape.SecondsPerPass() + shape.SecondsPerPass()
  {
    PassDue(shape, n);
    JavaLong.Distribute(shape.PassesAfter(n), 1, 1, shape.Refill());
    JavaLong.Distribute(shape.PassesAfter(n), 1, 1, shape.SecondsPerPass());
  }

  lemma RefillLog(s: Settings, shape: Shape, start: int, c: Cache, n: nat)
    requires Matches(s, shape) && InForm(s, shape, start, c, n)
    ensures var log := c.ring.log + Stream(s.provider, shape.batch, c.lastSecond, shape.Refill());
      forall m :: 0 <= m < |log| ==> log[m] == s.provider(shape.SecondOf(start, m))[shape.OffsetOf(m)]
  {
    var stream := Stream(s.provider, shape.batch, c.lastSecond, shape.Refill());
    forall o | 0 <= o < shape.Refill()
      ensures stream[o] == s.provider(shape.SecondOf(start, |c.ring.log| + o))[shape.OffsetOf(|c.ring.log| + o)]
    {
      assert shape.PassesAfter(n) >= 0;
      RefillPlaces(shape, start, shape.PassesAfter(n), o);
    }
    var log := c.ring.log + stream;
    forall m | |c.ring.log| <= m < |log|
      ensures log[m] == s.provider(shape.SecondOf(start, m))[shape.OffsetOf(m)]
    {
      assert log[m] == stream[m - |c.ring.log|];
    }
  }

  lemma {:induction false} RunInForm(s: Settings, shape: Shape, start: int, n: nat)
    requires Matches(s, shape)
    ensures InForm(s, shape, start, RunOps(s, Started(s, shape.size, start), Takes(n)), n)
    decreases n
  {
    hide Take, TakeStep, Started, Healthy;
    if n == 0 {
      StartInForm(s, shape, start);
    } else {
      RunInForm(s, shape, start, n - 1);
      TakesSnoc(s, Started(s, shape.size, start), n - 1);
      TakeInForm(s, shape, start, RunOps(s, Started(s, shape.size, start), Takes(n - 1)), n - 1);
    }
  }

  /** The closed form of a run: what the m-th take (from 0) returns, and the last second borrowed after it. */
  lemma TakesInClosedForm(s: Settings, shape: Shape, start: int, m: nat)
    requires Matches(s, shape)
    ensures var c := RunOps(s, Started(s, shape.size, start), Takes(m));
            && TakeOutcome(s, c) == Uid(s.provider(shape.SecondOf(start, m))[shape.OffsetOf(m)])
            && Take(s, c).lastSecond == start + shape.fill + 1 + (m / shape.Refill()) * shape.SecondsPerPass()
  {
    RunInForm(s, shape, start, m);
    TakeInForm(s, shape, start, RunOps(s, Started(s, shape.size, start), Takes(m)), m);
  }
}
