/**
 Whole runs of the default generator: order of the UIDs, monotone clocks, the quota of a
 second (src/impl/default-uid-generator.ts).
 */
module DefaultRuns {
  import opened JavaLong
  import opened BitsAllocation
  import opened Wrappers
  import opened DefaultModel
  import opened Sequences

  // The outcome of call n, counted from 0.
  ghost function OutcomeOf(cfg: Config, clock: seq<int>, n: nat): Outcome {
    NextId(cfg, clock, RunCalls(cfg, clock, n).state).1
  }

  function Answer(outcome: Outcome): seq<int> {
    if outcome.Issued? then [outcome.uid] else []
  }

  // What the first n calls have returned, in order.
  ghost function Returned(cfg: Config, clock: seq<int>, n: nat): seq<int> {
    if n == 0 then []
    else Returned(cfg, clock, n - 1) + Answer(OutcomeOf(cfg, clock, n - 1))
  }

  ghost function Uids(cfg: Config, stamps: seq<Stamp>): seq<int> {
    seq(|stamps|, i requires 0 <= i < |stamps| => cfg.Uid(stamps[i].second, stamps[i].sequence))
  }

  /** The UIDs returned are those of the seconds and sequences the calls have gone through. */
  lemma {:induction false} ReturnedAreUids(cfg: Config, clock: seq<int>, n: nat)
    ensures Returned(cfg, clock, n) == Uids(cfg, RunCalls(cfg, clock, n).stamps)
    decreases n
  {
    hide NextId, Config.Uid;
    if n > 0 {
      var h := RunCalls(cfg, clock, n - 1);
      ReturnedAreUids(cfg, clock, n - 1);
      IssuedIsUid(cfg, clock, h.state);
      assert RunCalls(cfg, clock, n) == Call(cfg, clock, h);
    }
  }

  /** Call k of a run returns the next UID, with the fields of its last reading and of the state it leaves. */
  lemma CallReturns(cfg: Config, clock: seq<int>, k: nat)
    requires cfg.Valid()
    ensures var st := RunCalls(cfg, clock, k + 1).state; var a := cfg.allocator;
            && a.DeltaSpan() > 0
            && Returned(cfg, clock, k + 1) == Returned(cfg, clock, k) + Answer(OutcomeOf(cfg, clock, k))
            && (OutcomeOf(cfg, clock, k).Issued? ==>
                 var uid := OutcomeOf(cfg, clock, k).uid;
                 && LastRead(clock, st.pos, st.lastSecond)
                 && a.DecodeDeltaSeconds(uid) == (st.lastSecond - cfg.epochSeconds) % a.DeltaSpan()
                 && a.DecodeWorkerId(uid) == cfg.workerId && a.DecodeSequence(uid) == st.sequence)
  {
    hide NextId;
    RunInv(cfg, clock, k);
    IssuedFields(cfg, clock, RunCalls(cfg, clock, k).state);
    assert RunCalls(cfg, clock, k + 1) == Call(cfg, clock, RunCalls(cfg, clock, k));
  }

  // A second that is not before the epoch can be read off its UID.
  lemma ParsedSecond(cfg: Config, clock: seq<int>, k: nat)
    requires cfg.Valid() && OutcomeOf(cfg, clock, k).Issued?
    requires RunCalls(cfg, clock, k + 1).state.lastSecond >= cfg.epochSeconds
    ensures var st := RunCalls(cfg, clock, k + 1).state;
            && LastRead(clock, st.pos, st.lastSecond)
            && cfg.epochSeconds + cfg.allocator.DecodeDeltaSeconds(OutcomeOf(cfg, clock, k).uid) == st.lastSecond
  {
    hide OutcomeOf, RunCalls, Returned, ToSeconds;
    CallReturns(cfg, clock, k);
    LastSecondInField(cfg, clock, k);
    SpanMod(cfg.allocator, RunCalls(cfg, clock, k + 1).state.lastSecond - cfg.epochSeconds, 0);
  }

  lemma MillisFloor(second: int, reading: int)
    requires 0 <= reading <= MAX_TIME && second == ToSeconds(reading)
    ensures ToMillis(second) % 1000 == 0 && ToMillis(second) <= reading < ToMillis(second) + 1000
  {
    SecondOfReading(reading);
    MillisOfSecond(second);
  }

  /** The time parseUID shows for a returned UID, unless it was issued before the epoch: the second of its reading. */
  lemma ParsedTime(cfg: Config, clock: seq<int>, k: nat)
    requires cfg.Valid() && OutcomeOf(cfg, clock, k).Issued?
    requires RunCalls(cfg, clock, k + 1).state.lastSecond >= cfg.epochSeconds
    requires forall i :: 0 <= i < |clock| ==> 0 <= clock[i] <= MAX_TIME
    ensures var pos := RunCalls(cfg, clock, k + 1).state.pos;
            var millis := ToMillis(cfg.epochSeconds + cfg.allocator.DecodeDeltaSeconds(OutcomeOf(cfg, clock, k).uid));
            0 < pos <= |clock| && millis % 1000 == 0 && millis <= clock[pos - 1] < millis + 1000
  {
    hide OutcomeOf, RunCalls, ToSeconds, ToMillis;
    ParsedSecond(cfg, clock, k);
    MillisFloor(RunCalls(cfg, clock, k + 1).state.lastSecond, clock[RunCalls(cfg, clock, k + 1).state.pos - 1]);
  }

  lemma LastSecondInField(cfg: Config, clock: seq<int>, k: nat)
    requires cfg.Valid() && OutcomeOf(cfg, clock, k).Issued?
    ensures RunCalls(cfg, clock, k + 1).state.lastSecond - cfg.epochSeconds <= cfg.allocator.maxDeltaSeconds
    ensures cfg.allocator.maxDeltaSeconds < cfg.allocator.DeltaSpan()
  {
    hide NextId;
    WordSplit(cfg.allocator);
    RunInv(cfg, clock, k + 1);
    assert RunCalls(cfg, clock, k + 1) == Call(cfg, clock, RunCalls(cfg, clock, k));
  }

  // No second lies further before the epoch than the delta field and its sign can express.
  ghost predicate WithinSpan(cfg: Config, stamps: seq<Stamp>) {
    forall i :: 0 <= i < |stamps| ==> cfg.allocator.FitsDelta(stamps[i].second - cfg.epochSeconds)
  }

  // The stamps a run's UIDs really carry.
  ghost function Carried(cfg: Config, stamps: seq<Stamp>): seq<Stamp>
    requires cfg.allocator.DeltaSpan() != 0
  {
    seq(|stamps|, i requires 0 <= i < |stamps| =>
      Stamp(cfg.allocator.Wrapped(stamps[i].second - cfg.epochSeconds), stamps[i].sequence))
  }

  lemma UidOrder(cfg: Config, x: Stamp, y: Stamp)
    requires cfg.Valid()
    requires 0 <= x.sequence <= cfg.allocator.maxSequence && 0 <= y.sequence <= cfg.allocator.maxSequence
    ensures cfg.allocator.DeltaSpan() > 0
    ensures var d, d' := x.second - cfg.epochSeconds, y.second - cfg.epochSeconds;
            && (cfg.Uid(x.second, x.sequence) < cfg.Uid(y.second, y.sequence)
                <==> Before(cfg.allocator.Wrapped(d), x.sequence, cfg.allocator.Wrapped(d'), y.sequence))
            && (cfg.allocator.FitsDelta(d) ==> cfg.allocator.Wrapped(d) == d)
            && (cfg.allocator.FitsDelta(d') ==> cfg.allocator.Wrapped(d') == d')
  {
    hide Pow2, ShiftLeft, Or, ToLong;
    UidIsAllocate(cfg, x.second, x.sequence);
    UidIsAllocate(cfg, y.second, y.sequence);
    AllocateOrder(cfg.allocator, cfg.workerId, x.second - cfg.epochSeconds, x.sequence,
                  y.second - cfg.epochSeconds, y.sequence);
  }

  lemma UidsOrdered(cfg: Config, stamps: seq<Stamp>)
    requires cfg.Valid()
    requires forall i :: 0 <= i < |stamps| ==> 0 <= stamps[i].sequence <= cfg.allocator.maxSequence
    ensures cfg.allocator.DeltaSpan() > 0
    ensures Increasing(Uids(cfg, stamps)) <==> Rising(Carried(cfg, stamps))
    ensures WithinSpan(cfg, stamps) ==> (Increasing(Uids(cfg, stamps)) <==> Rising(stamps))
  {
    hide Config.Uid, BitsAllocator.Wrapped;
    WordSplit(cfg.allocator);
    var u, carried := Uids(cfg, stamps), Carried(cfg, stamps);
    forall i, j | 0 <= i < j < |stamps|
      ensures u[i] < u[j] <==> Before(carried[i].second, carried[i].sequence, carried[j].second, carried[j].sequence)
      ensures WithinSpan(cfg, stamps) ==>
        && carried[i].second == stamps[i].second - cfg.epochSeconds
        && carried[j].second == stamps[j].second - cfg.epochSeconds
    {
      UidOrder(cfg, stamps[i], stamps[j]);
    }
  }

  /**
   The UIDs a run returns are strictly increasing exactly when the stamps they carry rise: within the span of the delta
   field and its sign, exactly when no call replays its second.
   */
  lemma UidsIncrease(cfg: Config, clock: seq<int>, n: nat)
    requires cfg.Valid()
    ensures var stamps := RunCalls(cfg, clock, n).stamps;
            && cfg.allocator.DeltaSpan() > 0
            && (Increasing(Returned(cfg, clock, n)) <==> Rising(Carried(cfg, stamps)))
            && (WithinSpan(cfg, stamps) ==> (Increasing(Returned(cfg, clock, n)) <==> NeverReplays(cfg, clock, n)))
  {
    hide Uids, Carried, WithinSpan, RunCalls, Returned, Rising, Increasing;
    ReturnedAreUids(cfg, clock, n);
    RunInv(cfg, clock, n);
    RisesUnlessReplayed(cfg, clock, n);
    UidsOrdered(cfg, RunCalls(cfg, clock, n).stamps);
  }

  // ----- the first second of a run decides -----

  lemma {:induction false} SecondsNeverDecrease(cfg: Config, clock: seq<int>, n: nat, i: nat)
    requires cfg.Valid() && i < |RunCalls(cfg, clock, n).stamps|
    ensures var stamps := RunCalls(cfg, clock, n).stamps;
            stamps[0].second <= stamps[i].second <= stamps[|stamps| - 1].second
    decreases n
  {
    hide NextId, CurrentSecond, Call, SeenExhausted, Replays;
    if n > 0 {
      var h := RunCalls(cfg, clock, n - 1);
      assert RunCalls(cfg, clock, n) == Call(cfg, clock, h);
      RunInv(cfg, clock, n - 1);
      CallCases(cfg, clock, h);
      if |h.stamps| > 0 {
        SecondsNeverDecrease(cfg, clock, n - 1, if i < |h.stamps| then i else |h.stamps| - 1);
      }
    }
  }

  /** A run stays within the span if and only if its first second does. */
  lemma FirstSecondFits(cfg: Config, clock: seq<int>, n: nat)
    requires cfg.Valid()
    ensures var stamps := RunCalls(cfg, clock, n).stamps;
            WithinSpan(cfg, stamps) <==>
            stamps == [] || cfg.allocator.FitsDelta(stamps[0].second - cfg.epochSeconds)
  {
    hide RunCalls;
    var stamps := RunCalls(cfg, clock, n).stamps;
    RunInv(cfg, clock, n);
    forall i | 0 <= i < |stamps| ensures stamps[0].second <= stamps[i].second {
      SecondsNeverDecrease(cfg, clock, n, i);
    }
  }

  /**
   The sign of every UID of a run. Within the span, no UID is negative if and only if the first second is not before the
   epoch.
   */
  lemma NonNegativeFromTheEpoch(cfg: Config, clock: seq<int>, n: nat)
    requires cfg.Valid()
    ensures var stamps := RunCalls(cfg, clock, n).stamps; var uids := Returned(cfg, clock, n);
            && cfg.allocator.DeltaSpan() > 0 && |uids| == |stamps|
            && (forall i :: 0 <= i < |uids| ==>
                 (uids[i] >= 0 <==>
                  (stamps[i].second - cfg.epochSeconds) % cfg.allocator.DeltaSpan() <= cfg.allocator.maxDeltaSeconds))
            && (WithinSpan(cfg, stamps) ==>
                 ((forall i :: 0 <= i < |uids| ==> uids[i] >= 0)
                  <==> stamps == [] || stamps[0].second >= cfg.epochSeconds))
  {
    hide RunCalls, Config.Uid, Returned;
    WordSplit(cfg.allocator);
    RunInv(cfg, clock, n);
    ReturnedAreUids(cfg, clock, n);
    var stamps := RunCalls(cfg, clock, n).stamps;
    var uids := Uids(cfg, stamps);
    forall i | 0 <= i < |uids|
      ensures uids[i] >= 0 <==>
        (stamps[i].second - cfg.epochSeconds) % cfg.allocator.DeltaSpan() <= cfg.allocator.maxDeltaSeconds
      ensures WithinSpan(cfg, stamps) ==> (uids[i] >= 0 <==> stamps[i].second >= cfg.epochSeconds)
      ensures stamps[0].second <= stamps[i].second
    {
      SecondsNeverDecrease(cfg, clock, n, i);
      UidSign(cfg, stamps[i].second, stamps[i].sequence);
    }
  }

  lemma UidSign(cfg: Config, second: int, sequence: int)
    requires cfg.Valid() && 0 <= sequence <= cfg.allocator.maxSequence
    ensures cfg.allocator.DeltaSpan() > 0
    ensures cfg.Uid(second, sequence) >= 0
            <==> (second - cfg.epochSeconds) % cfg.allocator.DeltaSpan() <= cfg.allocator.maxDeltaSeconds
    ensures cfg.allocator.FitsDelta(second - cfg.epochSeconds) ==>
            (cfg.Uid(second, sequence) >= 0 <==> second >= cfg.epochSeconds)
  {
    hide Pow2, ShiftLeft, Or, ToLong;
    var d := second - cfg.epochSeconds;
    UidIsAllocate(cfg, second, sequence);
    AllocateSign(cfg.allocator, d, cfg.workerId, sequence);
    SpanMod(cfg.allocator, d, if d < 0 then 1 else 0);
    SpanMod(cfg.allocator, d + cfg.allocator.DeltaSpan(), 0);
  }

  // A generator with two sequences a second whose epoch ends after second 101.
  ghost predicate Tight(cfg: Config) {
    && cfg.Valid() && cfg.allocator.maxSequence == 1
    && cfg.allocator.maxDeltaSeconds == 1 && cfg.epochSeconds == 100
    && CurrentSecond(cfg, 101000) == Some(101) && CurrentSecond(cfg, 102000) == None
    && CurrentSecond(cfg, 97000) == Some(97) && CurrentSecond(cfg, 98000) == Some(98)
  }

  lemma TightExists() returns (cfg: Config)
    ensures Tight(cfg)
  {
    var a := TightAllocator();
    cfg := Config(a, 100, 1);
    WordSplit(a);
    ToLongIdentity(97);
    ToLongIdentity(98);
    ToLongIdentity(101);
    ToLongIdentity(102);
  }

  lemma TightAllocator() returns (a: BitsAllocator)
    ensures a.Legal() && a.maxSequence == 1 && a.maxDeltaSeconds == 1
  {
    var w: nat :| w == 61;
    a := BitsAllocator(1, w, 1, 1, Pow2(w) - 1, 1, w + 1, 1);
    assert Pow2(1) == 2;
  }

  // The third call exhausts the epoch while it spins, then the clock steps back.
  function TightClock(): seq<int> {
    [101000, 101000, 101000, 102000, 101000]
  }

  lemma TightCalls(cfg: Config)
    requires Tight(cfg)
    ensures var first, second := Stamp(101, 0), Stamp(101, 1);
      && Call(cfg, TightClock(), Start()) == History(State(101, 0, 1), [first])
      && Call(cfg, TightClock(), History(State(101, 0, 1), [first])) == History(State(101, 1, 2), [first, second])
      && Call(cfg, TightClock(), History(State(101, 0, 4), [first, second]))
         == History(State(101, 1, 5), [first, second, second])
  {
    NextSequence(cfg.allocator, 0);
    hide CurrentSecond, Config.Uid, Config.Valid, Spin, And;
  }

  lemma TightSpin(cfg: Config)
    requires Tight(cfg)
    ensures var stamps := [Stamp(101, 0), Stamp(101, 1)];
            Call(cfg, TightClock(), History(State(101, 1, 2), stamps)) == History(State(101, 0, 4), stamps)
  {
    NextSequence(cfg.allocator, 1);
    assert TightClock()[3] == 102000;
    assert Spin(cfg, TightClock(), 3, 101) == (Expired, 4);
  }

  /** The exception is real: a duplicate UID after an exhaustion error and a clock that steps back. */
  lemma ReplayDuplicates() returns (cfg: Config)
    ensures cfg.Valid()
    ensures RunCalls(cfg, TightClock(), 4).stamps == [Stamp(101, 0), Stamp(101, 1), Stamp(101, 1)]
    ensures var uids := Returned(cfg, TightClock(), 4); |uids| == 3 && uids[1] == uids[2]
  {
    hide Call, CurrentSecond, Config.Uid, Returned;
    cfg := TightExists();
    TightCalls(cfg);
    TightSpin(cfg);
    FourCalls(cfg, TightClock());
    ReturnedAreUids(cfg, TightClock(), 4);
  }

  lemma FourCalls(cfg: Config, clock: seq<int>)
    ensures RunCalls(cfg, clock, 4) == Call(cfg, clock, Call(cfg, clock, Call(cfg, clock, Call(cfg, clock, Start()))))
  {
    assert RunCalls(cfg, clock, 1) == Call(cfg, clock, RunCalls(cfg, clock, 0));
    assert RunCalls(cfg, clock, 3) == Call(cfg, clock, RunCalls(cfg, clock, 2));
  }

  // ----- a clock that never goes back -----

  ghost predicate MonotoneClock(clock: seq<int>) {
    && (forall i :: 0 <= i < |clock| ==> IsTime(clock[i]))
    && (forall i, j :: 0 <= i <= j < |clock| ==> clock[i] <= clock[j])
  }

  lemma SecondsMonotone(x: int, y: int)
    requires -MAX_TIME <= x <= y <= MAX_TIME
    ensures ToSeconds(x) <= ToSeconds(y)
  {
    ToLongIdentity(TruncatedDiv(x, 1000));
    ToLongIdentity(TruncatedDiv(y, 1000));
  }

  // Once a reading is past the epoch's end, all later readings are.
  lemma ExhaustedStays(cfg: Config, clock: seq<int>, i: nat, j: nat)
    requires MonotoneClock(clock) && i <= j < |clock| && CurrentSecond(cfg, clock[i]) == None
    ensures CurrentSecond(cfg, clock[j]) == None
  {
    SecondsMonotone(clock[i], clock[j]);
  }

  lemma MonotoneNeverReplays(cfg: Config, clock: seq<int>, n: nat)
    requires cfg.Valid() && MonotoneClock(clock)
    ensures NeverReplays(cfg, clock, n)
  {
    forall k: nat | k < n ensures !ReplaysAt(cfg, clock, k) {
      RunInv(cfg, clock, k);
      var h := RunCalls(cfg, clock, k);
      if Escaped(h) && h.state.pos < |clock| {
        var i :| 0 <= i < h.state.pos && i < |clock| && CurrentSecond(cfg, clock[i]) == None;
        ExhaustedStays(cfg, clock, i, h.state.pos);
      }
    }
  }

  /**
   Under a clock that never goes back no call replays; the UIDs increase exactly when the stamps they carry rise, and so
   always when the first second fits the span.
   */
  lemma MonotoneClockIncreases(cfg: Config, clock: seq<int>, n: nat)
    requires cfg.Valid() && MonotoneClock(clock)
    ensures var stamps := RunCalls(cfg, clock, n).stamps;
            && NeverReplays(cfg, clock, n) && cfg.allocator.DeltaSpan() > 0
            && (Increasing(Returned(cfg, clock, n)) <==> Rising(Carried(cfg, stamps)))
            && (stamps == [] || cfg.allocator.FitsDelta(stamps[0].second - cfg.epochSeconds) ==>
                 Increasing(Returned(cfg, clock, n)))
  {
    hide RunCalls, Returned, Carried;
    MonotoneNeverReplays(cfg, clock, n);
    FirstSecondFits(cfg, clock, n);
    UidsIncrease(cfg, clock, n);
  }

  // Two seconds far before the epoch, on a clock that never goes back.
  function EarlyClock(): seq<int> {
    [97000, 98000]
  }

  lemma EarlyCalls(cfg: Config)
    requires Tight(cfg)
    ensures Call(cfg, EarlyClock(), Start()) == History(State(97, 0, 1), [Stamp(97, 0)])
    ensures Call(cfg, EarlyClock(), History(State(97, 0, 1), [Stamp(97, 0)]))
            == History(State(98, 0, 2), [Stamp(97, 0), Stamp(98, 0)])
  {
  }

  lemma TwoCalls(cfg: Config, clock: seq<int>)
    ensures RunCalls(cfg, clock, 2) == Call(cfg, clock, Call(cfg, clock, Start()))
  {
    assert RunCalls(cfg, clock, 1) == Call(cfg, clock, RunCalls(cfg, clock, 0));
  }

  lemma EarlyCarried(cfg: Config)
    requires Tight(cfg) && cfg.allocator.DeltaSpan() > 0
    ensures !Rising(Carried(cfg, [Stamp(97, 0), Stamp(98, 0)]))
  {
    assert cfg.allocator.Wrapped(97 - 100) == 1 && cfg.allocator.Wrapped(98 - 100) == -2;
    var carried := Carried(cfg, [Stamp(97, 0), Stamp(98, 0)]);
    assert carried[0] == Stamp(1, 0) && carried[1] == Stamp(-2, 0);
  }

  /** The exception is real: far enough before the epoch the delta wraps and a later UID is smaller. */
  lemma EarlyClockDecreases() returns (cfg: Config)
    ensures cfg.Valid() && MonotoneClock(EarlyClock())
    ensures RunCalls(cfg, EarlyClock(), 2).stamps == [Stamp(97, 0), Stamp(98, 0)]
    ensures !Increasing(Returned(cfg, EarlyClock(), 2))
  {
    hide RunCalls, Call, Returned, Carried, WithinSpan, NeverReplays, Rising, CurrentSecond;
    cfg := TightExists();
    EarlyCalls(cfg);
    TwoCalls(cfg, EarlyClock());
    UidsIncrease(cfg, EarlyClock(), 2);
    WordSplit(cfg.allocator);
    EarlyCarried(cfg);
  }

  lemma PositionsGrow(cfg: Config, clock: seq<int>, st: State)
    ensures NextId(cfg, clock, st).0.pos >= st.pos
    ensures NextId(cfg, clock, st).1.Exhausted? ==> SeenExhausted(cfg, clock, NextId(cfg, clock, st).0.pos)
  {
    var (st', outcome) := NextId(cfg, clock, st);
    if outcome.Exhausted? {
      assert 0 < st'.pos <= |clock| && CurrentSecond(cfg, clock[st'.pos - 1]) == None;
    }
  }

  lemma RefusedCall(cfg: Config, clock: seq<int>, h: History)
    requires MonotoneClock(clock) && SeenExhausted(cfg, clock, h.state.pos)
    ensures var (st, outcome) := NextId(cfg, clock, h.state);
            (outcome == Exhausted || outcome == NoReading) && SeenExhausted(cfg, clock, st.pos)
    ensures Call(cfg, clock, h).stamps == h.stamps && SeenExhausted(cfg, clock, Call(cfg, clock, h).state.pos)
  {
    if h.state.pos < |clock| {
      var i :| 0 <= i < h.state.pos && i < |clock| && CurrentSecond(cfg, clock[i]) == None;
      ExhaustedStays(cfg, clock, i, h.state.pos);
    }
  }

  lemma FirstExhaustion(cfg: Config, clock: seq<int>, h: History)
    requires NextId(cfg, clock, h.state).1.Exhausted?
    ensures Call(cfg, clock, h).stamps == h.stamps && SeenExhausted(cfg, clock, Call(cfg, clock, h).state.pos)
  {
    PositionsGrow(cfg, clock, h.state);
  }

  lemma {:induction false} ExhaustionStaysSeen(cfg: Config, clock: seq<int>, n: nat, m: nat)
    requires MonotoneClock(clock) && n <= m && SeenExhausted(cfg, clock, RunCalls(cfg, clock, n).state.pos)
    ensures RunCalls(cfg, clock, m).stamps == RunCalls(cfg, clock, n).stamps
    ensures SeenExhausted(cfg, clock, RunCalls(cfg, clock, m).state.pos)
    decreases m
  {
    hide NextId, Call, SeenExhausted, MonotoneClock, CurrentSecond;
    if n < m {
      ExhaustionStaysSeen(cfg, clock, n, m - 1);
      RefusedCall(cfg, clock, RunCalls(cfg, clock, m - 1));
    }
  }

  /** Under a clock that never goes back, after the first exhaustion error every later call is refused too. */
  lemma ExhaustionIsFinal(cfg: Config, clock: seq<int>, n: nat, m: nat)
    requires MonotoneClock(clock) && n < m
    ensures OutcomeOf(cfg, clock, n).Exhausted? ==>
      && (OutcomeOf(cfg, clock, m) == Exhausted || OutcomeOf(cfg, clock, m) == NoReading)
      && Returned(cfg, clock, m) == Returned(cfg, clock, n)
  {
    hide NextId, Call, SeenExhausted, MonotoneClock, CurrentSecond, Returned, Config.Uid;
    ReturnedAreUids(cfg, clock, n);
    ReturnedAreUids(cfg, clock, m);
    if OutcomeOf(cfg, clock, n).Exhausted? {
      FirstExhaustion(cfg, clock, RunCalls(cfg, clock, n));
      assert RunCalls(cfg, clock, n + 1) == Call(cfg, clock, RunCalls(cfg, clock, n));
      ExhaustionStaysSeen(cfg, clock, n + 1, m);
      RefusedCall(cfg, clock, RunCalls(cfg, clock, m));
    }
  }

  // ----- the quota of a second -----

  // Within a second the sequence counts on by one; a new second starts at zero.
  ghost predicate Counts(stamps: seq<Stamp>) {
    forall i :: 0 < i < |stamps| ==>
      if stamps[i].second == stamps[i - 1].second then stamps[i].sequence == stamps[i - 1].sequence + 1
      else stamps[i].second > stamps[i - 1].second && stamps[i].sequence == 0
  }

  lemma {:induction false} RunCounts(cfg: Config, clock: seq<int>, n: nat)
    requires cfg.Valid() && NeverReplays(cfg, clock, n)
    ensures Counts(RunCalls(cfg, clock, n).stamps)
    decreases n
  {
    hide NextId, CurrentSecond, NeverReplays, Replays, ReplaysAt;
    if n > 0 {
      NeverReplaysStep(cfg, clock, n - 1);
      RunCounts(cfg, clock, n - 1);
      RunInv(cfg, clock, n - 1);
      assert ReplaysAt(cfg, clock, n - 1) == Replays(cfg, clock, RunCalls(cfg, clock, n - 1)) by {
        ReplaysAtMeans(cfg, clock, n - 1);
      }
      CallCounts(cfg, clock, RunCalls(cfg, clock, n - 1));
    }
  }

  lemma ReplaysAtMeans(cfg: Config, clock: seq<int>, k: nat)
    ensures ReplaysAt(cfg, clock, k) == Replays(cfg, clock, RunCalls(cfg, clock, k))
  {
  }

  lemma CallCounts(cfg: Config, clock: seq<int>, h: History)
    requires cfg.Valid() && Inv(cfg, clock, h) && !Replays(cfg, clock, h) && Counts(h.stamps)
    ensures Counts(Call(cfg, clock, h).stamps)
  {
    CallCases(cfg, clock, h);
  }

  // ----- repetitions -----

  // All seconds of the run lie within one span of the delta field and its sign.
  ghost predicate WithinOneSpan(cfg: Config, stamps: seq<Stamp>) {
    stamps != [] ==> stamps[|stamps| - 1].second - stamps[0].second < cfg.allocator.DeltaSpan()
  }

  lemma {:induction false} FirstStamp(cfg: Config, clock: seq<int>, n: nat)
    requires cfg.Valid()
    ensures var stamps := RunCalls(cfg, clock, n).stamps; stamps != [] ==> stamps[0].sequence <= 1
    decreases n
  {
    hide NextId, CurrentSecond, Call, SeenExhausted, Replays;
    if n > 0 {
      var h := RunCalls(cfg, clock, n - 1);
      assert RunCalls(cfg, clock, n) == Call(cfg, clock, h);
      FirstStamp(cfg, clock, n - 1);
      RunInv(cfg, clock, n - 1);
      CallCases(cfg, clock, h);
    }
  }

  // The sequences below the last one of its second have been issued before it.
  lemma {:induction false} SequenceIssued(stamps: seq<Stamp>, sequence: int) returns (i: nat)
    requires Counts(stamps) && stamps != [] && stamps[0].sequence <= 1
    requires 1 <= sequence <= stamps[|stamps| - 1].sequence
    ensures i < |stamps| && stamps[i] == Stamp(stamps[|stamps| - 1].second, sequence)
    decreases |stamps|
  {
    i := |stamps| - 1;
    if stamps[i].sequence != sequence {
      i := SequenceIssued(stamps[..i], sequence);
    }
  }

  // A replay issues sequence 1 of its second once more.
  lemma ReplayRepeats(cfg: Config, clock: seq<int>, k: nat) returns (i: nat)
    requires cfg.Valid() && NeverReplays(cfg, clock, k) && ReplaysAt(cfg, clock, k)
    ensures var stamps := RunCalls(cfg, clock, k + 1).stamps;
            i < |stamps| - 1 && stamps[i] == stamps[|stamps| - 1]
  {
    hide NextId, CurrentSecond, NeverReplays, Call;
    var h := RunCalls(cfg, clock, k);
    assert RunCalls(cfg, clock, k + 1) == Call(cfg, clock, h);
    RunInv(cfg, clock, k);
    CallCases(cfg, clock, h);
    RunCounts(cfg, clock, k);
    FirstStamp(cfg, clock, k);
    WordSplit(cfg.allocator);
    i := SequenceIssued(h.stamps, 1);
  }

  lemma RepeatStays(earlier: seq<int>, more: seq<int>)
    requires !NoDuplicates(earlier)
    ensures !NoDuplicates(earlier + more)
  {
    var i, j :| 0 <= i < j < |earlier| && earlier[i] == earlier[j];
    assert (earlier + more)[i] == (earlier + more)[j];
  }

  lemma SameStampSameUid(cfg: Config, stamps: seq<Stamp>, i: nat, j: nat)
    requires i < j < |stamps| && stamps[i] == stamps[j]
    ensures !NoDuplicates(Uids(cfg, stamps))
  {
    hide Config.Uid;
    assert Uids(cfg, stamps)[i] == Uids(cfg, stamps)[j];
  }

  lemma {:induction false} ReplayedRepeats(cfg: Config, clock: seq<int>, n: nat)
    requires cfg.Valid() && !NeverReplays(cfg, clock, n)
    ensures !NoDuplicates(Returned(cfg, clock, n))
    decreases n
  {
    hide NeverReplays, RunCalls, ReplaysAt, Uids, NoDuplicates, OutcomeOf;
    if n == 0 {
      NoCallNoReplay(cfg, clock);
    } else {
      NeverReplaysStep(cfg, clock, n - 1);
      if NeverReplays(cfg, clock, n - 1) {
        var i := ReplayRepeats(cfg, clock, n - 1);
        ReturnedAreUids(cfg, clock, n);
        SameStampSameUid(cfg, RunCalls(cfg, clock, n).stamps, i, |RunCalls(cfg, clock, n).stamps| - 1);
      } else {
        ReplayedRepeats(cfg, clock, n - 1);
        RepeatStays(Returned(cfg, clock, n - 1), Answer(OutcomeOf(cfg, clock, n - 1)));
      }
    }
  }

  lemma NoCallNoReplay(cfg: Config, clock: seq<int>)
    ensures NeverReplays(cfg, clock, 0)
  {
  }

  lemma StampsDiffer(cfg: Config, x: Stamp, y: Stamp)
    requires cfg.Valid()
    requires 0 <= x.sequence <= cfg.allocator.maxSequence && 0 <= y.sequence <= cfg.allocator.maxSequence
    requires Before(x.second, x.sequence, y.second, y.sequence) && y.second - x.second < cfg.allocator.DeltaSpan()
    ensures cfg.Uid(x.second, x.sequence) != cfg.Uid(y.second, y.sequence)
  {
    hide Pow2, ShiftLeft, Or, ToLong;
    var a, d, d' := cfg.allocator, x.second - cfg.epochSeconds, y.second - cfg.epochSeconds;
    UidIsAllocate(cfg, x.second, x.sequence);
    UidIsAllocate(cfg, y.second, y.sequence);
    if a.Allocate(d, cfg.workerId, x.sequence) == a.Allocate(d', cfg.workerId, y.sequence) {
      AllocateInjective(a, d, cfg.workerId, x.sequence, d', cfg.workerId, y.sequence);
    }
  }

  /**
   A replay always returns a UID twice; a run that never replays returns no UID twice while its seconds lie within one
   span, wherever the epoch is.
   */
  lemma DistinctUnlessReplayed(cfg: Config, clock: seq<int>, n: nat)
    requires cfg.Valid()
    ensures NoDuplicates(Returned(cfg, clock, n)) ==> NeverReplays(cfg, clock, n)
    ensures WithinOneSpan(cfg, RunCalls(cfg, clock, n).stamps) ==>
            (NoDuplicates(Returned(cfg, clock, n)) <==> NeverReplays(cfg, clock, n))
  {
    hide NeverReplays, RunCalls, Config.Uid, Returned;
    if !NeverReplays(cfg, clock, n) {
      ReplayedRepeats(cfg, clock, n);
    } else if WithinOneSpan(cfg, RunCalls(cfg, clock, n).stamps) {
      var stamps, uids := RunCalls(cfg, clock, n).stamps, Returned(cfg, clock, n);
      RunInv(cfg, clock, n);
      RisesUnlessReplayed(cfg, clock, n);
      ReturnedAreUids(cfg, clock, n);
      forall i, j | 0 <= i < j < |uids| ensures uids[i] != uids[j] {
        SecondsNeverDecrease(cfg, clock, n, i);
        SecondsNeverDecrease(cfg, clock, n, j);
        StampsDiffer(cfg, stamps[i], stamps[j]);
      }
    }
  }

  /** Every returned UID carries this node's worker id. */
  lemma ReturnedCarryWorker(cfg: Config, clock: seq<int>, n: nat, x: nat)
    requires cfg.Valid() && x < |Returned(cfg, clock, n)|
    ensures cfg.allocator.DecodeWorkerId(Returned(cfg, clock, n)[x]) == cfg.workerId
  {
    hide RunCalls, Returned, Config.Uid, BitsAllocator.DecodeWorkerId;
    RunInv(cfg, clock, n);
    ReturnedAreUids(cfg, clock, n);
    var stamp := RunCalls(cfg, clock, n).stamps[x];
    UidDecodes(cfg, stamp.second, stamp.sequence);
  }

  // ----- the seconds a run spans -----

  ghost function Seconds(stamps: seq<Stamp>): set<int> {
    set i | 0 <= i < |stamps| :: stamps[i].second
  }

  lemma SecondsSnoc(rest: seq<Stamp>, last: Stamp)
    ensures Seconds(rest + [last]) == Seconds(rest) + {last.second}
  {
    var all := rest + [last];
    forall x | x in Seconds(rest) ensures x in Seconds(all) {
      var i :| 0 <= i < |rest| && rest[i].second == x;
      assert all[i].second == x;
    }
    assert all[|rest|].second == last.second;
  }

  lemma OneMoreTimes(perSecond: int, k: int)
    ensures perSecond * (k + 1) == perSecond * k + perSecond
  {
  }

  lemma {:induction false} LatestSecond(stamps: seq<Stamp>, i: nat)
    requires Counts(stamps) && i < |stamps|
    ensures stamps[i].second <= stamps[|stamps| - 1].second
    decreases |stamps| - i
  {
    if i + 1 < |stamps| {
      LatestSecond(stamps, i + 1);
      assert stamps[i].second <= stamps[i + 1].second;
    }
  }

  // A stamp of the same second adds no second, any other adds one.
  lemma SecondsStep(stamps: seq<Stamp>)
    requires Counts(stamps) && |stamps| >= 2
    ensures var rest, n := stamps[..|stamps| - 1], |stamps|;
            |Seconds(stamps)| == |Seconds(rest)| + (if stamps[n - 1].second == stamps[n - 2].second then 0 else 1)
  {
    var last, rest := stamps[|stamps| - 1], stamps[..|stamps| - 1];
    assert stamps == rest + [last];
    SecondsSnoc(rest, last);
    if last.second == rest[|rest| - 1].second {
      assert last.second in Seconds(rest);
      assert Seconds(stamps) == Seconds(rest);
    } else {
      forall i | 0 <= i < |rest| ensures rest[i].second != last.second {
        LatestSecond(rest, i);
      }
      assert last.second !in Seconds(rest);
    }
  }

  lemma {:induction false} QuotaOfStamps(perSecond: int, stamps: seq<Stamp>)
    requires Counts(stamps) && stamps != [] && perSecond > 0
    requires forall i :: 0 <= i < |stamps| ==> 0 <= stamps[i].sequence < perSecond
    ensures |stamps| <= perSecond * |Seconds(stamps)| + stamps[|stamps| - 1].sequence + 1 - perSecond
    decreases |stamps|
  {
    var rest := stamps[..|stamps| - 1];
    if rest == [] {
      assert stamps[0].second in Seconds(stamps);
      MulMonotone(1, |Seconds(stamps)|, perSecond);
    } else {
      QuotaOfStamps(perSecond, rest);
      SecondsStep(stamps);
      OneMoreTimes(perSecond, |Seconds(rest)|);
    }
  }

  /** Per-second quota: n UIDs of a run that never replays span at least n / (maxSequence + 1) distinct seconds. */
  lemma SecondsSpanned(cfg: Config, clock: seq<int>, n: nat)
    requires cfg.Valid() && NeverReplays(cfg, clock, n)
    ensures var stamps := RunCalls(cfg, clock, n).stamps;
            |stamps| <= (cfg.allocator.maxSequence + 1) * |Seconds(stamps)|
  {
    var stamps := RunCalls(cfg, clock, n).stamps;
    RunCounts(cfg, clock, n);
    RunInv(cfg, clock, n);
    if stamps != [] {
      QuotaOfStamps(cfg.allocator.maxSequence + 1, stamps);
    }
  }
}
