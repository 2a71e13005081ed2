/**
 The default generator against an adversarial clock, on values
 (src/impl/default-uid-generator.ts). The clock is the sequence of values Date.now() returns,
 one per reading; a run ends where the readings end.
 */
module DefaultModel {
  import opened JavaLong
  import opened BitsAllocation
  import opened Wrappers

  datatype Config = Config(allocator: BitsAllocator, epochSeconds: int, workerId: int) {
    ghost predicate Valid() {
      allocator.Legal() && 0 <= workerId <= allocator.maxWorkerId
    }

    function Uid(second: int, sequence: int): int {
      allocator.Allocate(Subtract(second, epochSeconds), workerId, sequence)
    }
  }

  // The 64-bit subtraction of the epoch cannot be told from the exact one.
  lemma UidIsAllocate(cfg: Config, second: int, sequence: int)
    requires cfg.Valid() && 0 <= sequence <= cfg.allocator.maxSequence
    ensures cfg.Uid(second, sequence) == cfg.allocator.Allocate(second - cfg.epochSeconds, cfg.workerId, sequence)
  {
    hide ToLong, Or, ShiftLeft, Pow2;
    AllocateWrappedDelta(cfg.allocator, second - cfg.epochSeconds, cfg.workerId, sequence);
  }

  // BigInt division truncates toward zero.
  function TruncatedDiv(a: int, b: int): int
    requires b > 0
  {
    if a >= 0 then a / b else -((-a) / b)
  }

  // TimeUnit.MILLISECONDS.toSeconds
  function ToSeconds(millis: int): int {
    ToLong(TruncatedDiv(millis, 1000))
  }

  // TimeUnit.SECONDS.toMillis
  function ToMillis(seconds: int): int {
    ToLong(seconds * 1000)
  }

  // The range of ECMAScript time values, which Date.now() returns.
  const MAX_TIME := 8_640_000_000_000_000

  predicate IsTime(millis: int) {
    -MAX_TIME <= millis <= MAX_TIME
  }

  // The whole seconds in a number of milliseconds, towards 1970 from either side.
  predicate WholeSeconds(second: int, millis: int) {
    if millis >= 0 then 1000 * second <= millis < 1000 * second + 1000
    else 1000 * second - 1000 < millis <= 1000 * second
  }

  /** A time value falls into its second, and into no other. */
  lemma SecondOfReading(millis: int)
    requires IsTime(millis)
    ensures WholeSeconds(ToSeconds(millis), millis)
    ensures forall second :: WholeSeconds(second, millis) ==> second == ToSeconds(millis)
  {
    ToLongIdentity(TruncatedDiv(millis, 1000));
  }

  // getCurrentSecond; None where it raises 'Timestamp bits is exhausted'.
  function CurrentSecond(cfg: Config, millis: int): Option<int> {
    var second := ToSeconds(millis);
    if second - cfg.epochSeconds > cfg.allocator.maxDeltaSeconds then None else Some(second)
  }

  lemma MillisOfSecond(second: int)
    requires IsTime(1000 * second)
    ensures ToMillis(second) == 1000 * second && ToSeconds(ToMillis(second)) == second
  {
    ToLongIdentity(1000 * second);
    SecondOfReading(1000 * second);
  }

  /**
   Which readings are refused: those in a second beyond the last one of the delta field; from 1970 on, all from the
   first millisecond after that second.
   */
  lemma RefusedReadings(cfg: Config, millis: int)
    requires 0 <= millis <= MAX_TIME
    ensures var last := cfg.epochSeconds + cfg.allocator.maxDeltaSeconds;
            && (CurrentSecond(cfg, millis) == None <==> millis >= 1000 * (last + 1))
            && (CurrentSecond(cfg, millis).Some? ==> WholeSeconds(CurrentSecond(cfg, millis).value, millis))
  {
    SecondOfReading(millis);
  }

  // pos: readings consumed so far
  datatype State = State(lastSecond: int, sequence: int, pos: nat)

  // NoReading: the call still waits for the clock where the readings end.
  datatype Outcome = Issued(uid: int) | ClockMovedBackwards(refusedSeconds: int) | Exhausted | NoReading

  datatype Spun = Found(second: int) | Expired | Silent

  // getNextSecond: read until a second after `last` shows up, and the position reached.
  function Spin(cfg: Config, clock: seq<int>, pos: nat, last: int): (r: (Spun, nat))
    ensures r.0.Found? ==>
      r.0.second > last && pos < r.1 <= |clock| && CurrentSecond(cfg, clock[r.1 - 1]) == Some(r.0.second)
    ensures r.0.Expired? ==> pos < r.1 <= |clock| && CurrentSecond(cfg, clock[r.1 - 1]) == None
    ensures r.0.Silent? ==> r.1 >= |clock| && forall i :: pos <= i < |clock| ==>
      CurrentSecond(cfg, clock[i]).Some? && CurrentSecond(cfg, clock[i]).value <= last
    ensures r.1 >= pos
    ensures forall i :: pos <= i < r.1 - 1 && i < |clock| ==>
      CurrentSecond(cfg, clock[i]).Some? && CurrentSecond(cfg, clock[i]).value <= last
    decreases |clock| - pos
  {
    if pos >= |clock| then (Silent, pos)
    else match CurrentSecond(cfg, clock[pos])
      case None => (Expired, pos + 1)
      case Some(second) => if second <= last then Spin(cfg, clock, pos + 1, last) else (Found(second), pos + 1)
  }

  function NextId(cfg: Config, clock: seq<int>, st: State): (State, Outcome) {
    if st.pos >= |clock| then (st, NoReading)
    else match CurrentSecond(cfg, clock[st.pos])
      case None => (st.(pos := st.pos + 1), Exhausted)
      case Some(second) =>
        if second < st.lastSecond then (st.(pos := st.pos + 1), ClockMovedBackwards(st.lastSecond - second))
        else if second > st.lastSecond then (State(second, 0, st.pos + 1), Issued(cfg.Uid(second, 0)))
        else
          var next := And(st.sequence + 1, cfg.allocator.maxSequence);
          if next != 0 then (State(second, next, st.pos + 1), Issued(cfg.Uid(second, next)))
          else
            // the sequence is already reset when the spin fails
            match Spin(cfg, clock, st.pos + 1, st.lastSecond)
            case (Found(later), pos) => (State(later, 0, pos), Issued(cfg.Uid(later, 0)))
            case (Expired, pos) => (State(st.lastSecond, 0, pos), Exhausted)
            case (Silent, pos) => (State(st.lastSecond, 0, pos), NoReading)
  }

  // ----- one call -----

  // The sequence counts modulo the number of sequences.
  lemma NextSequence(a: BitsAllocator, sequence: int)
    requires a.Legal() && 0 <= sequence <= a.maxSequence
    ensures a.maxSequence >= 1
    ensures And(sequence + 1, a.maxSequence) == if sequence == a.maxSequence then 0 else sequence + 1
  {
    var n := a.maxSequence + 1;
    WordSplit(a);
    AndMask(sequence + 1, a.sequenceBits);
    if sequence == a.maxSequence {
      DivModUnique(n, n, 1, 0);
    } else {
      DivModUnique(sequence + 1, n, 0, sequence + 1);
    }
    Pow2Bound(a.sequenceBits);
    ToLongIdentity((sequence + 1) % n);
  }

  // second is the second of the last reading before pos.
  ghost predicate LastRead(clock: seq<int>, pos: nat, second: int) {
    0 < pos <= |clock| && second == ToSeconds(clock[pos - 1])
  }

  /**
   What a returned UID says: the second of the last reading the call has used, this worker, and the sequence the state
   is left with; a sequence follows its predecessor within a second and restarts with a new one.
   */
  lemma IssuedFields(cfg: Config, clock: seq<int>, st: State)
    requires cfg.Valid() && 0 <= st.sequence <= cfg.allocator.maxSequence
    ensures var (st', outcome) := NextId(cfg, clock, st); var a := cfg.allocator;
            && 0 <= st'.sequence <= a.maxSequence && a.DeltaSpan() > 0
            && (outcome.Issued? ==>
                 && LastRead(clock, st'.pos, st'.lastSecond)
                 && (if st'.lastSecond == st.lastSecond then st'.sequence == st.sequence + 1
                     else st'.lastSecond > st.lastSecond && st'.sequence == 0)
                 && a.DecodeSequence(outcome.uid) == st'.sequence
                 && a.DecodeWorkerId(outcome.uid) == cfg.workerId
                 && a.DecodeDeltaSeconds(outcome.uid) == (st'.lastSecond - cfg.epochSeconds) % a.DeltaSpan())
  {
    hide Config.Uid, ToSeconds, And, Pow2;
    NextSequence(cfg.allocator, st.sequence);
    SpanMod(cfg.allocator, 0, 0);
    IssuedIsUid(cfg, clock, st);
    var (st', outcome) := NextId(cfg, clock, st);
    if outcome.Issued? {
      UidDecodes(cfg, st'.lastSecond, st'.sequence);
    }
  }

  // The UID of a call is that of the second and sequence its state is left with.
  lemma IssuedIsUid(cfg: Config, clock: seq<int>, st: State)
    ensures var (st', outcome) := NextId(cfg, clock, st);
            outcome.Issued? ==> outcome.uid == cfg.Uid(st'.lastSecond, st'.sequence)
  {
  }

  lemma UidDecodes(cfg: Config, second: int, sequence: int)
    requires cfg.Valid() && 0 <= sequence <= cfg.allocator.maxSequence
    ensures var a, uid := cfg.allocator, cfg.Uid(second, sequence);
            && a.DeltaSpan() > 0
            && a.DecodeSequence(uid) == sequence && a.DecodeWorkerId(uid) == cfg.workerId
            && a.DecodeDeltaSeconds(uid) == (second - cfg.epochSeconds) % a.DeltaSpan()
  {
    hide Pow2, ShiftLeft, Or, ToLong;
    SpanMod(cfg.allocator, 0, 0);
    UidIsAllocate(cfg, second, sequence);
    DecodeAllocate(cfg.allocator, second - cfg.epochSeconds, cfg.workerId, sequence);
  }

  /**
   What the next reading decides: an exhausted one changes nothing but the position; a second earlier than the last one
   is refused with the positive number of seconds it lies behind; a later second, or one with sequences left, issues at
   once; otherwise a UID has to wait for the first reading of a later second, unless an exhausted one comes first.
   */
  lemma ReadingDecides(cfg: Config, clock: seq<int>, st: State)
    requires cfg.Valid() && 0 <= st.sequence <= cfg.allocator.maxSequence && st.pos < |clock|
    ensures var (st', outcome) := NextId(cfg, clock, st); var second := ToSeconds(clock[st.pos]);
            if second > cfg.epochSeconds + cfg.allocator.maxDeltaSeconds then
              outcome == Exhausted && st' == st.(pos := st.pos + 1)
            else if second < st.lastSecond then
              && outcome.ClockMovedBackwards? && st' == st.(pos := st.pos + 1)
              && outcome.refusedSeconds > 0 && second + outcome.refusedSeconds == st.lastSecond
            else if second > st.lastSecond || st.sequence < cfg.allocator.maxSequence then
              outcome.Issued? && st'.pos == st.pos + 1
            else
              && !outcome.ClockMovedBackwards?
              && (outcome.Exhausted? ==>
                   && st.pos + 1 < st'.pos <= |clock| && st'.lastSecond == st.lastSecond && st'.sequence == 0
                   && ToSeconds(clock[st'.pos - 1]) > cfg.epochSeconds + cfg.allocator.maxDeltaSeconds)
              && (outcome.NoReading? ==>
                   forall i :: st.pos < i < |clock| ==>
                     && ToSeconds(clock[i]) <= st.lastSecond
                     && ToSeconds(clock[i]) <= cfg.epochSeconds + cfg.allocator.maxDeltaSeconds)
              && (outcome.Issued? ==>
                   && st.pos + 1 < st'.pos <= |clock| && ToSeconds(clock[st'.pos - 1]) > st.lastSecond
                   && forall i :: st.pos < i < st'.pos - 1 ==> ToSeconds(clock[i]) <= st.lastSecond)
  {
    hide ToSeconds, And, Config.Uid;
    NextSequence(cfg.allocator, st.sequence);
  }

  // ----- runs -----

  datatype Stamp = Stamp(second: int, sequence: int)

  datatype History = History(state: State, stamps: seq<Stamp>)

  function Start(): History {
    History(State(-1, 0, 0), [])
  }

  function Call(cfg: Config, clock: seq<int>, h: History): History {
    var (st, outcome) := NextId(cfg, clock, h.state);
    History(st, if outcome.Issued? then h.stamps + [Stamp(st.lastSecond, st.sequence)] else h.stamps)
  }

  // The first n calls.
  function RunCalls(cfg: Config, clock: seq<int>, n: nat): History {
    if n == 0 then Start() else Call(cfg, clock, RunCalls(cfg, clock, n - 1))
  }

  // st is the state after n calls.
  ghost predicate IsAfter(cfg: Config, clock: seq<int>, n: nat, st: State) {
    st == RunCalls(cfg, clock, n).state
  }

  lemma AfterStart(cfg: Config, clock: seq<int>)
    ensures IsAfter(cfg, clock, 0, Start().state)
  {
  }

  lemma AfterNextId(cfg: Config, clock: seq<int>, n: nat, st: State)
    requires IsAfter(cfg, clock, n, st)
    ensures IsAfter(cfg, clock, n + 1, NextId(cfg, clock, st).0)
  {
    assert RunCalls(cfg, clock, n + 1) == Call(cfg, clock, RunCalls(cfg, clock, n));
  }

  // An exhaustion error escaped from the spin: the sequence is reset, the second is not.
  predicate Escaped(h: History) {
    |h.stamps| > 0 && h.stamps[|h.stamps| - 1] != Stamp(h.state.lastSecond, h.state.sequence)
  }

  ghost predicate Inv(cfg: Config, clock: seq<int>, h: History) {
    var max := cfg.allocator.maxSequence;
    && 0 <= h.state.sequence <= max
    && (h.stamps == [] ==> h.state.lastSecond == -1 && h.state.sequence == 0)
    && (h.stamps != [] ==>
         var last := h.stamps[|h.stamps| - 1];
         last.second == h.state.lastSecond && (Escaped(h) ==> last.sequence == max && h.state.sequence == 0))
    && (forall i :: 0 <= i < |h.stamps| ==>
         && 0 <= h.stamps[i].sequence <= max
         && -1 <= h.stamps[i].second <= cfg.epochSeconds + cfg.allocator.maxDeltaSeconds)
    && (Escaped(h) ==> h.state.pos >= |clock| || SeenExhausted(cfg, clock, h.state.pos))
  }

  ghost predicate SeenExhausted(cfg: Config, clock: seq<int>, pos: nat) {
    exists i :: 0 <= i < pos && i < |clock| && CurrentSecond(cfg, clock[i]) == None
  }

  // What one call does to the history, case by case.
  lemma CallCases(cfg: Config, clock: seq<int>, h: History)
    requires cfg.Valid() && Inv(cfg, clock, h)
    ensures Inv(cfg, clock, Call(cfg, clock, h))
    ensures var h' := Call(cfg, clock, h);
            h'.stamps == h.stamps ||
            (exists stamp: Stamp :: h'.stamps == h.stamps + [stamp]
              && stamp == Stamp(h'.state.lastSecond, h'.state.sequence)
              && (if stamp.second == h.state.lastSecond then stamp.sequence == h.state.sequence + 1
                  else stamp.second > h.state.lastSecond && stamp.sequence == 0))
    ensures Replays(cfg, clock, h) ==>
            Call(cfg, clock, h).stamps == h.stamps + [Stamp(h.state.lastSecond, 1)]
    ensures var h' := Call(cfg, clock, h);
            h'.stamps != h.stamps && h'.state.lastSecond == h.state.lastSecond && Escaped(h) ==> Replays(cfg, clock, h)
  {
    NextSequence(cfg.allocator, h.state.sequence);
    var h' := Call(cfg, clock, h);
    if h'.stamps != h.stamps {
      assert h'.stamps == h.stamps + [Stamp(h'.state.lastSecond, h'.state.sequence)];
    }
  }

  // The next call will read the old second again although its sequences are used up.
  predicate Replays(cfg: Config, clock: seq<int>, h: History) {
    && Escaped(h)
    && h.state.pos < |clock|
    && CurrentSecond(cfg, clock[h.state.pos]) == Some(h.state.lastSecond)
  }

  // Call number k replays.
  predicate ReplaysAt(cfg: Config, clock: seq<int>, k: nat) {
    Replays(cfg, clock, RunCalls(cfg, clock, k))
  }

  lemma {:induction false} RunInv(cfg: Config, clock: seq<int>, n: nat)
    requires cfg.Valid()
    ensures Inv(cfg, clock, RunCalls(cfg, clock, n))
    decreases n
  {
    if n == 0 {
      WordSplit(cfg.allocator);
    } else {
      RunInv(cfg, clock, n - 1);
      CallCases(cfg, clock, RunCalls(cfg, clock, n - 1));
    }
  }

  ghost predicate Rising(stamps: seq<Stamp>) {
    forall i, j :: 0 <= i < j < |stamps| ==>
      Before(stamps[i].second, stamps[i].sequence, stamps[j].second, stamps[j].sequence)
  }

  ghost predicate NeverReplays(cfg: Config, clock: seq<int>, n: nat) {
    forall k: nat :: k < n ==> !ReplaysAt(cfg, clock, k)
  }

  lemma NeverReplaysStep(cfg: Config, clock: seq<int>, n: nat)
    ensures NeverReplays(cfg, clock, n + 1) <==> NeverReplays(cfg, clock, n) && !ReplaysAt(cfg, clock, n)
  {
  }

  /**
   For every sequence of clock readings, backward jumps included: (second, sequence) rises lexicographically over all
   successful calls, unless an exhaustion error has escaped the spin and a later call, after any number of refused ones,
   reads the old second again. That exception is exact.
   */
  lemma {:induction false} RisesUnlessReplayed(cfg: Config, clock: seq<int>, n: nat)
    requires cfg.Valid()
    ensures Rising(RunCalls(cfg, clock, n).stamps) <==> NeverReplays(cfg, clock, n)
    decreases n
  {
    if n > 0 {
      RisesUnlessReplayed(cfg, clock, n - 1);
      NeverReplaysStep(cfg, clock, n - 1);
      RunInv(cfg, clock, n - 1);
      StepRises(cfg, clock, RunCalls(cfg, clock, n - 1));
    }
  }

  lemma StepRises(cfg: Config, clock: seq<int>, h: History)
    requires cfg.Valid() && Inv(cfg, clock, h)
    ensures Rising(Call(cfg, clock, h).stamps) <==> Rising(h.stamps) && !Replays(cfg, clock, h)
  {
    var h' := Call(cfg, clock, h);
    CallCases(cfg, clock, h);
    WordSplit(cfg.allocator);
    RisingStep(h.stamps, h'.stamps);
  }

  ghost predicate StepsUp(s: seq<Stamp>, stamp: Stamp) {
    s == [] || Before(s[|s| - 1].second, s[|s| - 1].sequence, stamp.second, stamp.sequence)
  }

  lemma RisingStep(s: seq<Stamp>, s': seq<Stamp>)
    requires s' == s || (|s'| == |s| + 1 && s' == s + [s'[|s|]])
    ensures Rising(s') <==> Rising(s) && (s' == s || StepsUp(s, s'[|s|]))
  {
    if s' != s {
      forall i | 0 <= i < |s| ensures s'[i] == s[i] { }
    }
  }
}
