/**
 The claim / finish / put protocol of the ring (src/buffer/ring-buffer.ts): any number of takes
 may be under way at once, because padding, providers and handlers run on the stack of a take
 and may take or put themselves.

 A take that finds a UID claims a sequence by the cursor update and later finishes it. A take
 that finds the ring empty captures the cursor; when its handler returns, it goes on to read the
 slot of that cursor as if it had claimed it.
 */
module TakeProtocol {
  import opened RingModel
  import opened Sequences

  datatype Step = Claim | Finish(q: int) | Put(uid: int) | ReadEmpty(q: int)

  // outstanding: sequences claimed and not finished; captured: cursors of empty takes that have not read their slot
  datatype Protocol = Protocol(ring: Ring, outstanding: set<int>, captured: multiset<int>, returned: seq<int>) {

    // A take reads the slot of the sequence it claimed or captured itself.
    predicate Enabled(step: Step) {
      match step
      case Claim => true
      case Finish(q) => q in outstanding
      case Put(uid) => true
      case ReadEmpty(q) => q in captured
    }

    // Where the flag assertion fails, the take throws and nothing is returned.
    function ReadSlot(q: int): (p: Protocol)
      requires ring.size > 0
      ensures p.ring.size == ring.size
    {
      if ring.CanFinish(q) && 0 <= ring.Occupant(q) < |ring.log| then
        this.(ring := ring.Finish(q), returned := returned + [ring.log[ring.Occupant(q)]])
      else this
    }

    function Next(step: Step): (p: Protocol)
      requires ring.size > 0
      ensures p.ring.size == ring.size
    {
      match step
      case Claim =>
        if ring.CanClaim() then this.(ring := ring.Claim(), outstanding := outstanding + {ring.cursor + 1})
        else this.(captured := captured + multiset{ring.cursor})
      case Finish(q) => this.(outstanding := outstanding - {q}).ReadSlot(q)
      case Put(uid) => this.(ring := ring.Put(uid))
      case ReadEmpty(q) => this.(captured := captured - multiset{q}).ReadSlot(q)
    }

    // What every step keeps, whatever the handlers do.
    ghost predicate Recorded() {
      && ring.Valid()
      && (forall q :: q in outstanding ==> 0 <= q <= ring.cursor)
      && |returned| == |ring.issued|
      && (forall i :: 0 <= i < |returned| ==>
           0 <= ring.issued[i] < |ring.log| && returned[i] == ring.log[ring.issued[i]])
    }

    // Nobody but its own take reads a claimed or waiting sequence.
    ghost predicate Inv() {
      && Recorded()
      && (forall q :: q in ring.live <==> q in outstanding || ring.cursor < q <= ring.Tail())
    }

    // An empty take's read that finds its slot unread: it takes somebody else's UID.
    predicate Steals(step: Step)
      requires ring.size > 0
    {
      step.ReadEmpty? && ring.CanFinish(step.q)
    }

    // A finish returns the UID of the sequence it claimed.
    predicate Honest(step: Step)
      requires ring.size > 0
    {
      step.Finish? ==> 0 <= step.q < |ring.log| && Next(step).returned == returned + [ring.log[step.q]]
    }
  }

  function Fresh(size: nat): Protocol {
    Protocol(EmptyRing(size), {}, multiset{}, [])
  }

  ghost predicate EnabledRun(p: Protocol, steps: seq<Step>)
    requires p.ring.size > 0
    decreases |steps|
  {
    steps == [] || (p.Enabled(steps[0]) && EnabledRun(p.Next(steps[0]), steps[1..]))
  }

  ghost function RunSteps(p: Protocol, steps: seq<Step>): (r: Protocol)
    requires p.ring.size > 0
    ensures r.ring.size == p.ring.size
    decreases |steps|
  {
    if steps == [] then p else RunSteps(p.Next(steps[0]), steps[1..])
  }

  ghost predicate StealFree(p: Protocol, steps: seq<Step>)
    requires p.ring.size > 0
    decreases |steps|
  {
    steps == [] || (!p.Steals(steps[0]) && StealFree(p.Next(steps[0]), steps[1..]))
  }

  ghost predicate AllHonest(p: Protocol, steps: seq<Step>)
    requires p.ring.size > 0
    decreases |steps|
  {
    steps == [] || (p.Honest(steps[0]) && AllHonest(p.Next(steps[0]), steps[1..]))
  }

  // ----- every run, whatever the handlers do -----

  lemma ReadSlotRecorded(p: Protocol, q: int)
    requires p.Recorded()
    ensures p.ReadSlot(q).Recorded()
    ensures p.ring.CanFinish(q) ==> p.ReadSlot(q).ring == p.ring.Finish(q)
  {
    FinishValid(p.ring, q);
  }

  lemma StepRecorded(p: Protocol, step: Step)
    requires p.Recorded()
    ensures p.Next(step).Recorded()
  {
    match step
    case Claim =>
    case Finish(q) => ReadSlotRecorded(p.(outstanding := p.outstanding - {q}), q);
    case Put(uid) => PutValid(p.ring, uid);
    case ReadEmpty(q) => ReadSlotRecorded(p.(captured := p.captured - multiset{q}), q);
  }

  lemma {:induction false} RunRecorded(p: Protocol, steps: seq<Step>)
    requires p.Recorded()
    ensures RunSteps(p, steps).Recorded()
    decreases |steps|
  {
    if steps != [] {
      StepRecorded(p, steps[0]);
      RunRecorded(p.Next(steps[0]), steps[1..]);
    }
  }

  /**
   In every run, steals included, each accepted UID is returned at most once, and no accepted put writes a slot whose
   UID has not been returned yet.
   */
  lemma NothingReturnedTwice(size: nat, steps: seq<Step>)
    requires size > 0
    ensures var p := RunSteps(Fresh(size), steps);
            && NoDuplicates(p.ring.issued) && |p.returned| == |p.ring.issued|
            && (forall i :: 0 <= i < |p.returned| ==>
                 0 <= p.ring.issued[i] < |p.ring.log| && p.returned[i] == p.ring.log[p.ring.issued[i]])
            && (p.ring.CanPut() ==> forall q :: 0 <= q < |p.ring.log| && q !in p.ring.issued ==>
                 (p.ring.Tail() + 1) % size != q % size)
  {
    RunRecorded(Fresh(size), steps);
    var r := RunSteps(Fresh(size), steps).ring;
    forall q | 0 <= q < |r.log| && q !in r.issued && r.CanPut() ensures (r.Tail() + 1) % size != q % size {
      SameIndex(r.Tail() + 1, q, size);
    }
  }

  // ----- runs without a steal -----

  lemma StepKeepsInv(p: Protocol, step: Step)
    requires p.Inv() && p.Enabled(step) && !p.Steals(step)
    ensures p.Next(step).Inv() && p.Honest(step)
  {
    StepRecorded(p, step);
    if step.Finish? {
      LiveFinish(p.ring, step.q);
    }
  }

  lemma {:induction false} RunKeepsInv(p: Protocol, steps: seq<Step>)
    requires p.Inv() && EnabledRun(p, steps) && StealFree(p, steps)
    ensures RunSteps(p, steps).Inv() && AllHonest(p, steps)
    decreases |steps|
  {
    if steps != [] {
      StepKeepsInv(p, steps[0]);
      RunKeepsInv(p.Next(steps[0]), steps[1..]);
    }
  }

  /**
   After any run of nested takes and puts in which no empty take has read an unread slot: finishing an outstanding take
   of sequence q passes the CAN_TAKE assertion and returns exactly the q-th accepted UID, never returned before.
   */
  lemma EveryFinishReturnsItsClaim(size: nat, steps: seq<Step>, q: int)
    requires size > 0 && EnabledRun(Fresh(size), steps) && StealFree(Fresh(size), steps)
    requires q in RunSteps(Fresh(size), steps).outstanding
    ensures var p := RunSteps(Fresh(size), steps);
            && 0 <= q < |p.ring.log| && q !in p.ring.issued
            && p.Next(Finish(q)).returned == p.returned + [p.ring.log[q]]
            && p.Next(Finish(q)).ring.issued == p.ring.issued + [q]
  {
    RunKeepsInv(Fresh(size), steps);
    var p := RunSteps(Fresh(size), steps);
    LiveFinish(p.ring, q);
    StepKeepsInv(p, Finish(q));
  }

  /** In such a run no accepted put writes the slot of an outstanding or waiting sequence. */
  lemma PutsSpareUnreadSlots(size: nat, steps: seq<Step>, q: int)
    requires size > 0 && EnabledRun(Fresh(size), steps) && StealFree(Fresh(size), steps)
    requires var p := RunSteps(Fresh(size), steps);
             p.ring.CanPut() && (q in p.outstanding || p.ring.cursor < q <= p.ring.Tail())
    ensures var r := RunSteps(Fresh(size), steps).ring; (r.Tail() + 1) % size != q % size
  {
    RunKeepsInv(Fresh(size), steps);
    NothingReturnedTwice(size, steps);
    var r := RunSteps(Fresh(size), steps).ring;
    assert q in r.live;
  }

  // ----- a steal is always found out -----

  // Steps of takes whose ring is not empty, and of puts.
  ghost predicate Quiet(steps: seq<Step>) {
    forall i :: 0 <= i < |steps| ==> !steps[i].ReadEmpty?
  }

  lemma RunCons(p: Protocol, step: Step, rest: seq<Step>)
    requires p.ring.size > 0 && p.Enabled(step) && EnabledRun(p.Next(step), rest)
    ensures EnabledRun(p, [step] + rest) && RunSteps(p, [step] + rest) == RunSteps(p.Next(step), rest)
    ensures AllHonest(p, [step] + rest) == (p.Honest(step) && AllHonest(p.Next(step), rest))
    ensures StealFree(p, [step] + rest) == (!p.Steals(step) && StealFree(p.Next(step), rest))
  {
    assert ([step] + rest)[1..] == rest;
  }

  lemma RunNone(p: Protocol)
    requires p.ring.size > 0
    ensures EnabledRun(p, []) && RunSteps(p, []) == p && AllHonest(p, []) && StealFree(p, [])
  {
  }

  // The take of a stolen sequence, whether claimed already or still to come, does not return it.
  lemma {:induction false} StolenTakeFails(p: Protocol, o: int) returns (more: seq<Step>)
    requires p.ring.size > 0 && p.ring.InWindow(o) && o !in p.ring.live
    requires o in p.outstanding || p.ring.cursor < o
    ensures Quiet(more) && EnabledRun(p, more) && !AllHonest(p, more)
    decreases if o in p.outstanding then 0 else o - p.ring.cursor
  {
    if o in p.outstanding {
      OccupantIndex(p.ring, o);
      RunNone(p.Next(Finish(o)));
      RunCons(p, Finish(o), []);
      more := [Finish(o)] + [];
    } else {
      var rest := StolenTakeFails(p.Next(Claim), o);
      RunCons(p, Claim, rest);
      more := [Claim] + rest;
    }
  }

  lemma StealFound(p: Protocol, step: Step) returns (more: seq<Step>)
    requires p.Inv() && p.Steals(step)
    ensures Quiet(more) && EnabledRun(p.Next(step), more) && !AllHonest(p.Next(step), more)
  {
    var o := p.ring.Occupant(step.q);
    OccupantIndex(p.ring, step.q);
    ReadSlotRecorded(p.(captured := p.captured - multiset{step.q}), step.q);
    more := StolenTakeFails(p.Next(step), o);
  }

  lemma {:induction false} FirstSteal(p: Protocol, steps: seq<Step>) returns (k: nat, more: seq<Step>)
    requires p.Inv() && EnabledRun(p, steps) && !StealFree(p, steps)
    ensures k <= |steps| && Quiet(more)
    ensures EnabledRun(p, steps[..k] + more) && !AllHonest(p, steps[..k] + more)
    decreases |steps|
  {
    hide RunSteps, AllHonest, Quiet, Protocol.Next, Protocol.Honest;
    if p.Steals(steps[0]) {
      more := StealFound(p, steps[0]);
      RunCons(p, steps[0], more);
      k := 1;
      assert steps[..1] + more == [steps[0]] + more;
    } else {
      StepKeepsInv(p, steps[0]);
      k, more := FirstSteal(p.Next(steps[0]), steps[1..]);
      RunCons(p, steps[0], steps[1..][..k] + more);
      k := k + 1;
      assert steps[..k] + more == [steps[0]] + (steps[1..][..k - 1] + more);
    }
  }

  lemma {:induction false} QuietStealsNothing(p: Protocol, steps: seq<Step>)
    requires p.ring.size > 0 && Quiet(steps)
    ensures StealFree(p, steps)
    decreases |steps|
  {
    if steps != [] {
      QuietStealsNothing(p.Next(steps[0]), steps[1..]);
    }
  }

  lemma {:induction false} QuietContinuation(p: Protocol, steps: seq<Step>, k: nat, more: seq<Step>)
    requires p.ring.size > 0 && StealFree(p, steps) && Quiet(more) && k <= |steps|
    ensures StealFree(p, steps[..k] + more)
    decreases k
  {
    var all := steps[..k] + more;
    if k == 0 {
      QuietStealsNothing(p, more);
      assert all == more;
    } else {
      QuietContinuation(p.Next(steps[0]), steps[1..], k - 1, more);
      assert all[0] == steps[0] && all[1..] == steps[1..][..k - 1] + more;
    }
  }

  // However the run stopped after k steps is carried on without further empty reads, every finish is honest.
  ghost predicate HonestFrom(p: Protocol, steps: seq<Step>, k: nat)
    requires p.ring.size > 0 && k <= |steps|
  {
    forall more: seq<Step> :: Quiet(more) && EnabledRun(p, steps[..k] + more) ==> AllHonest(p, steps[..k] + more)
  }

  /**
   The exact condition: every finish, now and in every continuation of every part of the run, returns its own claim if
   and only if no empty take of the run reads a slot that is still unread.
   */
  lemma HonestExactlyWithoutSteals(size: nat, steps: seq<Step>)
    requires size > 0 && EnabledRun(Fresh(size), steps)
    ensures StealFree(Fresh(size), steps) <==> forall k: nat :: k <= |steps| ==> HonestFrom(Fresh(size), steps, k)
  {
    var p := Fresh(size);
    if StealFree(p, steps) {
      forall k: nat, more: seq<Step> | k <= |steps| && Quiet(more) && EnabledRun(p, steps[..k] + more)
        ensures AllHonest(p, steps[..k] + more)
      {
        QuietContinuation(p, steps, k, more);
        RunKeepsInv(p, steps[..k] + more);
      }
    } else {
      var k, more := FirstSteal(p, steps);
      assert !HonestFrom(p, steps, k);
    }
  }

  // ----- witness runs -----

  // Put one UID, claim it, take from the empty ring before the claim is finished, read, finish.
  function StealingSteps(uid: int): seq<Step> {
    [Put(uid)] + ([Claim] + ([Claim] + ([ReadEmpty(0)] + ([Finish(0)] + []))))
  }

  lemma StealingStart(size: nat, uid: int) returns (p1: Protocol, p2: Protocol)
    requires size > 0
    ensures p1 == Fresh(size).Next(Put(uid)) && p2 == p1.Next(Claim).Next(Claim)
    ensures p2.ring.size == size && p2.ring.log == [uid] && p2.returned == []
    ensures 0 in p2.outstanding && 0 in p2.captured && 0 in p2.ring.live
  {
    p1 := Fresh(size).Next(Put(uid));
    assert p1.ring == Ring(size, [uid], START_POINT, {0}, []);
    p2 := p1.Next(Claim);
    assert p2.ring.cursor == 0 && p2.outstanding == {0};
    p2 := p2.Next(Claim);
  }

  lemma StealingRun(p0: Protocol, uid: int, p1: Protocol, p2: Protocol)
    requires p0.ring.size > 0 && p0.Next(Put(uid)) == p1 && p1.Next(Claim).Next(Claim) == p2
    requires p2.Enabled(ReadEmpty(0)) && p2.Steals(ReadEmpty(0))
    requires var p3 := p2.Next(ReadEmpty(0)); p3.Enabled(Finish(0)) && !p3.Honest(Finish(0))
    ensures var steps := StealingSteps(uid);
            && EnabledRun(p0, steps) && !StealFree(p0, steps) && !AllHonest(p0, steps)
            && RunSteps(p0, steps) == p2.Next(ReadEmpty(0)).Next(Finish(0))
  {
    hide RunSteps, EnabledRun, AllHonest, StealFree;
    var p3 := p2.Next(ReadEmpty(0));
    RunNone(p3.Next(Finish(0)));
    RunCons(p3, Finish(0), []);
    RunCons(p2, ReadEmpty(0), [Finish(0)] + []);
    RunCons(p1.Next(Claim), Claim, [ReadEmpty(0)] + ([Finish(0)] + []));
    RunCons(p1, Claim, [Claim] + ([ReadEmpty(0)] + ([Finish(0)] + [])));
    RunCons(p0, Put(uid), [Claim] + ([Claim] + ([ReadEmpty(0)] + ([Finish(0)] + []))));
  }

  /**
   The steal is real, for every size: one UID is claimed by an outer take; an inner take finds the ring empty, its
   handler returns, and it returns the UID the outer take has claimed; the outer take then throws.
   */
  lemma InnerTakeSteals(size: nat, uid: int)
    requires size > 0
    ensures var p, steps := Fresh(size), StealingSteps(uid);
            && EnabledRun(p, steps) && !StealFree(p, steps) && !AllHonest(p, steps)
            && RunSteps(p, steps).returned == [uid]
  {
    hide RunSteps, EnabledRun, AllHonest, StealFree, StealingSteps, Fresh;
    var p1, p2 := StealingStart(size, uid);
    Theft(p2, 0);
    StealingRun(Fresh(size), uid, p1, p2);
  }

  // An empty take that captured the cursor of an unfinished one returns its UID; the unfinished take then fails.
  lemma Theft(p: Protocol, q: int)
    requires p.ring.size > 0 && p.ring.InWindow(q) && q in p.ring.live && 0 <= q < |p.ring.log|
    requires q in p.outstanding && q in p.captured
    ensures p.Steals(ReadEmpty(q))
    ensures var after := p.Next(ReadEmpty(q));
            && after.returned == p.returned + [p.ring.log[q]]
            && q in after.outstanding && !after.Honest(Finish(q))
            && after.Next(Finish(q)).returned == after.returned
  {
    LiveFinish(p.ring, q);
    OccupantIndex(p.Next(ReadEmpty(q)).ring, q);
  }

  // The flag check can fire: with one take left unfinished, the distance guard alone would let its slot be overwritten.
  lemma ClaimedSlotIsAtRisk() returns (steps: seq<Step>)
    ensures EnabledRun(Fresh(2), steps) && StealFree(Fresh(2), steps) && AtRisk(RunSteps(Fresh(2), steps), 0)
  {
    hide RunSteps, EnabledRun, StealFree, AllHonest;
    var filled := TwoPuts();
    var claimed := TwoClaims();
    RiskyFinish(claimed, 0, 1);
    RunNone(claimed.Next(Finish(1)));
    RunCons(claimed, Finish(1), []);
    RunCons(filled.Next(Claim), Claim, [Finish(1)] + []);
    RunCons(filled, Claim, [Claim] + ([Finish(1)] + []));
    RunCons(Fresh(2).Next(Put(10)), Put(11), [Claim] + ([Claim] + ([Finish(1)] + [])));
    RunCons(Fresh(2), Put(10), [Put(11)] + ([Claim] + ([Claim] + ([Finish(1)] + []))));
    steps := [Put(10)] + ([Put(11)] + ([Claim] + ([Claim] + ([Finish(1)] + []))));
  }

  lemma TwoPuts() returns (p: Protocol)
    ensures p == Protocol(Ring(2, [10, 11], -1, {0, 1}, []), {}, multiset{}, [])
    ensures Fresh(2).Next(Put(10)).Next(Put(11)) == p
  {
    p := Protocol(Ring(2, [10, 11], -1, {0, 1}, []), {}, multiset{}, []);
    assert Fresh(2).Next(Put(10)) == Protocol(Ring(2, [10], -1, {0}, []), {}, multiset{}, []);
  }

  lemma TwoClaims() returns (p: Protocol)
    ensures p == Protocol(Ring(2, [10, 11], 1, {0, 1}, []), {0, 1}, multiset{}, [])
    ensures Protocol(Ring(2, [10, 11], -1, {0, 1}, []), {}, multiset{}, []).Next(Claim).Next(Claim) == p
  {
    p := Protocol(Ring(2, [10, 11], 1, {0, 1}, []), {0, 1}, multiset{}, []);
    assert Protocol(Ring(2, [10, 11], -1, {0, 1}, []), {}, multiset{}, []).Next(Claim)
        == Protocol(Ring(2, [10, 11], 0, {0, 1}, []), {0}, multiset{}, []);
  }

  // Completing a later take leaves the slot of an earlier, unfinished one in front of the tail.
  lemma RiskyFinish(p: Protocol, first: int, q: int)
    requires p.ring.size > 0 && p.ring.InWindow(q) && q in p.ring.live && 0 <= q < |p.ring.log|
    requires first in p.outstanding && first in p.ring.live && first != q
    requires first == p.ring.Tail() + 1 - p.ring.size && p.ring.Distance() != p.ring.size - 1
    ensures AtRisk(p.Next(Finish(q)), first)
  {
    LiveFinish(p.ring, q);
  }

  ghost predicate AtRisk(p: Protocol, q: int) {
    q in p.outstanding && p.ring.Distance() != p.ring.size - 1 && !p.ring.CanPut()
  }
}
