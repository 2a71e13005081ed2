/**
 A cluster of generators sharing a bit layout and a worker table: nodes launch, generate with
 either generator, crash and launch again. Every launch is a new incarnation with a fresh key
 (src/worker/disposable-worker-id-assigner.ts, src/impl/default-uid-generator.ts,
 src/impl/cached-uid-generator.ts).
 */
module Cluster {
  import opened BitsAllocation
  import opened DefaultModel
  import opened Sequences
  import opened RingModel
  import opened PaddingModel
  import opened CachedModel
  import opened ClosedForm
  import CacheRuns
  import DefaultRuns

  // An incarnation is its configuration and what has been done with it.
  datatype Node =
    | DefaultNode(cfg: Config, alive: bool, clock: seq<int>, calls: nat)
    | CachedNode(cfg: Config, alive: bool, settings: Settings, size: nat, start: int, ops: seq<Op>)
  {
    ghost predicate Valid(a: BitsAllocator) {
      && cfg.Valid() && cfg.allocator == a
      && (CachedNode? ==> size > 0 && Over(settings, cfg) && Fruitful(settings.provider))
    }

    // What getUID has returned on this incarnation so far.
    ghost function Issued(a: BitsAllocator): seq<int>
      requires Valid(a)
    {
      match this
      case DefaultNode(_, _, _, _) => DefaultRuns.Returned(cfg, clock, calls)
      case CachedNode(_, _, _, _, _, _) => IssuedUids(RunOps(settings, Started(settings, size, start), ops).ring)
    }

    // What the next call of getUID returns on this incarnation; nothing where it throws.
    ghost function Answer(a: BitsAllocator): seq<int>
      requires Valid(a)
    {
      match this
      case DefaultNode(_, _, _, _) =>
        DefaultRuns.Answer(DefaultRuns.OutcomeOf(cfg, clock, calls))
      case CachedNode(_, _, _, _, _, _) =>
        var outcome := TakeOutcome(settings, RunOps(settings, Started(settings, size, start), ops));
        if outcome.Uid? then [outcome.uid] else []
    }

    // The node's own conditions: no replayed second; only its own padding fills the ring; the seconds used lie within
    // one delta span.
    ghost predicate Sound(a: BitsAllocator)
      requires Valid(a)
    {
      match this
      case DefaultNode(_, _, _, _) =>
        NeverReplays(cfg, clock, calls) && DefaultRuns.WithinOneSpan(cfg, RunCalls(cfg, clock, calls).stamps)
      case CachedNode(_, _, _, _, _, _) =>
        && Undiluted(settings, Started(settings, size, start), ops)
        && RunOps(settings, Started(settings, size, start), ops).lastSecond - start <= a.DeltaSpan()
    }
  }

  // What a launch chooses, apart from the worker id
  datatype Plan =
    | PlanDefault(epochSeconds: int, clock: seq<int>)
    | PlanCached(epochSeconds: int, size: nat, threshold: int, handler: TakeHandler, start: int)

  datatype Event = Launch(key: int, plan: Plan) | Operate(i: nat, op: Op) | Crash(i: nat)

  // lastKey: the greatest key the table has handed out
  datatype Fleet = Fleet(lastKey: int, nodes: seq<Node>)

  function NewNode(a: BitsAllocator, key: int, plan: Plan): Node {
    match plan
    case PlanDefault(epoch, clock) => DefaultNode(Config(a, epoch, key), true, clock, 0)
    case PlanCached(epoch, size, threshold, handler, start) =>
      var cfg := Config(a, epoch, key);
      CachedNode(cfg, true, Settings(threshold, BatchProvider(cfg), true, handler), size, start, [])
  }

  ghost predicate Enabled(c: Fleet, e: Event) {
    match e
    // AUTO_INCREMENT: greater than every earlier key
    case Launch(key, plan) => key > c.lastKey && (plan.PlanCached? ==> plan.size > 0)
    // Only a cached generator pads and is shut down.
    case Operate(i, op) => i < |c.nodes| && c.nodes[i].alive && (c.nodes[i].DefaultNode? ==> op.TakeOp?)
    case Crash(i) => i < |c.nodes|
  }

  ghost function Next(a: BitsAllocator, c: Fleet, e: Event): Fleet
    requires Enabled(c, e)
  {
    match e
    case Launch(key, plan) =>
      // a worker id above the maximum stops the launch, but the key is used up
      if key > a.maxWorkerId then c.(lastKey := key)
      else Fleet(key, c.nodes + [NewNode(a, key, plan)])
    case Operate(i, op) =>
      var node := c.nodes[i];
      var after := if node.DefaultNode? then node.(calls := node.calls + 1) else node.(ops := node.ops + [op]);
      c.(nodes := c.nodes[i := after])
    case Crash(i) =>
      c.(nodes := c.nodes[i := c.nodes[i].(alive := false)])
  }

  // A run of the cluster; an event that is not enabled does not happen.
  ghost function After(a: BitsAllocator, events: seq<Event>): Fleet
    decreases |events|
  {
    if events == [] then Fleet(0, [])
    else
      var c, e := After(a, events[..|events| - 1]), events[|events| - 1];
      if Enabled(c, e) then Next(a, c, e) else c
  }

  ghost predicate Inv(a: BitsAllocator, c: Fleet) {
    && c.lastKey >= 0
    && (forall i :: 0 <= i < |c.nodes| ==> c.nodes[i].Valid(a) && c.nodes[i].cfg.workerId <= c.lastKey)
    && (forall i, j :: 0 <= i < j < |c.nodes| ==> c.nodes[i].cfg.workerId < c.nodes[j].cfg.workerId)
  }

  lemma NewNodeValid(a: BitsAllocator, key: int, plan: Plan)
    requires a.Legal() && 0 < key <= a.maxWorkerId && (plan.PlanCached? ==> plan.size > 0)
    ensures NewNode(a, key, plan).Valid(a) && NewNode(a, key, plan).cfg.workerId == key
  {
    var node := NewNode(a, key, plan);
    if node.CachedNode? {
      BatchesUniform(node.settings, node.cfg);
    }
  }

  lemma StepInv(a: BitsAllocator, c: Fleet, e: Event)
    requires a.Legal() && Inv(a, c) && Enabled(c, e)
    ensures Inv(a, Next(a, c, e))
  {
    if e.Launch? && e.key <= a.maxWorkerId {
      NewNodeValid(a, e.key, e.plan);
    }
  }

  lemma {:induction false} AlwaysInv(a: BitsAllocator, events: seq<Event>)
    requires a.Legal()
    ensures Inv(a, After(a, events))
    decreases |events|
  {
    if events != [] {
      AlwaysInv(a, events[..|events| - 1]);
      var c, e := After(a, events[..|events| - 1]), events[|events| - 1];
      if Enabled(c, e) {
        StepInv(a, c, e);
      }
    }
  }

  // ----- what the events do -----

  lemma AfterSnoc(a: BitsAllocator, events: seq<Event>, e: Event)
    ensures var c := After(a, events); After(a, events + [e]) == if Enabled(c, e) then Next(a, c, e) else c
  {
    assert (events + [e])[..|events|] == events;
  }

  lemma CallAnswers(a: BitsAllocator, node: Node)
    requires node.Valid(a)
    ensures var after :=
              if node.DefaultNode? then node.(calls := node.calls + 1) else node.(ops := node.ops + [TakeOp]);
            after.Valid(a) && after.Issued(a) == node.Issued(a) + node.Answer(a)
  {
    hide RunOps, Started, Take, TakeOutcome, NextId, RunCalls, IssuedUids;
    match node
    case DefaultNode(cfg, _, clock, calls) =>
    case CachedNode(cfg, _, settings, size, start, ops) =>
      RunSnoc(settings, Started(settings, size, start), ops, TakeOp);
      ReturnedGrows(settings, RunOps(settings, Started(settings, size, start), ops));
  }

  lemma NodeIsValid(a: BitsAllocator, events: seq<Event>, i: nat)
    requires a.Legal() && i < |After(a, events).nodes|
    ensures After(a, events).nodes[i].Valid(a)
  {
    AlwaysInv(a, events);
  }

  // Only the addressed node has changed.
  ghost predicate OthersUntouched(before: Fleet, after: Fleet, i: nat) {
    && after.lastKey == before.lastKey && |after.nodes| == |before.nodes|
    && forall j :: 0 <= j < |before.nodes| && j != i ==> after.nodes[j] == before.nodes[j]
  }

  /** A call on a live node returns the answer of its generator and changes no other node. */
  lemma CallIssues(a: BitsAllocator, events: seq<Event>, i: nat)
    requires a.Legal() && i < |After(a, events).nodes| && After(a, events).nodes[i].alive
    ensures var before, after := After(a, events), After(a, events + [Operate(i, TakeOp)]);
            && OthersUntouched(before, after, i)
            && before.nodes[i].Valid(a) && after.nodes[i].Valid(a) && after.nodes[i].alive
            && after.nodes[i].cfg == before.nodes[i].cfg
            && after.nodes[i].Issued(a) == before.nodes[i].Issued(a) + before.nodes[i].Answer(a)
  {
    hide Node.Issued, Node.Answer, Node.Valid, After;
    NodeIsValid(a, events, i);
    AfterSnoc(a, events, Operate(i, TakeOp));
    CallAnswers(a, After(a, events).nodes[i]);
  }

  // The new node is configured as planned and has issued nothing.
  ghost predicate AsPlanned(a: BitsAllocator, node: Node, key: int, plan: Plan) {
    && node.Valid(a) && node.alive && node.Issued(a) == []
    && node.cfg == Config(a, plan.epochSeconds, key)
    && (if plan.PlanDefault? then node.DefaultNode? && node.clock == plan.clock
        else && node.CachedNode? && node.size == plan.size && node.start == plan.start
             && node.settings.threshold == plan.threshold && node.settings.handler == plan.handler
             && node.settings.attached)
  }

  lemma NewNodeAsPlanned(a: BitsAllocator, key: int, plan: Plan)
    requires a.Legal() && 0 < key <= a.maxWorkerId && (plan.PlanCached? ==> plan.size > 0)
    ensures AsPlanned(a, NewNode(a, key, plan), key, plan)
  {
    hide Started;
    NewNodeValid(a, key, plan);
    var node := NewNode(a, key, plan);
    if node.CachedNode? {
      CacheRuns.StartedHealthy(node.settings, node.size, node.start);
    }
  }

  /** A launch with an admissible fresh key adds one live node as planned; with a key beyond the field it adds none. */
  lemma LaunchAdds(a: BitsAllocator, events: seq<Event>, key: int, plan: Plan)
    requires a.Legal() && key > After(a, events).lastKey && (plan.PlanCached? ==> plan.size > 0)
    ensures var before, after := After(a, events), After(a, events + [Launch(key, plan)]);
            && after.lastKey == key
            && (key > a.maxWorkerId ==> after.nodes == before.nodes)
            && (key <= a.maxWorkerId ==>
                 && |after.nodes| == |before.nodes| + 1 && after.nodes[..|before.nodes|] == before.nodes
                 && AsPlanned(a, after.nodes[|before.nodes|], key, plan))
  {
    hide AsPlanned, NewNode;
    AlwaysInv(a, events);
    AfterSnoc(a, events, Launch(key, plan));
    if key <= a.maxWorkerId {
      NewNodeAsPlanned(a, key, plan);
    }
  }

  /** A crashed node stays as it was, whatever happens in the cluster afterwards. */
  lemma {:induction false} CrashIsFinal(a: BitsAllocator, events: seq<Event>, i: nat, later: seq<Event>)
    requires i < |After(a, events).nodes|
    ensures var crashed, end := After(a, events + [Crash(i)]), After(a, events + [Crash(i)] + later);
            && OthersUntouched(After(a, events), crashed, i)
            && crashed.nodes[i] == After(a, events).nodes[i].(alive := false)
            && i < |end.nodes| && end.nodes[i] == crashed.nodes[i]
    decreases |later|
  {
    AfterSnoc(a, events, Crash(i));
    if later == [] {
      assert events + [Crash(i)] + later == events + [Crash(i)];
    } else {
      var earlier, e := later[..|later| - 1], later[|later| - 1];
      CrashIsFinal(a, events, i, earlier);
      assert events + [Crash(i)] + later == (events + [Crash(i)] + earlier) + [e];
      AfterSnoc(a, events + [Crash(i)] + earlier, e);
    }
  }

  // ----- uniqueness -----

  lemma NodeDistinct(a: BitsAllocator, node: Node)
    requires a.Legal() && node.Valid(a) && node.Sound(a)
    ensures NoDuplicates(node.Issued(a))
  {
    match node
    case DefaultNode(cfg, _, clock, calls) =>
      DefaultRuns.DistinctUnlessReplayed(cfg, clock, calls);
    case CachedNode(cfg, _, settings, size, start, ops) =>
      ReturnedUidsOrder(settings, cfg, size, start, ops);
  }

  lemma NodeStamped(a: BitsAllocator, node: Node, x: nat)
    requires a.Legal() && node.Valid(a) && node.Sound(a) && x < |node.Issued(a)|
    ensures a.DecodeWorkerId(node.Issued(a)[x]) == node.cfg.workerId
  {
    hide RunCalls, RunOps, Started, DefaultRuns.Returned, IssuedUids, BitsAllocator.Legal, BitsAllocator.DecodeWorkerId;
    match node
    case DefaultNode(cfg, _, clock, calls) =>
      DefaultRuns.ReturnedCarryWorker(cfg, clock, calls, x);
    case CachedNode(cfg, _, settings, size, start, ops) =>
      ReturnedUidsCarryWorker(settings, cfg, size, start, ops, x);
  }

  // Every UID any incarnation has ever returned, incarnation by incarnation.
  ghost function AllIssued(a: BitsAllocator, nodes: seq<Node>): seq<int>
    requires forall i :: 0 <= i < |nodes| ==> nodes[i].Valid(a)
    decreases |nodes|
  {
    if nodes == [] then []
    else AllIssued(a, nodes[..|nodes| - 1]) + nodes[|nodes| - 1].Issued(a)
  }

  lemma {:induction false} AllStamped(a: BitsAllocator, nodes: seq<Node>, x: nat) returns (i: nat)
    requires a.Legal() && forall i :: 0 <= i < |nodes| ==> nodes[i].Valid(a) && nodes[i].Sound(a)
    requires x < |AllIssued(a, nodes)|
    ensures i < |nodes| && a.DecodeWorkerId(AllIssued(a, nodes)[x]) == nodes[i].cfg.workerId
    decreases |nodes|
  {
    hide RunCalls, RunOps, Started, IssuedUids, DefaultRuns.Uids;
    var n := |nodes| - 1;
    var earlier := AllIssued(a, nodes[..n]);
    if x < |earlier| {
      i := AllStamped(a, nodes[..n], x);
    } else {
      NodeStamped(a, nodes[n], x - |earlier|);
      i := n;
    }
  }

  // UIDs of a node and of nodes with smaller worker ids differ.
  lemma EarlierDiffer(a: BitsAllocator, nodes: seq<Node>, node: Node, x: nat, y: nat)
    requires a.Legal() && node.Valid(a) && node.Sound(a)
    requires forall i :: 0 <= i < |nodes| ==>
      nodes[i].Valid(a) && nodes[i].Sound(a) && nodes[i].cfg.workerId < node.cfg.workerId
    requires x < |AllIssued(a, nodes)| && y < |node.Issued(a)|
    ensures AllIssued(a, nodes)[x] != node.Issued(a)[y]
  {
    var i := AllStamped(a, nodes, x);
    NodeStamped(a, node, y);
  }

  lemma {:induction false} AllDistinct(a: BitsAllocator, nodes: seq<Node>)
    requires a.Legal() && forall i :: 0 <= i < |nodes| ==> nodes[i].Valid(a) && nodes[i].Sound(a)
    requires forall i, j :: 0 <= i < j < |nodes| ==> nodes[i].cfg.workerId < nodes[j].cfg.workerId
    ensures NoDuplicates(AllIssued(a, nodes))
    decreases |nodes|
  {
    if nodes != [] {
      var rest, node := nodes[..|nodes| - 1], nodes[|nodes| - 1];
      AllDistinct(a, rest);
      NodeDistinct(a, node);
      var earlier, mine := AllIssued(a, rest), node.Issued(a);
      forall x, y | 0 <= x < |earlier| && 0 <= y < |mine| ensures earlier[x] != mine[y] {
        EarlierDiffer(a, rest, node, x, y);
      }
      Joined(earlier, mine);
    }
  }

  lemma Joined(s: seq<int>, t: seq<int>)
    requires NoDuplicates(s) && NoDuplicates(t)
    requires forall x, y :: 0 <= x < |s| && 0 <= y < |t| ==> s[x] != t[y]
    ensures NoDuplicates(s + t)
  {
  }

  /**
   Global uniqueness: over every sequence of launches, calls, crashes and relaunches, no UID is ever returned twice
   anywhere in the cluster, whatever the clocks and epochs, as long as each incarnation meets its own conditions.
   */
  lemma ClusterUnique(a: BitsAllocator, events: seq<Event>)
    requires a.Legal()
    ensures Inv(a, After(a, events))
    ensures (forall i :: 0 <= i < |After(a, events).nodes| ==> After(a, events).nodes[i].Sound(a)) ==>
              NoDuplicates(AllIssued(a, After(a, events).nodes))
  {
    AlwaysInv(a, events);
    var nodes := After(a, events).nodes;
    if forall i :: 0 <= i < |nodes| ==> nodes[i].Sound(a) {
      AllDistinct(a, nodes);
    }
  }
}
