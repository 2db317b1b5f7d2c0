/** The pool of lifecycle transition workers (cmd/bucket-lifecycle.go): resizing under a
    mutex, kill signals delivered by goroutines of their own, and workers taking tasks,
    in every interleaving before shutdown. */
module TransitionPool {
  import opened Basics

  /** The resize that holds the mutex, if any, and the size asked for. */
  datatype Resize = NoResize | To(size: int)

  /** Workers are `idle` at their select, `received` a task but not yet counted it, or are
      `running` it. `kills` are goroutines still offering a kill signal. */
  datatype Pool = Pool(numWorkers: int, idle: nat, received: nat, running: nat, kills: nat,
                       activeTasks: int, update: Resize)
  {
    function Live(): nat {
      idle + received + running
    }

    /** The size the pool is heading for. */
    function Target(): int {
      if update.To? then update.size else numWorkers
    }
  }

  const EMPTY := Pool(0, 0, 0, 0, 0, 0, NoResize)

  datatype Action =
    | BeginUpdate(n: int)  // UpdateWorkers takes the mutex
    | Spawn                // one round of its first loop
    | SendKill             // one round of its second loop
    | EndUpdate            // it returns
    | DeliverKill          // a worker at its select receives a kill signal and returns
    | TakeTask             // a worker at its select receives a task
    | Raise                // it increments activeTasks
    | Lower                // it decrements activeTasks and is back at its select

  predicate Enabled(p: Pool, a: Action) {
    match a
    case BeginUpdate(_) => p.update.NoResize?
    case Spawn => p.update.To? && p.numWorkers < p.update.size
    case SendKill => p.update.To? && p.numWorkers > p.update.size
    case EndUpdate => p.update.To? && p.numWorkers == p.update.size
    case DeliverKill => p.kills > 0 && p.idle > 0
    case TakeTask => p.idle > 0
    case Raise => p.received > 0
    case Lower => p.running > 0
  }

  function Do(p: Pool, a: Action): Pool
    requires Enabled(p, a)
  {
    match a
    case BeginUpdate(n) => p.(update := To(n))
    case Spawn => p.(idle := p.idle + 1, numWorkers := p.numWorkers + 1)
    case SendKill => p.(kills := p.kills + 1, numWorkers := p.numWorkers - 1)
    case EndUpdate => p.(update := NoResize)
    case DeliverKill => p.(kills := p.kills - 1, idle := p.idle - 1)
    case TakeTask => p.(idle := p.idle - 1, received := p.received + 1)
    case Raise => p.(received := p.received - 1, running := p.running + 1, activeTasks := p.activeTasks + 1)
    case Lower => p.(running := p.running - 1, idle := p.idle + 1, activeTasks := p.activeTasks - 1)
  }

  /** The state after a run of enabled actions. */
  function Run(p: Pool, actions: seq<Action>): Option<Pool>
    decreases |actions|
  {
    if actions == [] then Some(p)
    else if !Enabled(p, actions[0]) then None
    else Run(Do(p, actions[0]), actions[1..])
  }

  lemma {:induction false} RunExtend(p: Pool, actions: seq<Action>, a: Action)
    ensures Run(p, actions + [a]) ==
            if Run(p, actions).None? || !Enabled(Run(p, actions).value, a) then None
            else Some(Do(Run(p, actions).value, a))
    decreases |actions|
  {
    if actions != [] && Enabled(p, actions[0]) {
      RunExtend(Do(p, actions[0]), actions[1..], a);
      assert (actions + [a])[1..] == actions[1..] + [a];
    } else if actions == [] {
      assert [] + [a] == [a];
    }
  }

  // ----- Accounting

  predicate Balanced(p: Pool) {
    p.Live() == p.numWorkers + p.kills && p.activeTasks == p.running
  }

  lemma EmptyIsBalanced()
    ensures Balanced(EMPTY)
  {
  }

  lemma {:induction false} RunKeepsBalance(p: Pool, actions: seq<Action>)
    requires Balanced(p) && Run(p, actions).Some?
    ensures Balanced(Run(p, actions).value)
    decreases |actions|
  {
    if actions != [] {
      RunKeepsBalance(Do(p, actions[0]), actions[1..]);
    }
  }

  /** The size asked for by the last resize in the run. */
  function LastRequest(actions: seq<Action>, otherwise: int): int {
    if actions == [] then otherwise
    else if actions[|actions| - 1].BeginUpdate? then actions[|actions| - 1].n
    else LastRequest(actions[..|actions| - 1], otherwise)
  }

  lemma {:induction false} TargetIsLastRequest(actions: seq<Action>)
    requires Run(EMPTY, actions).Some?
    ensures Run(EMPTY, actions).value.Target() == LastRequest(actions, 0)
  {
    if actions != [] {
      var before, a := actions[..|actions| - 1], actions[|actions| - 1];
      assert actions == before + [a];
      RunExtend(EMPTY, before, a);
      TargetIsLastRequest(before);
    }
  }

  /** In every reachable state: live workers minus undelivered kills is `numWorkers`, and
      `activeTasks` counts running tasks, so it never exceeds the live workers. Once no
      resize is under way and every kill is delivered, the last requested number remain;
      after a request for a negative number that never happens. */
  lemma {:induction false} ReachableAccounting(actions: seq<Action>)
    requires Run(EMPTY, actions).Some?
    ensures var p := Run(EMPTY, actions).value;
            && p.Live() - p.kills == p.numWorkers
            && 0 <= p.activeTasks <= p.Live()
            && (p.update.NoResize? && p.kills == 0 ==> p.Live() == LastRequest(actions, 0))
            && (p.update.NoResize? && LastRequest(actions, 0) < 0 ==> p.kills > 0)
  {
    RunKeepsBalance(EMPTY, actions);
    TargetIsLastRequest(actions);
    BalancedPool(Run(EMPTY, actions).value, LastRequest(actions, 0));
    hide *;
  }

  lemma BalancedPool(p: Pool, n: int)
    requires Balanced(p) && p.Target() == n
    ensures p.Live() - p.kills == p.numWorkers
    ensures 0 <= p.activeTasks <= p.Live()
    ensures p.update.NoResize? && p.kills == 0 ==> p.Live() == n
    ensures p.update.NoResize? && n < 0 ==> p.kills > 0
  {
  }

  // ----- Settling

  /** Actions other than a new resize or a new task. */
  predicate Internal(a: Action) {
    !a.BeginUpdate? && !a.TakeTask?
  }

  /** Bounds the internal actions still possible. */
  function Remaining(p: Pool): nat {
    var d := if p.update.NoResize? then 0 else
               1 + 2 * (if p.numWorkers < p.update.size then p.update.size - p.numWorkers else p.numWorkers - p.update.size);
    3 * p.received + 2 * p.running + p.kills + d
  }

  lemma {:induction false} InternalRunIsBounded(p: Pool, actions: seq<Action>)
    requires Run(p, actions).Some? && forall a :: a in actions ==> Internal(a)
    ensures |actions| + Remaining(Run(p, actions).value) <= Remaining(p)
    ensures Run(p, actions).value.Target() == p.Target()
    decreases |actions|
  {
    if actions != [] {
      assert actions[0] in actions;
      InternalRunIsBounded(Do(p, actions[0]), actions[1..]);
    }
  }

  /** Nothing internal is left to do. */
  ghost predicate Settled(p: Pool) {
    forall a :: Internal(a) ==> !Enabled(p, a)
  }

  lemma SettledPool(p: Pool)
    requires Balanced(p) && Settled(p) && p.Target() >= 0
    ensures p == Pool(p.Target(), p.Target(), 0, 0, 0, 0, NoResize)
  {
    assert !Enabled(p, Spawn) && !Enabled(p, SendKill) && !Enabled(p, EndUpdate);
    assert !Enabled(p, DeliverKill) && !Enabled(p, Raise) && !Enabled(p, Lower);
  }

  /** Left alone in any reachable state whose requested size is not negative, the pool
      settles: every schedule of its internal actions is bounded, and wherever none is
      left exactly the requested number of workers is alive, all of them idle, no kill
      signal is stuck and no task is counted. */
  lemma {:induction false} PoolSettles(history: seq<Action>, schedule: seq<Action>)
    requires Run(EMPTY, history).Some? && Run(Run(EMPTY, history).value, schedule).Some?
    requires LastRequest(history, 0) >= 0 && forall a :: a in schedule ==> Internal(a)
    ensures |schedule| <= Remaining(Run(EMPTY, history).value)
    ensures var n, p := LastRequest(history, 0), Run(Run(EMPTY, history).value, schedule).value;
            Settled(p) ==> p == Pool(n, n, 0, 0, 0, 0, NoResize)
  {
    hide Run, LastRequest;
    var start := Run(EMPTY, history).value;
    RunKeepsBalance(EMPTY, history);
    TargetIsLastRequest(history);
    InternalRunIsBounded(start, schedule);
    RunKeepsBalance(start, schedule);
    if Settled(Run(start, schedule).value) {
      SettledPool(Run(start, schedule).value);
    }
  }

  // ----- UpdateWorkers

  class TransitionState {
    var numWorkers: int
    ghost var pool: Pool  // this object with the goroutines around it

    ghost predicate Valid()
      reads this
    {
      numWorkers == pool.numWorkers && pool.update.NoResize? && Balanced(pool)
    }

    constructor ()
      ensures Valid() && pool == EMPTY
    {
      EmptyIsBalanced();
      hide Balanced;
      numWorkers, pool := 0, EMPTY;
    }

    /** Without interruption the resize is one run of the machine that ends at size `n`;
        it spawns or sends kills, never both. */
    method UpdateWorkers(n: int) returns (ghost trace: seq<Action>)
      requires Valid()
      modifies this
      ensures Valid() && numWorkers == n
      ensures Run(old(pool), trace) == Some(pool)
      ensures pool.idle == old(pool.idle) + (if old(numWorkers) < n then n - old(numWorkers) else 0)
      ensures pool.kills == old(pool.kills) + (if n < old(numWorkers) then old(numWorkers) - n else 0)
    {
      ghost var start := pool;
      trace := [BeginUpdate(n)];
      assert Run(Do(start, BeginUpdate(n)), []) == Some(Do(start, BeginUpdate(n)));
      pool := Do(pool, BeginUpdate(n));
      while numWorkers < n
        invariant numWorkers == pool.numWorkers && pool.update == To(n) && Balanced(pool)
        invariant Run(start, trace) == Some(pool)
        invariant start.numWorkers <= numWorkers <= n || n < numWorkers == start.numWorkers
        invariant pool.idle == start.idle + (numWorkers - start.numWorkers) && pool.kills == start.kills
      {
        RunExtend(start, trace, Spawn);
        trace, pool := trace + [Spawn], Do(pool, Spawn);
        numWorkers := numWorkers + 1;
      }
      ghost var spawned := pool.idle;
      while numWorkers > n
        invariant numWorkers == pool.numWorkers && pool.update == To(n) && Balanced(pool)
        invariant Run(start, trace) == Some(pool)
        invariant numWorkers >= n && pool.idle == spawned
        invariant pool.kills == start.kills + (if n < start.numWorkers then start.numWorkers - numWorkers else 0)
        invariant start.numWorkers <= n ==> numWorkers == n
      {
        RunExtend(start, trace, SendKill);
        trace, pool := trace + [SendKill], Do(pool, SendKill);
        numWorkers := numWorkers - 1;
      }
      RunExtend(start, trace, EndUpdate);
      trace, pool := trace + [EndUpdate], Do(pool, EndUpdate);
    }
  }
}
