/** Runs of the scheduler: ticks of the timer between what the running task asks for. */
module SchedRuns {
  import opened Lists
  import opened Sched

  /** A timer tick, with the copy it may make; the running task sets its own state or priority, or
      exits. */
  datatype Op = TickOp(copy: nat) | StateOp(state: State) | PrioOp(prio: nat) | ExitOp

  /** A copy is a new object; a task that exited does nothing more; the head does not exit (the
      kernel panics); priorities are those that the kernel knows. */
  predicate Allowed(q: Queue, op: Op) {
    match op
    case TickOp(copy) => copy != 0 ==> copy !in q.tasks
    case StateOp(s) => Running(q) && s != Dead
    case PrioOp(p) => Running(q) && 1 <= p <= PRIO_MAX
    case ExitOp => Running(q) && q.chain != [] && q.current != q.chain[0]
  }

  predicate Running(q: Queue) { q.current in q.tasks && q.tasks[q.current].state != Dead }

  ghost function Apply(q: Queue, op: Op): Queue
    requires q.Inv() && Allowed(q, op)
  {
    match op
    case TickOp(copy) => Tick(q, copy)
    case StateOp(s) => SetTask(q, q.current, q.tasks[q.current].(state := s))
    case PrioOp(p) => SetTask(q, q.current, q.tasks[q.current].(prio := p))
    case ExitOp => SetTask(q, q.current, q.tasks[q.current].(state := Dead))
  }

  /** A tick that the running task does not hold off. */
  ghost predicate Counts(q: Queue, op: Op) {
    op.TickOp? && (q.current == 0 || (q.current in q.tasks && q.tasks[q.current].state != Hold))
  }

  /** The tick makes a child. */
  ghost predicate Forks(q: Queue, op: Op) {
    op.TickOp? && op.copy != 0 && q.current in q.tasks && q.tasks[q.current].state == Fork
  }

  /** Every step keeps the invariant and the head. After a tick that counts, the current task is on the
      chain and ready, nobody is dead, a fork made exactly one child, and only a dead task is gone. */
  lemma StepGood(q: Queue, op: Op)
    requires q.Inv() && Allowed(q, op)
    ensures var r := Apply(q, op);
            && r.Inv() && r.chain[0] == q.chain[0]
            && (Counts(q, op) ==>
                && r.current in r.chain && r.tasks[r.current].state == Ready
                && (forall t :: t in r.tasks ==> r.tasks[t].state != Dead)
                && r.tasks.Keys == q.tasks.Keys + (if Forks(q, op) then {op.copy} else {}) - {Corpse(q)})
            && (!Counts(q, op) ==> r.tasks.Keys == q.tasks.Keys)
  {
    hide Distinct, Turn, Started;
    match op {
      case TickOp(copy) =>
        StartGood(q);
        StartState(q);
        if !Started(q).tasks[Started(q).current].state.Hold? {
          TurnGood(Started(q), copy);
          NobodyDead(Tick(q, copy));
        }
      case StateOp(s) => SetGood(q, q.tasks[q.current].(state := s));
      case PrioOp(p) => SetGood(q, q.tasks[q.current].(prio := p));
      case ExitOp => SetGood(q, q.tasks[q.current].(state := Dead));
    }
  }

  lemma StartState(q: Queue)
    requires q.Inv()
    ensures q.chain[0] in q.tasks && Started(q).current in q.tasks && Corpse(Started(q)) == Corpse(q)
    ensures if q.current == 0 then q.tasks[Started(q).current].state == Ready else Started(q) == q
  {
    hide Distinct;
    StartGood(q);
    assert q.chain[0] in q.chain;
  }

  lemma NobodyDead(q: Queue)
    requires q.Good(0)
    ensures forall t :: t in q.tasks ==> q.tasks[t].state != Dead && t in q.chain
  {
  }

  /** What the running task may do to itself. */
  lemma SetGood(q: Queue, k: Task)
    requires q.Inv() && Running(q) && Sound(k) && (k.state == Dead ==> q.current != q.chain[0])
    ensures var r := SetTask(q, q.current, k); r.Inv() && r.tasks.Keys == q.tasks.Keys
  {
    hide Distinct;
  }

  /** The run of `ops` from `q`. */
  ghost predicate Runs(q: Queue, ops: seq<Op>)
    requires q.Inv()
    decreases |ops|
  {
    ops != [] ==> Allowed(q, ops[0]) && (StepGood(q, ops[0]); Runs(Apply(q, ops[0]), ops[1..]))
  }

  ghost function End(q: Queue, ops: seq<Op>): (r: Queue)
    requires q.Inv() && Runs(q, ops)
    ensures r.Inv() && r.chain[0] == q.chain[0]
    decreases |ops|
  {
    if ops == [] then q
    else
      StepGood(q, ops[0]);
      End(Apply(q, ops[0]), ops[1..])
  }

  /** The queue that `sched_init` sets up: the main task, not yet running. */
  lemma InitGood(main: nat)
    requires main != 0
    ensures Queue([main], map[main := Task(Ready, LOW, 0)], 0, 0).Inv()
  {
    assert main in [main];
  }

  // ---- how many tasks there are

  ghost function Born(q: Queue, ops: seq<Op>): nat
    requires q.Inv() && Runs(q, ops)
    decreases |ops|
  {
    if ops == [] then 0
    else
      StepGood(q, ops[0]);
      (if Forks(q, ops[0]) then 1 else 0) + Born(Apply(q, ops[0]), ops[1..])
  }

  ghost function Buried(q: Queue, ops: seq<Op>): nat
    requires q.Inv() && Runs(q, ops)
    decreases |ops|
  {
    if ops == [] then 0
    else
      StepGood(q, ops[0]);
      (if ops[0].TickOp? && Corpse(q) != 0 then 1 else 0) + Buried(Apply(q, ops[0]), ops[1..])
  }

  /** Requests to fork. */
  function Asked(ops: seq<Op>): nat {
    if ops == [] then 0 else (if ops[0] == StateOp(Fork) then 1 else 0) + Asked(ops[1..])
  }

  /** A request to fork that no tick has seen yet. */
  ghost function Pending(q: Queue): nat {
    if q.current in q.tasks && q.tasks[q.current].state == Fork then 1 else 0
  }

  /** One step: what is born and buried, and that a birth uses up a request. */
  lemma StepCounts(q: Queue, op: Op)
    requires q.Inv() && Allowed(q, op)
    ensures var r := Apply(q, op); var born := if Forks(q, op) then 1 else 0;
            && |r.tasks| == |q.tasks| + born - (if op.TickOp? && Corpse(q) != 0 then 1 else 0)
            && born + Pending(r) <= (if op == StateOp(Fork) then 1 else 0) + Pending(q)
  {
    hide Queue.Inv, Turn, Apply;
    StepGood(q, op);
    var r := Apply(q, op);
    KeyCount(q.tasks);
    KeyCount(r.tasks);
    StepPending(q, op);
    assert Corpse(q) != 0 ==> Corpse(q) in q.tasks;
    NoTask(q);
    assert q.current == 0 ==> q.current !in q.tasks;
    assert Corpse(q) == 0 ==> q.tasks.Keys - {Corpse(q)} == q.tasks.Keys;
  }

  lemma KeyCount(m: map<nat, Task>)
    ensures |m| == |m.Keys|
  {
  }

  lemma StepPending(q: Queue, op: Op)
    requires q.Inv() && Allowed(q, op)
    ensures (if Forks(q, op) then 1 else 0) + Pending(Apply(q, op))
         <= (if op == StateOp(Fork) then 1 else 0) + Pending(q)
  {
    hide Turn, Started, Distinct;
    StepGood(q, op);
    if op.TickOp? { StartState(q); }
  }

  /** Over every run: the chain holds as many tasks as there were, with the children and without the
      dead; and no request to fork makes two children. */
  lemma {:induction false} RunCounts(q: Queue, ops: seq<Op>)
    requires q.Inv() && Runs(q, ops)
    ensures |End(q, ops).tasks| == |q.tasks| + Born(q, ops) - Buried(q, ops)
    ensures |End(q, ops).chain| == |End(q, ops).tasks|
    ensures Born(q, ops) + Pending(End(q, ops)) <= Asked(ops) + Pending(q)
    decreases |ops|
  {
    hide Queue.Inv, Apply;
    if ops == [] {
      ChainCount(q);
    } else {
      StepGood(q, ops[0]);
      StepCounts(q, ops[0]);
      RunCounts(Apply(q, ops[0]), ops[1..]);
    }
  }

  lemma ChainCount(q: Queue)
    requires q.Inv()
    ensures |q.chain| == |q.tasks|
  {
    var keys := Members(q.chain);
    assert keys == q.tasks.Keys;
    KeyCount(q.tasks);
  }

  ghost function Members(s: seq<nat>): (m: set<nat>)
    requires Distinct(s)
    ensures |m| == |s| && forall x :: x in m <==> x in s
  {
    if s == [] then {}
    else
      assert Distinct(s[1..]) && s[0] !in s[1..] by { assert forall i :: 0 <= i < |s| - 1 ==> s[1..][i] == s[i + 1]; }
      assert s == [s[0]] + s[1..];
      {s[0]} + Members(s[1..])
  }
}
