/** How long a task runs once selected, and that everybody gets a turn. */
module SchedSlices {
  import opened Lists
  import opened Sched
  import opened SchedRuns

  /** The tick selects a task. */
  ghost predicate Selecting(q: Queue, op: Op)
    requires q.Inv() && Allowed(q, op)
  {
    StartGood(q);
    StartState(q);
    var q0 := Started(q);
    op.TickOp? && q0.tasks[q0.current].state != Hold && Selects(q0, op.copy)
  }

  /** What a tick does to the current task's counter if it selects nobody. */
  lemma TickStays(q: Queue, copy: nat)
    requires q.Inv() && q.current in q.tasks && (copy != 0 ==> copy !in q.tasks)
    requires var k := q.tasks[q.current]; k.state != Wait && k.state != Dead
    ensures var k := q.tasks[q.current];
            && (Selecting(q, TickOp(copy)) <==> k.state != Hold && k.ticks == 0)
            && (!Selecting(q, TickOp(copy)) ==>
                var r := Tick(q, copy);
                && r.current == q.current && r.current in r.tasks
                && r.tasks[r.current] == if k.state == Hold then k else k.(state := Ready, ticks := k.ticks - 1))
  {
    hide Distinct, Pick, Select, Handle, Queue.Good;
    NoTask(q);
    StartGood(q);
    StartState(q);
    CurrentSound(q);
    if q.tasks[q.current].state != Hold {
      HandleGood(q, copy);
      HandleTicks(q, copy);
      if q.tasks[q.current].ticks != 0 { ResumeGood(Handle(q, copy)); }
    }
  }

  lemma CurrentSound(q: Queue)
    requires q.Inv() && q.current in q.tasks
    ensures q.chain != [] && Sound(q.tasks[q.current])
  {
  }

  /** Unless the task waits or is dead, its counter is left to the end of the handler. */
  lemma HandleTicks(q: Queue, copy: nat)
    requires q.chain != [] && q.chain[0] in q.tasks && q.current in q.tasks && (copy != 0 ==> copy !in q.tasks)
    requires var k := q.tasks[q.current]; k.state != Wait && k.state != Dead
    ensures var h := Handle(q, copy);
            && h.current == q.current && h.current in h.tasks
            && h.tasks[h.current].ticks == q.tasks[q.current].ticks
               && h.tasks[h.current].prio == q.tasks[q.current].prio
  {
  }

  /** A tick that selects gives the new current task a full counter, less one. */
  lemma TickSelects(q: Queue, copy: nat)
    requires q.Inv() && (copy != 0 ==> copy !in q.tasks) && Selecting(q, TickOp(copy))
    ensures var r := Tick(q, copy);
            r.current in r.tasks && r.tasks[r.current].ticks == (Slice(r.tasks[r.current].prio) + 255) % 256
  {
    hide Distinct, Pick, Select, Handle;
    StartGood(q);
    StartState(q);
    var q0 := Started(q);
    HandleGood(q0, copy);
    var h := Handle(q0, copy);
    SelectGood(h, Corpse(q0));
    ResumeGood(Select(h));
  }

  /** Ticks for which a selected task runs. */
  function Length(prio: nat): nat { (Slice(prio) + 255) % 256 + 1 }

  /** The 8-bit counter holds the intended slice exactly for priorities 1 to 12. */
  lemma SliceFits(prio: nat)
    requires prio <= PRIO_MAX
    ensures Length(prio) == prio * TICKS <==> 1 <= prio <= 12
  {
  }

  /** The running task neither waits nor exits. */
  predicate Steady(ops: seq<Op>) {
    forall i :: 0 <= i < |ops| ==> !ops[i].ExitOp? && ops[i] != StateOp(Wait)
  }

  /** Ticks that were not held off. */
  ghost function Spent(q: Queue, ops: seq<Op>): nat
    requires q.Inv() && Runs(q, ops)
    decreases |ops|
  {
    if ops == [] then 0
    else
      StepGood(q, ops[0]);
      (if Counts(q, ops[0]) then 1 else 0) + Spent(Apply(q, ops[0]), ops[1..])
  }

  /** A task that neither waits nor exits stays current while its counter lasts, whatever else it
      does; then the next tick that it does not hold off selects. */
  lemma {:induction false} Stays(q: Queue, ops: seq<Op>)
    requires q.Inv() && Runs(q, ops) && Steady(ops) && Busy(q) && Spent(q, ops) <= q.tasks[q.current].ticks
    ensures var r := End(q, ops);
            Busy(r) && r.current == q.current && r.tasks[r.current].ticks == q.tasks[q.current].ticks - Spent(q, ops)
    decreases |ops|
  {
    hide Queue.Inv, Tick;
    if ops != [] {
      var op, r := ops[0], Apply(q, ops[0]);
      StepGood(q, op);
      if op.TickOp? {
        TickStays(q, op.copy);
        NoTask(q);
      }
      assert Steady(ops[1..]) by { assert forall i :: 0 <= i < |ops| - 1 ==> ops[1..][i] == ops[i + 1]; }
      assert Busy(r) && r.current == q.current;
      Stays(r, ops[1..]);
    }
  }

  predicate Busy(q: Queue) {
    q.current in q.tasks && q.tasks[q.current].state != Wait && q.tasks[q.current].state != Dead
  }

  /** A task that a tick selects runs for exactly `Length` of its priority, counting that tick: it is
      current as long as fewer have passed, and after that many the next tick selects. */
  lemma SliceExact(q: Queue, copy: nat, ops: seq<Op>, next: nat)
    requires q.Inv() && Allowed(q, TickOp(copy)) && Selecting(q, TickOp(copy))
    requires Tick(q, copy).Inv() && Runs(Tick(q, copy), ops) && Steady(ops)
    requires 1 + Spent(Tick(q, copy), ops) <= Length(Tick(q, copy).tasks[Tick(q, copy).current].prio)
    requires var e := End(Tick(q, copy), ops); next != 0 ==> next !in e.tasks
    ensures var s := Tick(q, copy); var e := End(s, ops);
            && e.current == s.current && e.current in e.tasks
            && (Selecting(e, TickOp(next)) <==>
                1 + Spent(s, ops) == Length(s.tasks[s.current].prio) && e.tasks[e.current].state != Hold)
  {
    hide Queue.Inv, Tick;
    StepGood(q, TickOp(copy));
    TickSelects(q, copy);
    var s := Tick(q, copy);
    assert Busy(s) by { SelectingCounts(q, copy); }
    Stays(s, ops);
    TickStays(End(s, ops), next);
  }

  lemma SelectingCounts(q: Queue, copy: nat)
    requires q.Inv() && Allowed(q, TickOp(copy)) && Selecting(q, TickOp(copy))
    ensures Counts(q, TickOp(copy))
  {
    StartState(q);
  }

  // ---- fairness

  /** Nobody forks or exits. */
  predicate Calm(ops: seq<Op>) {
    forall i :: 0 <= i < |ops| ==> !ops[i].ExitOp? && ops[i] != StateOp(Fork)
  }

  /** Nobody is dead, promoted or about to fork. */
  ghost predicate Quiet(q: Queue) {
    q.Good(0) && q.current in q.tasks && q.promoted == 0 && q.tasks[q.current].state != Fork
  }

  ghost function Rounds(q: Queue, ops: seq<Op>): nat
    requires q.Inv() && Runs(q, ops)
    decreases |ops|
  {
    if ops == [] then 0
    else
      StepGood(q, ops[0]);
      (if Selecting(q, ops[0]) then 1 else 0) + Rounds(Apply(q, ops[0]), ops[1..])
  }

  lemma PositionOf(s: seq<nat>, i: nat)
    requires Distinct(s) && i < |s|
    ensures Position(s, s[i]) == i
  {
    var j := Position(s, s[i]);
    if j < i || i < j { assert false; }
  }

  /** The position after `p`, and the position `k` turns on, in a chain of `n`. */
  function After(p: nat, n: nat): nat { if p + 1 < n then p + 1 else 0 }

  function Later(p: nat, n: nat, k: nat): nat
    decreases k
  {
    if k == 0 then p else Later(After(p, n), n, k - 1)
  }

  lemma {:induction false} LaterIs(p: nat, n: nat, k: nat)
    requires p < n && p + k < 2 * n
    ensures Later(p, n, k) == if p + k < n then p + k else p + k - n
    decreases k
  {
    if k > 0 && p + 1 < n { LaterIs(p + 1, n, k - 1); }
    if k > 0 && p + 1 == n && k - 1 < n { LaterIs(0, n, k - 1); }
  }

  /** The next in turn. */
  lemma PickNext(q: Queue, p: nat)
    requires q.Good(0) && q.promoted == 0 && p < |q.chain| && q.chain[p] == q.current
    ensures Pick(q) == q.chain[After(p, |q.chain|)]
  {
    hide Distinct;
    PositionOf(q.chain, p);
    assert q.current in q.chain;
    NextLive(q, p + 1);
  }

  lemma NextLive(q: Queue, i: nat)
    requires q.Good(0) && i <= |q.chain|
    ensures Find(q, i, false) == i
  {
    hide Distinct;
    if i < |q.chain| { assert q.chain[i] in q.chain; }
  }

  /** With nobody dead, nothing is cleaned up. */
  lemma CleanNothing(q: Queue)
    requires q.Good(0)
    ensures Clean(q) == q
  {
    FindCorpse(q, 0);
  }

  /** A step of a calm run keeps the chain; a selection moves on by one position. */
  lemma CalmStep(q: Queue, op: Op, p: nat)
    requires q.Inv() && Quiet(q) && Allowed(q, op) && !op.ExitOp? && op != StateOp(Fork)
    requires p < |q.chain| && q.chain[p] == q.current
    ensures var r := Apply(q, op);
            Quiet(r) && r.chain == q.chain && r.current == q.chain[if Selecting(q, op) then After(p, |q.chain|) else p]
  {
    hide Distinct, Select, Pick;
    match op {
      case TickOp(copy) =>
        if q.tasks[q.current].state != Hold {
          assert q.chain[0] in q.chain;
          HandleGood(q, copy);
          var h := Handle(q, copy);
          if Selects(q, copy) {
            PickNext(h, p);
            SelectCalm(h);
            ResumeGood(Select(h));
          } else {
            ResumeGood(h);
          }
        }
      case StateOp(s) =>
      case PrioOp(p) =>
    }
  }

  lemma SelectCalm(q: Queue)
    requires q.Good(0) && q.promoted == 0
    ensures Pick(q) in q.tasks && Select(q).Good(0) && Select(q).promoted == 0 && Select(q).chain == q.chain
    ensures Select(q).current == Pick(q)
  {
    hide Distinct, Pick, Clean;
    PickGood(q, 0);
    var t := Pick(q);
    CleanNothing(SetTask(q.(current := t, promoted := 0), t, q.tasks[t].(ticks := Slice(q.tasks[t].prio))));
  }

  /** In a calm run the current task is as many positions on as there were selections. */
  lemma {:induction false} Rotates(q: Queue, ops: seq<Op>, p: nat)
    requires q.Inv() && Runs(q, ops) && Calm(ops) && Quiet(q) && p < |q.chain| && q.chain[p] == q.current
    ensures var r, i := End(q, ops), Later(p, |q.chain|, Rounds(q, ops));
            Quiet(r) && r.chain == q.chain && i < |q.chain| && r.current == q.chain[i]
    decreases |ops|
  {
    hide Queue.Inv, Apply, Quiet;
    if ops != [] {
      StepGood(q, ops[0]);
      CalmStep(q, ops[0], p);
      assert Calm(ops[1..]) by { assert forall i :: 0 <= i < |ops| - 1 ==> ops[1..][i] == ops[i + 1]; }
      Rotates(Apply(q, ops[0]), ops[1..], if Selecting(q, ops[0]) then After(p, |q.chain|) else p);
    }
  }

  /** The part of the run that has `j` selections. */
  lemma {:induction false} Prefix(q: Queue, ops: seq<Op>, j: nat) returns (k: nat)
    requires q.Inv() && Runs(q, ops) && j <= Rounds(q, ops)
    ensures k <= |ops| && Runs(q, ops[..k]) && Rounds(q, ops[..k]) == j
    decreases |ops|
  {
    hide Queue.Inv, Apply, Selecting;
    k := 0;
    if j > 0 {
      StepGood(q, ops[0]);
      var r := Apply(q, ops[0]);
      var m := Prefix(r, ops[1..], if Selecting(q, ops[0]) then j - 1 else j);
      k := m + 1;
      assert ops[..k][0] == ops[0] && ops[..k][1..] == ops[1..][..m];
    }
  }

  /** In every run without fork or exit, each task on the chain becomes current within as many
      selections as the chain is long. */
  lemma Fair(q: Queue, ops: seq<Op>, t: nat) returns (k: nat)
    requires q.Inv() && Runs(q, ops) && Calm(ops) && Quiet(q) && t in q.chain && Rounds(q, ops) >= |q.chain|
    ensures k <= |ops| && Runs(q, ops[..k]) && 1 <= Rounds(q, ops[..k]) <= |q.chain| && End(q, ops[..k]).current == t
  {
    hide Queue.Inv, Distinct, Quiet, Runs, Rounds, Calm, Later, End;
    CurrentChained(q);
    var n := |q.chain|;
    var p :| 0 <= p < n && q.chain[p] == q.current;
    var i :| 0 <= i < n && q.chain[i] == t;
    k := Prefix(q, ops, Turns(p, i, n));
    LaterIs(p, n, Turns(p, i, n));
    CalmPrefix(ops, k);
    Rotates(q, ops[..k], p);
  }

  /** The turns from position `p` to position `i`. */
  function Turns(p: nat, i: nat, n: nat): nat
    requires p < n
  {
    if i > p then i - p else n - p + i
  }

  lemma CalmPrefix(ops: seq<Op>, k: nat)
    requires Calm(ops) && k <= |ops|
    ensures Calm(ops[..k])
  {
  }

  lemma CurrentChained(q: Queue)
    requires Quiet(q)
    ensures q.current in q.chain
  {
  }
}
