/** What a tick of the timer does, for every state of the current task, told without the steps of the
    handler; and how often it selects. */
module SchedTicks {
  import opened Lists
  import opened Sched
  import opened SchedRuns
  import opened SchedSlices

  /** The chain that the next task is looked for on: a child joins right after the head. */
  function ChainAfter(q: Queue, copy: nat): seq<nat>
    requires q.chain != [] && q.current in q.tasks
  {
    if q.tasks[q.current].state == Fork && copy != 0 then [q.chain[0], copy] + q.chain[1..] else q.chain
  }

  /** The tasks with the child, if there is one. */
  function TasksAfter(q: Queue, copy: nat): map<nat, Task>
    requires q.current in q.tasks
  {
    if q.tasks[q.current].state == Fork && copy != 0 then q.tasks[copy := Task(Ready, LOW, 0)] else q.tasks
  }

  ghost predicate Ticks(q: Queue, copy: nat) {
    q.Inv() && q.current in q.tasks && (copy != 0 ==> copy !in q.tasks)
  }

  /** A tick selects exactly if the current task is not held and waits, is dead, or has used its slice. */
  lemma SelectsExact(q: Queue, copy: nat)
    requires Ticks(q, copy)
    ensures var k := q.tasks[q.current];
            Selecting(q, TickOp(copy)) <==> k.state != Hold && (k.state == Wait || k.state == Dead || k.ticks == 0)
  {
    NoTask(q);
    StartState(q);
    if q.tasks[q.current].state != Wait && q.tasks[q.current].state != Dead { TickStays(q, copy); }
  }

  /** The very first tick is one of the head, or of the promoted task if there is one. */
  lemma FirstTick(q: Queue, copy: nat)
    requires q.Inv() && q.current == 0 && (copy != 0 ==> copy !in q.tasks)
    ensures q.chain != []
    ensures var p := q.(current := if q.promoted != 0 then q.promoted else q.chain[0], promoted := 0);
            p.Inv() && p.current in p.tasks && Tick(q, copy) == Tick(p, copy)
  {
    hide Distinct, Turn;
    StartGood(q);
    NoTask(q);
    NoTask(Started(q));
  }

  /** A held task: nothing happens. */
  lemma TickHeld(q: Queue, copy: nat)
    requires Ticks(q, copy) && q.tasks[q.current].state == Hold
    ensures Tick(q, copy) == q
  {
    NoTask(q);
    StartState(q);
  }

  /** A child's priority is the lowest, so it always joins the chain, right after the head, and never is
      promoted. */
  lemma HandleExact(q: Queue, copy: nat)
    requires Ticks(q, copy) && q.tasks[q.current].state != Hold && q.tasks[q.current].state != Dead
    ensures q.chain != [] && q.chain[0] in q.tasks
    ensures var h, k := Handle(q, copy), q.tasks[q.current];
            && h.chain == ChainAfter(q, copy) && h.current == q.current && h.promoted == q.promoted
            && h.tasks == TasksAfter(q, copy)[q.current := h.tasks[q.current]]
            && h.tasks[q.current] == Task(if k.state == Unknown then Ready else k.state, k.prio,
                                          if k.state == Wait then 0 else k.ticks)
  {
    hide Distinct;
    assert q.chain[0] in q.chain;
    CurrentSound(q);
    assert Sound(q.tasks[q.chain[0]]);
    var h := Handle(q, copy);
    assert h.tasks == TasksAfter(q, copy)[q.current := h.tasks[q.current]];
  }

  /** A task with ticks left that does not wait, die or hold runs on: it is ready, and has one tick less; a
      fork has added the child. Nothing else changes. */
  lemma TickRuns(q: Queue, copy: nat)
    requires Ticks(q, copy)
    requires var k := q.tasks[q.current]; k.state != Hold && k.state != Wait && k.state != Dead && k.ticks > 0
    ensures var k := q.tasks[q.current];
            Tick(q, copy) == Queue(ChainAfter(q, copy),
                                   TasksAfter(q, copy)[q.current := k.(state := Ready, ticks := k.ticks - 1)],
                                   q.current, q.promoted)
  {
    hide Distinct, Handle, Queue.Good;
    NoTask(q);
    StartState(q);
    CurrentSound(q);
    HandleExact(q, copy);
    SelectsExact(q, copy);
    var k, h := q.tasks[q.current], Handle(q, copy);
    assert Tick(q, copy) == Resume(h);
    assert (k.ticks + 255) % 256 == k.ticks - 1;
    assert h.tasks[q.current := k.(state := Ready, ticks := k.ticks - 1)]
        == TasksAfter(q, copy)[q.current := k.(state := Ready, ticks := k.ticks - 1)];
  }

  /** The task `t` as a selection leaves it. */
  function Chosen(k: Task): Task { Task(Ready, k.prio, (Slice(k.prio) + 255) % 256) }

  /** A task that waits, or has used its slice: the promoted task is current afterwards, if there is one,
      else the next on the chain, or the head after the last. It is ready and has its slice less one
      tick. The task that waited has none left, and waits on. */
  lemma TickSwitches(q: Queue, copy: nat, p: nat)
    requires Ticks(q, copy) && p < |ChainAfter(q, copy)| && ChainAfter(q, copy)[p] == q.current
    requires var k := q.tasks[q.current]; k.state != Hold && k.state != Dead && (k.state == Wait || k.ticks == 0)
    ensures var k, chain, r := q.tasks[q.current], ChainAfter(q, copy), Tick(q, copy);
            var next := if q.promoted != 0 then q.promoted else chain[After(p, |chain|)];
            && r.chain == chain && r.current == next && r.promoted == 0 && next in TasksAfter(q, copy)
            && r.tasks == TasksAfter(q, copy)
                 [q.current := Task(if k.state == Unknown then Ready else k.state, k.prio, 0)]
                 [next := Chosen(TasksAfter(q, copy)[next])]
  {
    hide Distinct, Handle, Pick, Select, Queue.Good, Slice;
    NoTask(q);
    StartState(q);
    HandleExact(q, copy);
    HandleGood(q, copy);
    SelectsExact(q, copy);
    var h := Handle(q, copy);
    assert Corpse(q) == 0;
    SelectGood(h, 0);
    SelectChain(h);
    NextOf(h, p);
    var s := Select(h);
    assert 0 !in h.tasks && h.tasks - {0} == h.tasks by { NotThere(h); }
    ResumeGood(s);
    assert Tick(q, copy) == Resume(s);
  }

  lemma NotThere(h: Queue)
    requires h.Good(0)
    ensures 0 !in h.tasks && h.tasks - {0} == h.tasks
  {
  }

  lemma SelectChain(q: Queue)
    requires q.Good(0)
    ensures Pick(q) in q.tasks && Select(q).chain == q.chain
  {
    hide Distinct, Pick, Clean;
    PickGood(q, 0);
    var t := Pick(q);
    CleanNothing(SetTask(q.(current := t, promoted := 0), t, q.tasks[t].(ticks := Slice(q.tasks[t].prio))));
  }

  /** Who is next. */
  lemma NextOf(q: Queue, p: nat)
    requires q.Good(0) && p < |q.chain| && q.chain[p] == q.current
    ensures Pick(q) == if q.promoted != 0 then q.promoted else q.chain[After(p, |q.chain|)]
  {
    hide Distinct;
    if q.promoted == 0 { PickNext(q, p); }
  }

  /** A dead task: it leaves the chain and is freed; the promoted task is current, if there is one, else the
      head; everybody else is as before. */
  lemma TickBuries(q: Queue, copy: nat, p: nat)
    requires Ticks(q, copy) && q.tasks[q.current].state == Dead && p < |q.chain| && q.chain[p] == q.current
    ensures var r, next := Tick(q, copy), if q.promoted != 0 then q.promoted else q.chain[0];
            && r.chain == q.chain[..p] + q.chain[p + 1..] && r.current == next && r.promoted == 0
            && next in q.tasks && next != q.current
            && r.tasks == (q.tasks - {q.current})[next := Chosen(q.tasks[next])]
  {
    hide Distinct, Pick, Select, Queue.Good, Slice;
    NoTask(q);
    StartState(q);
    HandleGood(q, copy);
    SelectsExact(q, copy);
    var h := Handle(q, copy);
    assert h == q.(current := 0);
    SelectGood(h, q.current);
    DeadPick(h, q.current);
    BuriedChain(h, q.current, p);
    ResumeGood(Select(h));
    assert Tick(q, copy) == Resume(Select(h));
  }

  lemma DeadPick(q: Queue, corpse: nat)
    requires q.Good(corpse) && q.current == 0
    ensures Pick(q) == if q.promoted != 0 then q.promoted else q.chain[0]
  {
  }

  lemma BuriedChain(q: Queue, corpse: nat, p: nat)
    requires q.Good(corpse) && q.current == 0 && corpse in q.tasks && q.tasks[corpse].state == Dead
             && Pick(q) in q.tasks
    requires p < |q.chain| && q.chain[p] == corpse
    ensures Select(q).chain == q.chain[..p] + q.chain[p + 1..]
  {
    hide Distinct, Pick;
    var t := Pick(q);
    PickGood(q, corpse);
    var q1 := SetTask(q.(current := t, promoted := 0), t, q.tasks[t].(ticks := Slice(q.tasks[t].prio)));
    FindCorpse(q1, corpse);
    SamePlace(q1.chain, Find(q1, 0, true), p) by { assert q1.Good(corpse); }
  }

  lemma SamePlace(s: seq<nat>, i: nat, j: nat)
    requires Distinct(s) && i < |s| && j < |s| && s[i] == s[j]
    ensures i == j
  {
  }

  // ---- a selection comes

  /** Ticks that the current task has left; a first task may have any number. */
  function Left(q: Queue): nat { if q.current in q.tasks then q.tasks[q.current].ticks else 255 }

  lemma LeftBound(q: Queue)
    requires q.Inv()
    ensures Left(q) <= 255
  {
    if q.current in q.tasks { CurrentSound(q); }
  }

  /** A tick that counts and does not select takes one of the ticks that are left. */
  lemma StepLeft(q: Queue, op: Op)
    requires q.Inv() && Allowed(q, op) && !Selecting(q, op)
    ensures var r := Apply(q, op); if Counts(q, op) then Left(r) + 1 <= Left(q) else Left(r) <= Left(q)
  {
    hide Distinct, Pick, Select, Handle, Queue.Good, Turn;
    match op {
      case TickOp(copy) =>
        NoTask(q);
        StartGood(q);
        StartState(q);
        var q0 := Started(q);
        CurrentSound(q0);
        LeftBound(q0);
        if q0.tasks[q0.current].state == Hold { TickHeld(q0, copy); } else {
          SelectsExact(q0, copy);
          SameSelecting(q, q0, copy);
          TickRuns(q0, copy);
        }
        SameTick(q, q0, copy);
      case StateOp(s) =>
      case PrioOp(p) =>
      case ExitOp =>
    }
  }

  lemma SameSelecting(q: Queue, q0: Queue, copy: nat)
    requires q.Inv() && q0.Inv() && q0 == Started(q) && q0.current in q0.tasks && (copy != 0 ==> copy !in q.tasks)
             && q0.tasks == q.tasks && 0 !in q.tasks
    ensures Selecting(q, TickOp(copy)) == Selecting(q0, TickOp(copy))
  {
    StartState(q);
    StartState(q0);
  }

  lemma SameTick(q: Queue, q0: Queue, copy: nat)
    requires q.Inv() && q0.Inv() && q0 == Started(q) && q0.current in q0.tasks && (copy != 0 ==> copy !in q.tasks)
             && q0.tasks == q.tasks && 0 !in q.tasks
    ensures Tick(q, copy) == Tick(q0, copy)
  {
  }

  /** Over every run, at least one in 256 of the ticks that are not held off selects, whatever the tasks do:
      there are at most as many as are left at first, and 256 for each selection. */
  lemma {:induction false} SelectionsCome(q: Queue, ops: seq<Op>)
    requires q.Inv() && Runs(q, ops)
    ensures Spent(q, ops) <= Left(q) + 256 * Rounds(q, ops)
    decreases |ops|
  {
    hide Queue.Inv, Apply, Selecting, Left;
    if ops != [] {
      StepGood(q, ops[0]);
      var r := Apply(q, ops[0]);
      SelectionsCome(r, ops[1..]);
      LeftBound(r);
      LeftBound(q);
      if !Selecting(q, ops[0]) { StepLeft(q, ops[0]); }
    }
  }

  /** In every run without fork or exit, each task on the chain becomes current within 256 ticks for each
      task on it, and 255 more, of those that are not held off. */
  lemma FairTicks(q: Queue, ops: seq<Op>, t: nat) returns (k: nat)
    requires q.Inv() && Runs(q, ops) && Calm(ops) && Quiet(q) && t in q.chain && Spent(q, ops) >= 256 * |q.chain| + 255
    ensures k <= |ops| && Runs(q, ops[..k]) && 1 <= Rounds(q, ops[..k]) <= |q.chain| && End(q, ops[..k]).current == t
  {
    hide Queue.Inv, Runs, Spent, Rounds, Calm, Quiet, Left;
    SelectionsCome(q, ops);
    LeftBound(q);
    assert Rounds(q, ops) >= |q.chain|;
    k := Fair(q, ops, t);
  }
}
