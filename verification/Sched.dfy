/** The task queue and the timer handler (kernel/sched/sched.c) on values. Tasks are addresses; 0 is the
    null address. `chain` is what the forward links run through from the head on, `tasks` are the
    tasks that exist. */
module Sched {
  import opened Lists

  datatype State = Hold | Ready | Save | Wait | Dead | Fork | Unknown

  /** Priorities have 6 bits and tick counters have 8. */
  datatype Task = Task(state: State, prio: nat, ticks: nat)

  const LOW := 1
  const TICKS := 20
  const PRIO_MAX := 63

  datatype Queue = Queue(chain: seq<nat>, tasks: map<nat, Task>, current: nat, promoted: nat) {
    /** The chain holds every task exactly once; nobody but `corpse` is dead, and the head is not; the
        current and the promoted task, if any, exist. */
    ghost predicate Good(corpse: nat) {
      && Chained() && (forall t :: t in tasks ==> Sound(tasks[t]))
      && (forall t :: t in tasks && tasks[t].state == Dead ==> t == corpse) && corpse != chain[0]
      && (current != 0 ==> current in tasks)
      && (promoted != 0 ==> promoted in tasks && promoted != corpse && promoted != current)
    }

    ghost predicate Chained() {
      && chain != [] && Distinct(chain) && 0 !in tasks && forall t :: t in chain <==> t in tasks
    }

    /** Between two steps only the task that runs can be dead; before the first tick all are ready. */
    ghost predicate Inv() {
      Good(Corpse(this)) && (current == 0 ==> forall t :: t in tasks ==> tasks[t].state == Ready)
    }
  }

  ghost predicate Sound(t: Task) { 1 <= t.prio <= PRIO_MAX && t.ticks < 256 }

  /** Position of `t`, or the length of the chain. */
  function Position(s: seq<nat>, t: nat): (i: nat)
    ensures i <= |s| && (i < |s| ==> s[i] == t) && (i == |s| <==> t !in s)
  {
    if s == [] || s[0] == t then 0 else 1 + Position(s[1..], t)
  }

  /** First position from `i` on whose task is dead, or is not, as asked; else the length. */
  function Find(q: Queue, i: nat, dead: bool): (r: nat)
    requires i <= |q.chain|
    ensures i <= r <= |q.chain|
    ensures r < |q.chain| ==> q.chain[r] in q.tasks && (q.tasks[q.chain[r]].state == Dead) == dead
    ensures forall j :: i <= j < r && q.chain[j] in q.tasks ==> (q.tasks[q.chain[j]].state == Dead) != dead
    decreases |q.chain| - i
  {
    if i == |q.chain| || (q.chain[i] in q.tasks && (q.tasks[q.chain[i]].state == Dead) == dead) then i
    else Find(q, i + 1, dead)
  }

  /** `__sched_queue_next`: the promoted task, or the first after the current one that is not dead,
      or the head. */
  function Pick(q: Queue): (t: nat)
    requires q.chain != []
  {
    if q.promoted != 0 then q.promoted
    else if q.current == 0 then q.chain[0]
    else
      var p := Position(q.chain, q.current);
      var r := Find(q, if p < |q.chain| then p + 1 else p, false);
      if r < |q.chain| then q.chain[r] else q.chain[0]
  }

  /** `__sched_queue_add`: after the head, or nowhere at all; promoted if above the current task. */
  function Add(q: Queue, t: nat, prio: nat): Queue
    requires q.chain != [] && q.chain[0] in q.tasks && q.current in q.tasks
  {
    var q1 := q.(tasks := q.tasks[t := Task(Ready, prio, 0)]);
    var q2 := if prio <= q.tasks[q.chain[0]].prio then q1.(chain := [q.chain[0], t] + q.chain[1..]) else q1;
    if prio > q.tasks[q.current].prio then q2.(promoted := t) else q2
  }

  /** `__sched_queue_clean`: the first dead task leaves, if it is not the current one. */
  function Clean(q: Queue): Queue {
    var d := Find(q, 0, true);
    if d == |q.chain| || q.chain[d] == q.current then q
    else q.(chain := q.chain[..d] + q.chain[d + 1..], tasks := q.tasks - {q.chain[d]})
  }

  function SetTask(q: Queue, t: nat, k: Task): Queue { q.(tasks := q.tasks[t := k]) }

  /** The 8-bit counter at the start of a slice. */
  function Slice(prio: nat): nat { prio * TICKS % 256 }

  /** Switch to the next task, then clean up. */
  function Select(q: Queue): Queue
    requires q.chain != [] && Pick(q) in q.tasks
  {
    var t := Pick(q);
    Clean(SetTask(q.(current := t, promoted := 0), t, q.tasks[t].(ticks := Slice(q.tasks[t].prio))))
  }

  /** What the state of the current task asks for. `copy` is the copy, if the task is to fork and
      copying it succeeds. */
  function Handle(q: Queue, copy: nat): Queue
    requires q.chain != [] && q.chain[0] in q.tasks && q.current in q.tasks
  {
    var k := q.tasks[q.current];
    match k.state
    case Hold | Ready | Save => q
    case Wait => SetTask(q, q.current, k.(ticks := 0))
    case Dead => q.(current := 0)
    case Fork => if copy == 0 then q else Add(q, copy, LOW)
    case Unknown => SetTask(q, q.current, k.(state := Ready))
  }

  /** The end of the handler: the current task is ready and has one tick less. */
  function Resume(q: Queue): Queue
    requires q.current in q.tasks
  {
    SetTask(q, q.current, q.tasks[q.current].(state := Ready, ticks := (q.tasks[q.current].ticks + 255) % 256))
  }

  /** At the very first tick the head becomes current. */
  function Started(q: Queue): Queue
    requires q.chain != []
  {
    if q.current == 0 then q.(current := Pick(q), promoted := 0) else q
  }

  /** Whether the handler selects a task. */
  predicate Selects(q: Queue, copy: nat)
    requires q.chain != [] && q.chain[0] in q.tasks && q.current in q.tasks && q.tasks[q.current].state != Hold
  {
    var h := Handle(q, copy);
    h.current == 0 || (h.current in h.tasks && h.tasks[h.current].ticks == 0)
  }

  /** `__sched_timer_handler` */
  ghost function Tick(q: Queue, copy: nat): Queue
    requires q.Inv() && (copy != 0 ==> copy !in q.tasks)
  {
    StartGood(q);
    var q0 := Started(q);
    if q0.tasks[q0.current].state == Hold then q0 else Turn(q0, copy)
  }

  /** The current task, if it is dead. */
  function Corpse(q: Queue): nat {
    if q.current in q.tasks && q.tasks[q.current].state == Dead then q.current else 0
  }

  // ---- what each part keeps

  lemma StartGood(q: Queue)
    requires q.Inv()
    ensures Started(q).Inv() && Started(q).current in q.tasks && Started(q).chain == q.chain
            && Started(q).tasks == q.tasks
  {
    assert q.chain[0] in q.chain;
  }

  lemma HandleGood(q: Queue, copy: nat)
    requires q.Inv() && q.current in q.tasks && q.tasks[q.current].state != Hold && (copy != 0 ==> copy !in q.tasks)
    ensures q.chain[0] in q.tasks
    ensures var h := Handle(q, copy);
            && h.Good(Corpse(q)) && h.chain[0] == q.chain[0]
            && h.current == (if q.tasks[q.current].state == Dead then 0 else q.current)
            && (if h.current == 0 then q.current in h.tasks
               && h.tasks[q.current].state == Dead else h.tasks[h.current].state != Dead)
            && h.tasks.Keys == q.tasks.Keys + (if q.tasks[q.current].state == Fork && copy != 0 then {copy} else {})
  {
    assert q.chain[0] in q.chain;
    if q.tasks[q.current].state == Fork && copy != 0 { AddGood(q, copy, LOW); }
  }

  /** A task whose priority is at most that of the head joins the chain, right after the head; one whose
      priority is higher does not. It is promoted exactly if it is above the current task. */
  lemma AddGood(q: Queue, t: nat, prio: nat)
    requires q.Inv() && q.current in q.tasks && q.tasks[q.current].state != Dead
    requires t != 0 && t !in q.tasks && 1 <= prio <= PRIO_MAX
    ensures q.chain[0] in q.tasks
    ensures prio <= q.tasks[q.chain[0]].prio ==> Add(q, t, prio).Good(0)
    ensures var r := Add(q, t, prio);
            && r.chain == (if prio <= q.tasks[q.chain[0]].prio then [q.chain[0], t] + q.chain[1..] else q.chain)
            && r.promoted == (if prio > q.tasks[q.current].prio then t else q.promoted)
            && r.tasks == q.tasks[t := Task(Ready, prio, 0)] && r.current == q.current
  {
    hide Distinct;
    assert q.chain[0] in q.chain;
    if prio <= q.tasks[q.chain[0]].prio { InsertChain(q.chain, t); }
  }

  lemma InsertChain(s: seq<nat>, t: nat)
    requires s != [] && Distinct(s) && t !in s
    ensures var r := [s[0], t] + s[1..]; Distinct(r) && forall x :: x in r <==> x == t || x in s
  {
    var r := [s[0], t] + s[1..];
    assert forall i :: 2 <= i < |r| ==> r[i] == s[i - 1];
    assert s == [s[0]] + s[1..];
  }

  lemma PickGood(q: Queue, corpse: nat)
    requires q.Good(corpse) && (corpse != 0 ==> corpse in q.tasks && q.tasks[corpse].state == Dead)
    ensures Pick(q) in q.tasks && Pick(q) != corpse
  {
    hide Distinct;
    assert q.chain[0] in q.chain;
    var p := Position(q.chain, q.current);
    var r := Find(q, if p < |q.chain| then p + 1 else p, false);
    if r < |q.chain| { assert q.chain[r] in q.chain; }
  }

  /** Removing the one task at position `d`. */
  lemma CutChain(s: seq<nat>, d: nat)
    requires Distinct(s) && d < |s|
    ensures var t := s[..d] + s[d + 1..]; Distinct(t) && forall x :: x in t <==> x in s && x != s[d]
  {
    var t := s[..d] + s[d + 1..];
    assert forall i :: 0 <= i < |t| ==> t[i] == s[if i < d then i else i + 1];
    forall x | x in s && x != s[d] ensures x in t {
      var i :| 0 <= i < |s| && s[i] == x;
      assert t[if i < d then i else i - 1] == x;
    }
  }

  /** The search for a dead task finds the corpse, or nothing if there is none. */
  lemma FindCorpse(q: Queue, corpse: nat)
    requires q.Good(corpse) && (corpse != 0 ==> corpse in q.tasks && q.tasks[corpse].state == Dead)
    ensures var d := Find(q, 0, true);
            if corpse == 0 then d == |q.chain| else 0 < d < |q.chain| && q.chain[d] == corpse
  {
    hide Distinct;
    if corpse != 0 { assert corpse in q.chain; }
  }

  /** The one dead task leaves. */
  lemma CleanGood(q: Queue, corpse: nat)
    requires q.Good(corpse) && q.current != corpse && q.promoted == 0
    requires corpse != 0 ==> corpse in q.tasks && q.tasks[corpse].state == Dead
    ensures var r := Clean(q);
            && r.Good(0) && r.chain[0] == q.chain[0] && r.tasks == q.tasks - {corpse}
            && r.current == q.current && r.promoted == 0
  {
    hide Distinct, Find, Sound;
    FindCorpse(q, corpse);
    var d := Find(q, 0, true);
    if corpse != 0 { CutChain(q.chain, d); }
    assert corpse == 0 ==> q.tasks - {corpse} == q.tasks;
  }

  /** After a selection nobody is dead: the corpse is gone and nobody else is. */
  lemma SelectGood(q: Queue, corpse: nat)
    requires q.Good(corpse) && (corpse != 0 ==> q.current == 0 && corpse in q.tasks && q.tasks[corpse].state == Dead)
    ensures Pick(q) in q.tasks
    ensures var s := Select(q);
            && s.Good(0) && s.chain[0] == q.chain[0] && s.current == Pick(q) && s.promoted == 0
            && var k := q.tasks[s.current];
               s.tasks == (q.tasks - {corpse})[s.current := k.(ticks := Slice(k.prio))]
  {
    hide Distinct, Pick, Clean;
    PickGood(q, corpse);
    var t := Pick(q);
    var q1 := SetTask(q.(current := t, promoted := 0), t, q.tasks[t].(ticks := Slice(q.tasks[t].prio)));
    CleanGood(q1, corpse);
    assert (q.tasks - {corpse})[t := q1.tasks[t]] == q1.tasks - {corpse};
  }

  lemma ResumeGood(q: Queue)
    requires q.Good(0) && q.current in q.tasks
    ensures var r := Resume(q);
            && r.Inv() && r.chain == q.chain && r.current == q.current && r.promoted == q.promoted
               && r.tasks.Keys == q.tasks.Keys
            && r.tasks[r.current] == Task(Ready, q.tasks[q.current].prio, (q.tasks[q.current].ticks + 255) % 256)
            && r.Good(0) && forall t :: t in q.tasks && t != q.current ==> r.tasks[t] == q.tasks[t]
  {
    hide Distinct;
  }

  /** The handler from the state of the current task on. */
  ghost function Turn(q: Queue, copy: nat): Queue
    requires q.Inv() && q.current in q.tasks && q.tasks[q.current].state != Hold && (copy != 0 ==> copy !in q.tasks)
  {
    HandleGood(q, copy);
    var q1 := Handle(q, copy);
    if Selects(q, copy) then
      SelectGood(q1, Corpse(q));
      Resume(Select(q1))
    else Resume(q1)
  }

  /** After it the current task is ready and nobody is dead; a fork made exactly one child, and only a
      dead task is gone. */
  lemma TurnGood(q: Queue, copy: nat)
    requires q.Inv() && q.current in q.tasks && q.tasks[q.current].state != Hold && (copy != 0 ==> copy !in q.tasks)
    ensures var r := Turn(q, copy);
            && r.Inv() && r.chain[0] == q.chain[0] && r.current in r.tasks && r.tasks[r.current].state == Ready
               && r.Good(0)
            && r.tasks.Keys == q.tasks.Keys + (if q.tasks[q.current].state == Fork
               && copy != 0 then {copy} else {}) - {Corpse(q)}
  {
    hide Distinct, Handle, Select, Pick, Resume, Sound;
    HandleGood(q, copy);
    var q1 := Handle(q, copy);
    if Selects(q, copy) {
      SelectGood(q1, Corpse(q));
      ResumeGood(Select(q1));
      assert Select(q1).tasks.Keys == q1.tasks.Keys - {Corpse(q)};
    } else {
      ResumeGood(q1);
      NoTask(q);
    }
  }

  lemma NoTask(q: Queue)
    requires q.Inv()
    ensures 0 !in q.tasks && q.chain != []
  {
  }
}
