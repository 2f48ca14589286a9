/** The scheduler as the kernel runs it (kernel/sched/sched.c): task structures with links, known by a
    head and a tail that stays at the head. A task that is freed loses its structure, so that a step
    that looked at one afterwards would not be well formed. */
module Scheduler {
  import opened Lists
  import opened Sched
  import opened SchedRuns

  type Links = map<nat, nat>

  /** Forward links run through the chain and end; the backward link of the head is null. The other
      backward links exist, but need not be right. */
  ghost predicate Linked(head: nat, next: Links, prev: Links, chain: seq<nat>) {
    && chain != [] && head == chain[0] && Distinct(chain) && 0 !in chain
    && (forall i :: 0 <= i < |chain| ==> chain[i] in prev && LinkAt(next, chain, i))
    && prev[head] == 0
  }

  ghost predicate LinkAt(next: Links, chain: seq<nat>, i: int)
    requires 0 <= i < |chain|
  {
    chain[i] in next && next[chain[i]] == At(chain, i + 1)
  }

  /** Linking `t` in after the head. */
  lemma LinkIn(head: nat, next: Links, prev: Links, chain: seq<nat>, t: nat, next': Links, prev': Links)
    requires Linked(head, next, prev, chain) && t != 0 && t !in chain
    requires next' == next[t := next[head]][head := t]
    requires prev' == (if next[head] != 0 then prev[t := head][next[head] := t] else prev[t := head])
    ensures Linked(head, next', prev', [head, t] + chain[1..])
  {
    var c := [head, t] + chain[1..];
    InsertChain(chain, t);
    assert LinkAt(next, chain, 0);
    forall i | 0 <= i < |c| ensures c[i] in prev' && LinkAt(next', c, i) {
      if i >= 2 { assert c[i] == chain[i - 1] && LinkAt(next, chain, i - 1); }
      if 2 <= i && i + 1 < |c| { assert c[i + 1] == chain[i]; }
    }
  }

  /** Linking the task at position `d` out. */
  lemma LinkOut(head: nat, next: Links, prev: Links, chain: seq<nat>, d: nat, next': Links, prev': Links)
    requires Linked(head, next, prev, chain) && 0 < d < |chain|
    requires next' == next[chain[d - 1] := next[chain[d]]]
    requires prev'.Keys == prev.Keys && prev'[head] == 0
    ensures Linked(head, next', prev', chain[..d] + chain[d + 1..])
  {
    hide Distinct;
    var c := chain[..d] + chain[d + 1..];
    CutChain(chain, d);
    assert LinkAt(next, chain, d);
    forall i | 0 <= i < |c| ensures c[i] in prev' && LinkAt(next', c, i) {
      var j := if i < d then i else i + 1;
      assert c[i] == chain[j] && LinkAt(next, chain, j);
      Different(chain, j, d - 1);
      if i + 1 < |c| { assert c[i + 1] == chain[if i + 1 < d then i + 1 else i + 2]; }
    }
  }

  lemma Different(chain: seq<nat>, i: nat, j: nat)
    requires Distinct(chain) && i < |chain| && j < |chain|
    ensures chain[i] == chain[j] <==> i == j
  {
  }

  class Scheduler {
    var head: nat
    var tail: nat
    var current: nat
    var promoted: nat
    var next: Links
    var prev: Links
    var tasks: map<nat, Task>
    ghost var chain: seq<nat>

    ghost function View(): Queue
      reads this
    {
      Queue(chain, tasks, current, promoted)
    }

    ghost predicate Linking()
      reads this
    {
      head == tail && Linked(head, next, prev, chain) && forall t :: t in chain ==> t in tasks
    }

    ghost predicate Valid()
      reads this
    {
      Linking() && View().Inv()
    }

    /** `sched_init`: the main task alone. */
    constructor (main: nat)
      requires main != 0
      ensures Valid() && View() == Queue([main], map[main := Task(Ready, LOW, 0)], 0, 0)
    {
      head, tail, current, promoted := main, main, 0, 0;
      next, prev := map[main := 0], map[main := 0];
      tasks := map[main := Task(Ready, LOW, 0)];
      chain := [main];
      InitGood(main);
    }

    /** `__sched_queue_add` of a new task. The tail never leaves the head, so the walk has one step. */
    method QueueAdd(task: nat, prio: nat)
      requires Linking() && current in tasks && task != 0 && task !in tasks
      modifies this
      ensures Linking() && View() == Add(old(View()), task, prio)
    {
      hide Distinct, Linked;
      HeadLink(head, next, prev, chain);
      tasks := tasks[task := Task(Ready, prio, 0)];
      var cur := tail;
      ghost var done := false;
      while cur != 0
        invariant !done ==> cur == head && next == old(next) && prev == old(prev) && chain == old(chain)
        invariant done ==> cur == 0 && Linked(head, next, prev, chain)
        invariant current in tasks && head in tasks && tasks == old(tasks)[task := Task(Ready, prio, 0)]
                  && head == old(head) == tail
        invariant done ==> chain == if prio <= tasks[head].prio then [head, task] + old(chain)[1..] else old(chain)
        invariant current == old(current) && promoted == old(promoted)
        decreases !done
      {
        if prio <= tasks[cur].prio {
          prev := prev[task := cur];
          next := next[task := next[cur]];
          next := next[cur := task];
          if next[task] != 0 { prev := prev[next[task] := task]; }
          chain := [head, task] + chain[1..];
          LinkIn(head, old(next), old(prev), old(chain), task, next, prev);
        }
        HeadLink(head, next, prev, chain);
        cur := prev[cur];
        done := true;
      }
      if prio > tasks[current].prio { promoted := task; }
      assert forall t :: t in chain ==> t in tasks by {
        assert old(chain) == [head] + old(chain)[1..];
      }
    }

    /** `dlist_del` of a task other than the head. The backward link it sets is that of the wrong task. */
    method QueueDel(entry: nat, ghost d: nat)
      requires Linking() && 0 < d < |chain| && entry == chain[d]
      modifies this`next, this`prev, this`chain
      ensures Linking() && chain == old(chain)[..d] + old(chain)[d + 1..]
      ensures next.Keys == old(next.Keys) && prev.Keys == old(prev.Keys)
    {
      hide Distinct, Linked;
      ghost var i: nat := 0;
      HeadLink(head, next, prev, chain);
      NoNull(head, next, prev, chain);
      var cur := head;
      while cur != 0
        invariant i < d < |chain| && cur == chain[i] && unchanged(this)
        decreases d - i
      {
        ChainLink(head, next, prev, chain, i);
        ChainLink(head, next, prev, chain, d);
        if d + 1 < |chain| { ChainLink(head, next, prev, chain, d + 1); }
        Different(chain, i + 1, d);
        if entry == next[cur] {
          if next[next[cur]] != 0 { prev := prev[next[next[cur]] := prev[cur]]; }
          next := next[cur := next[next[cur]]];
          LinkOut(head, old(next), old(prev), chain, d, next, prev);
          CutChain(chain, d);
          chain := chain[..d] + chain[d + 1..];
          break;
        }
        cur, i := next[cur], i + 1;
      }
    }

    /** `__sched_queue_clean` */
    method QueueClean()
      requires Linking() && tasks[head].state != Dead
      modifies this
      ensures Linking() && View() == Clean(old(View()))
    {
      hide Distinct, Linked, Find, LinkAt;
      ghost var q, i := View(), 0;
      HeadLink(head, next, prev, chain);
      var corpse, cur := 0, head;
      while cur != 0
        invariant i <= |chain| && cur == At(chain, i) && corpse == 0 && unchanged(this)
        invariant Find(q, 0, true) == Find(q, i, true)
        decreases |chain| - i
      {
        ChainLink(head, next, prev, chain, i);
        FindStep(q, i);
        if tasks[cur].state == Dead {
          corpse := cur;
          break;
        }
        cur, i := next[cur], i + 1;
      }
      NullEnds(head, next, prev, chain, i);
      if corpse == 0 { FindEnd(q); }
      if corpse == 0 || current == corpse { return; }
      QueueDel(corpse, i);
      CutChain(q.chain, i);
      FreeTask(head, next, prev, chain, corpse);
      tasks, next, prev := tasks - {corpse}, next - {corpse}, prev - {corpse};
    }

    /** `__sched_queue_next`: terminates because the head is not dead. */
    method QueueNext() returns (pos: nat)
      requires Linking() && tasks[head].state != Dead && (current != 0 ==> current in chain)
      requires promoted != 0 ==> promoted in tasks && tasks[promoted].state != Dead
      modifies this`promoted
      ensures pos == Pick(old(View())) && promoted == 0
    {
      hide Distinct, Linked, Find, Pick;
      ghost var q, p := View(), Position(chain, current);
      ghost var i := p;
      HeadLink(head, next, prev, chain);
      NoNull(head, next, prev, chain);
      pos := current;
      var searching := true;
      while searching
        invariant if searching then promoted == old(promoted) else promoted == 0 && pos == Pick(q)
        invariant searching && promoted == 0 ==>
                      if current == 0 then pos == 0
                      else i < |chain| && pos == chain[i] && Find(q, i + 1, false) == Find(q, p + 1, false)
        decreases searching, |chain| - i
      {
        if promoted != 0 {
          PickPromoted(q);
          pos := promoted;
          promoted := 0;
        } else {
          if pos != 0 { ChainLink(head, next, prev, chain, i); }
          if pos == 0 || next[pos] == 0 {
            PickHead(q, i, p);
            pos := head;
          } else {
            PickNext(q, i, p);
            pos := next[pos];
            i := i + 1;
          }
        }
        searching := tasks[pos].state == Dead;
      }
    }

    /** Switch to the next task and clean up. */
    method Switch(ghost corpse: nat)
      requires Linking() && View().Good(corpse)
               && (corpse != 0 ==> current == 0 && corpse in tasks && tasks[corpse].state == Dead)
      modifies this
      ensures Pick(old(View())) in old(tasks) && Linking() && View() == Select(old(View()))
    {
      hide Distinct, Linked, Pick, Clean, Sound;
      HeadLink(head, next, prev, chain);
      PickReady(View(), corpse);
      PickGood(View(), corpse);
      var t := QueueNext();
      current := t;
      tasks := tasks[t := tasks[t].(ticks := Slice(tasks[t].prio))];
      QueueClean();
    }

    /** What the timer handler does about the state of the current task. */
    method HandleState(copy: nat)
      requires Linking() && current in tasks && current != 0 && tasks[current].state != Hold
               && (copy != 0 ==> copy !in tasks)
      modifies this
      ensures Linking() && old(chain) != [] && old(chain)[0] in old(tasks) && View() == Handle(old(View()), copy)
    {
      hide Distinct, Linked, Add;
      HeadLink(head, next, prev, chain);
      if tasks[current].state == Wait {
        tasks := tasks[current := tasks[current].(ticks := 0)];
      } else if tasks[current].state == Dead {
        current := 0;
      } else if tasks[current].state == Fork {
        if copy != 0 { QueueAdd(copy, LOW); }
      } else if tasks[current].state == Unknown {
        tasks := tasks[current := tasks[current].(state := Ready)];
      }
    }

    /** The timer handler from the state of the current task on. */
    method RunTurn(copy: nat)
      requires Valid() && current in tasks && tasks[current].state != Hold && (copy != 0 ==> copy !in tasks)
      modifies this
      ensures Valid() && View() == Turn(old(View()), copy)
    {
      hide Linked, Pick, Handle, Select, Turn, Queue.Inv, Queue.Good;
      ghost var q := View();
      TurnGood(q, copy);
      HandleGood(q, copy);
      NoTask(q);
      HandleState(copy);
      HeadLink(head, next, prev, chain);
      ghost var q1 := View();
      if current == 0 || tasks[current].ticks <= 0 {
        SelectGood(q1, Corpse(q));
        Switch(Corpse(q));
      }
      ghost var q2 := View();
      TurnIs(q, q1, q2, copy);
      tasks := tasks[current := tasks[current].(state := Ready)];
      tasks := tasks[current := tasks[current].(ticks := (tasks[current].ticks + 255) % 256)];
      assert View() == Resume(q2);
    }

    /** `__sched_timer_handler`; `copy` is the copy that a fork makes, null if it cannot. */
    method TimerHandler(copy: nat)
      requires Valid() && (copy != 0 ==> copy !in tasks)
      modifies this
      ensures Valid() && View() == Tick(old(View()), copy)
    {
      hide Distinct, Linked, Pick, Turn, Sound;
      ghost var q := View();
      StartGood(q);
      if current == 0 {
        HeadLink(head, next, prev, chain);
        PickReady(q, 0);
        var t := QueueNext();
        current := t;
      }
      if tasks[current].state == Hold { return; }
      RunTurn(copy);
    }

    /** What a system call does to the state of the running task (`sched_state`). */
    method SetState(state: State)
      requires Valid() && Running(View()) && state != Dead
      modifies this`tasks
      ensures Valid() && View() == Apply(old(View()), StateOp(state))
    {
      hide Distinct, Linked;
      SetGood(View(), tasks[current].(state := state));
      tasks := tasks[current := tasks[current].(state := state)];
    }

    /** `sched_exit`, up to its call of the handler: a panic if the head would die. */
    method Exit() returns (panicked: bool)
      requires Valid() && Running(View())
      modifies this`tasks
      ensures panicked == (current == head) && Valid()
      ensures View() == if panicked then old(View()) else Apply(old(View()), ExitOp)
    {
      hide Distinct, Linked;
      HeadLink(head, next, prev, chain);
      if head == current { return true; }
      SetGood(View(), tasks[current].(state := Dead));
      tasks := tasks[current := tasks[current].(state := Dead)];
      return false;
    }
  }

  lemma HeadLink(head: nat, next: Links, prev: Links, chain: seq<nat>)
    requires Linked(head, next, prev, chain)
    ensures head in chain && head in next && head in prev && prev[head] == 0 && head != 0 && chain[0] == head
    ensures next[head] == At(chain, 1)
            && (next[head] != 0 ==> next[head] in chain && next[head] in prev && next[head] != head)
  {
    assert LinkAt(next, chain, 0);
  }

  lemma ChainLink(head: nat, next: Links, prev: Links, chain: seq<nat>, i: nat)
    requires Linked(head, next, prev, chain) && i < |chain|
    ensures chain[i] in next && next[chain[i]] == At(chain, i + 1) && chain[i] != 0 && chain[i] in chain
            && chain[i] in prev
    ensures i + 1 < |chain| ==> chain[i + 1] != 0 && chain[i + 1] in chain
    ensures forall j :: 0 < j < |chain| ==> chain[j] != head
    ensures Distinct(chain) && prev[head] == 0 && head in prev
  {
    assert LinkAt(next, chain, i);
  }

  lemma NoNull(head: nat, next: Links, prev: Links, chain: seq<nat>)
    requires Linked(head, next, prev, chain)
    ensures forall i :: 0 <= i < |chain| ==> chain[i] != 0
  {
  }

  lemma FindStep(q: Queue, i: nat)
    requires i < |q.chain| && q.chain[i] in q.tasks
    ensures Find(q, i, true) == if q.tasks[q.chain[i]].state == Dead then i else Find(q, i + 1, true)
  {
  }

  lemma FindEnd(q: Queue)
    ensures Find(q, |q.chain|, true) == |q.chain|
  {
  }

  /** Nothing is left after position `i` of the search that began at `p`. */
  lemma PickHead(q: Queue, i: nat, p: nat)
    requires q.chain != [] && q.promoted == 0 && p == Position(q.chain, q.current)
    requires q.current != 0 ==> p < |q.chain| && i + 1 == |q.chain| && Find(q, i + 1, false) == Find(q, p + 1, false)
    ensures Pick(q) == q.chain[0]
  {
  }

  /** The task after position `i` ends the search, unless it is dead. */
  lemma PickNext(q: Queue, i: nat, p: nat)
    requires q.promoted == 0 && q.current != 0 && p == Position(q.chain, q.current) < |q.chain|
    requires i + 1 < |q.chain| && Find(q, i + 1, false) == Find(q, p + 1, false) && q.chain[i + 1] in q.tasks
    ensures if q.tasks[q.chain[i + 1]].state == Dead then Find(q, i + 2, false) == Find(q, p + 1, false)
            else Pick(q) == q.chain[i + 1]
  {
  }

  lemma PickPromoted(q: Queue)
    requires q.chain != [] && q.promoted != 0
    ensures Pick(q) == q.promoted
  {
  }

  lemma NullEnds(head: nat, next: Links, prev: Links, chain: seq<nat>, i: nat)
    requires Linked(head, next, prev, chain) && i <= |chain|
    ensures At(chain, i) == 0 <==> i == |chain|
    ensures Distinct(chain) && head == chain[0]
  {
  }

  /** A task that is not on the chain can be freed. */
  lemma FreeTask(head: nat, next: Links, prev: Links, chain: seq<nat>, t: nat)
    requires Linked(head, next, prev, chain) && t !in chain
    ensures Linked(head, next - {t}, prev - {t}, chain)
  {
    forall i | 0 <= i < |chain| ensures chain[i] in prev - {t} && LinkAt(next - {t}, chain, i) {
      assert LinkAt(next, chain, i) && chain[i] in chain;
    }
  }

  /** What the search for the next task relies on. */
  lemma PickReady(q: Queue, corpse: nat)
    requires q.Good(corpse) && (corpse != 0 ==> q.current == 0)
    ensures q.chain[0] in q.tasks && q.tasks[q.chain[0]].state != Dead && (q.current != 0 ==> q.current in q.chain)
    ensures q.promoted != 0 ==> q.promoted in q.tasks && q.tasks[q.promoted].state != Dead
  {
    hide Distinct;
    assert q.chain[0] in q.chain;
  }

  lemma TurnIs(q: Queue, q1: Queue, q2: Queue, copy: nat)
    requires q.Inv() && q.current in q.tasks && q.tasks[q.current].state != Hold && (copy != 0 ==> copy !in q.tasks)
    requires q.chain[0] in q.tasks && q1 == Handle(q, copy) && q1.chain != []
    requires q1.current != 0 ==> q1.current in q1.tasks
    requires if q1.current == 0 || q1.tasks[q1.current].ticks == 0 then Pick(q1) in q1.tasks
             && q2 == Select(q1) else q2 == q1
    ensures q2.current in q2.tasks && Turn(q, copy) == Resume(q2)
  {
    hide Handle, Select, Pick, Distinct;
    HandleGood(q, copy);
    if Selects(q, copy) { SelectGood(q1, Corpse(q)); }
  }
}
