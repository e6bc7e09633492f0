/** The queue of interrupt tasks and its preemptive runs, in step with the machine. */
module IrqTasks {
  import opened Integers
  import opened SentinelLists
  import opened TaskMachine

  /** What happens while interrupts are enabled: an interrupt or a task adds a task, an
      interrupt begins a nested run, or no more happens before the next atomic section. */
  datatype Happening = Added(priority: nat) | Nested | Quiet

  lemma {:induction false} RunTwice(s: State, a: seq<Step>, b: seq<Step>)
    ensures Run(Run(s, a), b) == Run(s, a + b)
    decreases |b|
  {
    hide Next;
    if b == [] {
      assert a + b == a;
    } else {
      var n := |b| - 1;
      RunTwice(s, a, b[..n]);
      assert (a + b)[..|a| + n] == a + b[..n];
    }
  }

  lemma RunOne(s: State, a: seq<Step>, step: Step)
    ensures Run(s, a + [step]) == Next(Run(s, a), step)
  {
    hide Next;
    assert (a + [step])[..|a|] == a;
  }

  lemma NoStep(s: State)
    ensures Run(s, []) == s
  {
  }

  lemma Begun(s: State)
    requires Good(s)
    ensures Good(Next(s, Enter)) && Run(s, [Enter]) == Next(s, Enter)
    ensures Next(s, Enter) == s.(stack := s.stack + [Checking])
  {
    EnterKeeps(s);
    NoStep(s);
    RunOne(s, [], Enter);
    assert [] + [Enter] == [Enter];
  }

  lemma Arrived(s: State, priority: nat)
    ensures Next(s, Arrive(priority)).stack == s.stack
  {
  }

  /** What the machine does at a check. */
  lemma Checked(s: State, below: seq<Frame>)
    requires Good(s) && s.stack == below + [Checking]
    ensures var t := Next(s, Check);
      Good(t)
      && (s.queue == [] || Unsigned(s.level) <= s.queue[0].key ==>
        t == s.(stack := below) && forall i :: 0 <= i < |t.queue| ==> t.queue[i].key >= t.level)
      && (s.queue != [] && Unsigned(s.level) > s.queue[0].key ==>
        t.queue == s.queue[1..] && t.level == ToInt(s.queue[0].key)
        && t.stack == below + [Working(s.queue[0], s.level)])
  {
    hide Level, Stacked, Running, Conserved, FirstComeFirst;
    CheckKeeps(s);
    assert Below(s) == below;
    PushTop(below, Checking);
    LevelRange(below);
    forall i | 0 < i < |s.queue|
      ensures s.queue[i].key >= s.queue[0].key
    {
      assert Before(s.queue[0], s.queue[i]);
    }
  }

  lemma Finished(s: State, below: seq<Frame>, task: Entry, saved: int)
    requires Good(s) && s.stack == below + [Working(task, saved)]
    ensures var t := Next(s, Finish);
      Good(t) && t.queue == s.queue && t.level == saved && t.stack == below + [Checking]
  {
    hide Good;
    FinishKeeps(s);
    assert Below(s) == below;
  }

  class Tasks {
    const list: SentinelList
    /** The priority of the task that runs. */
    var level: int
    ghost var s: State

    ghost predicate Valid()
      reads this, list, list.repr
    {
      list.Valid() && list.Contents() == s.queue && level == s.level && Good(s)
    }

    constructor ()
      ensures Valid() && fresh(list) && fresh(list.repr) && s == INITIAL
    {
      list := new SentinelList(false);
      level := IDLE;
      s := INITIAL;
      new;
      InitiallyGood();
    }

    /** A task takes its place behind those of the same priority. */
    method Add(priority: nat)
      requires Valid()
      modifies this, list, list.repr
      ensures Valid() && fresh(list.repr - old(list.repr))
      ensures s == Next(old(s), Arrive(priority))
    {
      hide Good, Insert, Inner;
      var current := list.head;
      ghost var i := 0;
      while current.next != null
        invariant 0 <= i < |list.nodes| - 1 && current == list.nodes[i]
        invariant forall k :: 0 <= k < i ==> s.queue[k].key <= priority
        invariant current.next == list.nodes[i + 1]
        decreases |list.nodes| - i
      {
        var next := current.next;
        if next != list.tail && priority < next.key {
          break;
        }
        if next == list.tail {
          break;
        }
        assert s.queue[i] == next.AsEntry();
        current := next;
        i := i + 1;
      }
      assert i < |s.queue| ==> s.queue[i] == list.nodes[i + 1].AsEntry();
      InsertIsAt(s.queue, Entry(priority, |s.arrived|), i);
      ArriveKeeps(s, priority);
      var task := list.InsertAfter(current, priority, |s.arrived|, i);
      s := Next(s, Arrive(priority));
    }

    /** One run, with any interrupts whatever between its atomic sections, is a run of
        the machine that leaves the stack as it was and no more urgent task waiting. */
    method RunPreemptive(happenings: seq<Happening>) returns (rest: seq<Happening>, ghost steps: seq<Step>)
      requires Valid()
      modifies this, list, list.repr
      ensures Valid() && fresh(list.repr - old(list.repr))
      ensures s == Run(old(s), steps) && s.stack == old(s.stack) && |rest| <= |happenings|
      ensures forall i :: 0 <= i < |s.queue| ==> s.queue[i].key >= level
      decreases |happenings|, 1
    {
      hide Good, Next, Run, Inner;
      rest := happenings;
      Begun(s);
      s := Next(s, Enter);
      steps := [Enter];
      while true
        invariant Valid() && fresh(list.repr - old(list.repr))
        invariant s == Run(old(s), steps) && s.stack == old(s.stack) + [Checking] && |rest| <= |happenings|
        decreases |rest|, |s.queue|
      {
        ghost var more;
        rest, more := Interrupts(rest);
        RunTwice(old(s), steps, more);
        steps := steps + more;
        Checked(s, old(s.stack));
        RunOne(old(s), steps, Check);
        steps := steps + [Check];
        if list.head.next == list.tail {
          s := Next(s, Check);
          break;
        }
        var the_task := list.head.next;
        assert s.queue[0] == the_task.AsEntry();
        if Unsigned(level) <= the_task.key {
          s := Next(s, Check);
          break;
        }
        list.RemoveFirst(the_task);
        var prev_level := level;
        level := ToInt(the_task.key);
        s := Next(s, Check);
        rest, more := Interrupts(rest);
        RunTwice(old(s), steps, more);
        Finished(s, old(s.stack), the_task.AsEntry(), prev_level);
        RunOne(old(s), steps + more, Finish);
        steps := steps + more + [Finish];
        level := prev_level;
        s := Next(s, Finish);
      }
    }

    /** What happens until the next atomic section. */
    method Interrupts(happenings: seq<Happening>) returns (rest: seq<Happening>, ghost steps: seq<Step>)
      requires Valid()
      modifies this, list, list.repr
      ensures Valid() && fresh(list.repr - old(list.repr))
      ensures s == Run(old(s), steps) && s.stack == old(s.stack)
      ensures |rest| < |happenings| || (rest == happenings && s == old(s))
      decreases |happenings|, 0
    {
      hide Good, Next, Run, Inner;
      rest, steps := happenings, [];
      NoStep(s);
      while rest != [] && rest[0] != Quiet
        invariant Valid() && fresh(list.repr - old(list.repr))
        invariant s == Run(old(s), steps) && s.stack == old(s.stack)
        invariant |rest| < |happenings| || (rest == happenings && s == old(s))
        decreases |rest|
      {
        if rest[0].Added? {
          Arrived(s, rest[0].priority);
          RunOne(old(s), steps, Arrive(rest[0].priority));
          steps := steps + [Arrive(rest[0].priority)];
          Add(rest[0].priority);
          rest := rest[1..];
        } else {
          ghost var more;
          rest, more := RunPreemptive(rest[1..]);
          RunTwice(old(s), steps, more);
          steps := steps + more;
        }
      }
      if rest != [] {
        rest := rest[1..];
      }
    }
  }
}
