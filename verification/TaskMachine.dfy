/** Interrupt tasks as a machine: the atomic sections are its steps, and between any
    two of them interrupts may add tasks and begin a nested run. */
module TaskMachine {
  import opened Integers
  import opened SentinelLists

  /** The level at which nothing runs. */
  const IDLE := 9999
  const U64 := 0x1_0000_0000_0000_0000

  /** A run between two tasks, or a run whose task has been called, with the level to
      return to. */
  datatype Frame = Checking | Working(task: Entry, saved: int)

  /** The stack has the innermost run last. The histories have arrivals, starts and
      ends in the order in which they happened. */
  datatype State = State(queue: seq<Entry>, level: int, stack: seq<Frame>, arrived: seq<Entry>,
    started: seq<Entry>, finished: seq<Entry>)

  datatype Step = Arrive(priority: nat) | Enter | Check | Finish

  const INITIAL := State([], IDLE, [], [], [], [])

  /** An int compared with an unsigned long long. */
  function Unsigned(v: int): int {
    if v < 0 then v + U64 else v
  }

  function Top(s: State): Frame
    requires s.stack != []
  {
    s.stack[|s.stack| - 1]
  }

  function Below(s: State): seq<Frame>
    requires s.stack != []
  {
    s.stack[..|s.stack| - 1]
  }

  /** A step that cannot be taken changes nothing. */
  function Next(s: State, step: Step): State {
    match step
    case Arrive(priority) =>
      var e := Entry(priority, |s.arrived|);
      s.(queue := Insert(s.queue, e), arrived := s.arrived + [e])
    case Enter => s.(stack := s.stack + [Checking])
    case Check =>
      if s.stack == [] || Top(s).Working? then s
      else if s.queue == [] || Unsigned(s.level) <= s.queue[0].key then s.(stack := Below(s))
      else
        var e := s.queue[0];
        s.(queue := s.queue[1..], level := ToInt(e.key), stack := Below(s) + [Working(e, s.level)],
          started := s.started + [e])
    case Finish =>
      if s.stack == [] || Top(s).Checking? then s
      else
        s.(level := Top(s).saved, stack := Below(s) + [Checking], finished := s.finished + [Top(s).task])
  }

  function Run(s: State, steps: seq<Step>): State {
    if steps == [] then s else Next(Run(s, steps[..|steps| - 1]), steps[|steps| - 1])
  }

  // What every run keeps.

  /** The level of a stack is the priority of its innermost task. */
  function Level(stack: seq<Frame>): int {
    if stack == [] then IDLE
    else
      var f := stack[|stack| - 1];
      if f.Working? then f.task.key else Level(stack[..|stack| - 1])
  }

  /** Every task is more urgent than those below it, and knows their level. */
  predicate Stacked(stack: seq<Frame>) {
    stack == [] || (
      var f, below := stack[|stack| - 1], stack[..|stack| - 1];
      Stacked(below) && (f.Working? ==> f.saved == Level(below) && f.task.key < Level(below)))
  }

  function Running(stack: seq<Frame>): seq<Entry> {
    if stack == [] then []
    else
      var f := stack[|stack| - 1];
      Running(stack[..|stack| - 1]) + if f.Working? then [f.task] else []
  }

  /** Tasks of equal priority start in the order in which they arrived, and those that
      wait arrived after those that have started. */
  predicate FirstComeFirst(started: seq<Entry>, queue: seq<Entry>) {
    (forall i, j :: 0 <= i < j < |started| && started[i].key == started[j].key ==> started[i].id < started[j].id)
    && (forall i, j :: 0 <= i < |started| && 0 <= j < |queue| && started[i].key == queue[j].key ==>
        started[i].id < queue[j].id)
  }

  predicate Conserved(s: State) {
    multiset(s.arrived) == multiset(s.queue) + multiset(s.started)
    && multiset(s.started) == multiset(Running(s.stack)) + multiset(s.finished)
  }

  predicate Good(s: State) {
    InOrder(s.queue) && Older(s.queue, |s.arrived|) && Older(s.started, |s.arrived|)
    && Stacked(s.stack) && s.level == Level(s.stack)
    && ArrivalsAre(s.arrived) && FirstComeFirst(s.started, s.queue) && Conserved(s)
    && forall i :: 0 <= i < |s.started| ==> s.started[i].key < IDLE
  }

  lemma {:induction false} LevelRange(stack: seq<Frame>)
    requires Stacked(stack)
    ensures 0 <= Level(stack) <= IDLE
  {
    if stack != [] {
      LevelRange(stack[..|stack| - 1]);
    }
  }

  lemma ArriveKeeps(s: State, priority: nat)
    requires Good(s)
    ensures Good(Next(s, Arrive(priority)))
  {
    hide Stacked, Level, Running;
    var e := Entry(priority, |s.arrived|);
    InsertKeepsOrder(s.queue, e);
    InsertCounts(s.queue, e);
    var q := Insert(s.queue, e);
    forall j | 0 <= j < |q|
      ensures q[j] == e || exists i :: 0 <= i < |s.queue| && s.queue[i] == q[j]
    {
      assert q[j] in q;
    }
  }

  lemma PushTop(below: seq<Frame>, f: Frame)
    ensures (below + [f])[|below|] == f && (below + [f])[..|below|] == below
    ensures Level(below + [f]) == if f.Working? then f.task.key else Level(below)
    ensures Running(below + [f]) == Running(below) + if f.Working? then [f.task] else []
    ensures Stacked(below + [f]) <==>
      Stacked(below) && (f.Working? ==> f.saved == Level(below) && f.task.key < Level(below))
  {
    assert (below + [f])[..|below|] == below;
  }

  lemma EnterKeeps(s: State)
    requires Good(s)
    ensures Good(Next(s, Enter))
  {
    PushTop(s.stack, Checking);
    assert Running(s.stack) + [] == Running(s.stack);
  }

  lemma CheckKeeps(s: State)
    requires Good(s)
    ensures Good(Next(s, Check))
  {
    hide Stacked, Level, Running, InOrder, Older, FirstComeFirst;
    if s.stack != [] && Top(s).Checking? {
      assert s.stack == Below(s) + [Checking];
      PushTop(Below(s), Checking);
      assert Running(Below(s)) + [] == Running(Below(s));
      LevelRange(Below(s));
      if s.queue != [] && s.level > s.queue[0].key {
        var e := s.queue[0];
        PushTop(Below(s), Working(e, s.level));
        StartKeepsOrder(s.queue, s.started, |s.arrived|);
        assert s.queue == [e] + s.queue[1..];
      }
    }
  }

  /** Starting the first that waits. */
  lemma StartKeepsOrder(q: seq<Entry>, started: seq<Entry>, n: nat)
    requires q != [] && InOrder(q) && Older(q, n) && Older(started, n) && FirstComeFirst(started, q)
    ensures InOrder(q[1..]) && Older(q[1..], n) && Older(started + [q[0]], n)
    ensures FirstComeFirst(started + [q[0]], q[1..])
  {
    assert forall j :: 0 < j < |q| ==> Before(q[0], q[j]);
  }

  lemma FinishKeeps(s: State)
    requires Good(s)
    ensures Good(Next(s, Finish))
  {
    hide Stacked, Level, Running;
    if s.stack != [] && Top(s).Working? {
      var f := Top(s);
      assert s.stack == Below(s) + [f];
      PushTop(Below(s), f);
      PushTop(Below(s), Checking);
      assert Running(Below(s)) + [] == Running(Below(s));
    }
  }

  lemma {:induction false} RunKeeps(s: State, steps: seq<Step>)
    requires Good(s)
    ensures Good(Run(s, steps))
  {
    if steps != [] {
      var before := Run(s, steps[..|steps| - 1]);
      RunKeeps(s, steps[..|steps| - 1]);
      match steps[|steps| - 1] {
        case Arrive(priority) => ArriveKeeps(before, priority);
        case Enter => EnterKeeps(before);
        case Check => CheckKeeps(before);
        case Finish => FinishKeeps(before);
      }
    }
  }

  // What that means.

  lemma {:induction false} Urgency(stack: seq<Frame>, i: nat, j: nat)
    requires Stacked(stack) && i < j < |stack| && stack[i].Working? && stack[j].Working?
    ensures stack[j].task.key < stack[i].task.key < IDLE
  {
    var below := stack[..|stack| - 1];
    if j < |below| {
      Urgency(below, i, j);
    } else {
      MoreUrgentThan(below, i);
    }
  }

  lemma {:induction false} MoreUrgentThan(stack: seq<Frame>, i: nat)
    requires Stacked(stack) && i < |stack| && stack[i].Working?
    ensures Level(stack) <= stack[i].task.key < IDLE
  {
    var below := stack[..|stack| - 1];
    LevelRange(below);
    if i < |below| {
      MoreUrgentThan(below, i);
    }
  }

  /** In every reachable state the running tasks are a stack of strictly increasing
      urgency; each task that has arrived waits, runs or is done, exactly one of them
      and once; and equal priorities have started in order of arrival. */
  lemma AlwaysSafe(steps: seq<Step>)
    ensures var s := Run(INITIAL, steps);
      (forall i, j :: 0 <= i < j < |s.stack| && s.stack[i].Working? && s.stack[j].Working? ==>
        s.stack[j].task.key < s.stack[i].task.key)
      && multiset(s.arrived) == multiset(s.queue) + multiset(Running(s.stack)) + multiset(s.finished)
      && (forall e :: multiset(s.arrived)[e] <= 1)
      && (forall i, j :: 0 <= i < j < |s.started| && s.started[i].key == s.started[j].key ==>
        s.started[i].id < s.started[j].id)
  {
    hide Run, Running;
    var s := Run(INITIAL, steps);
    InitiallyGood();
    RunKeeps(INITIAL, steps);
    forall i, j | 0 <= i < j < |s.stack| && s.stack[i].Working? && s.stack[j].Working?
      ensures s.stack[j].task.key < s.stack[i].task.key
    {
      Urgency(s.stack, i, j);
    }
    forall e
      ensures multiset(s.arrived)[e] <= 1
    {
      OnceEach(s.arrived, e);
    }
  }

  lemma InitiallyGood()
    ensures Good(INITIAL)
  {
  }

  /** Between s and t the task e has started, the first of those that waited. */
  predicate Starts(s: State, t: State, e: Entry)
    requires s.stack != []
  {
    e in s.queue && t.stack == Below(s) + [Working(e, s.level)] && t.level == e.key < Level(Below(s))
    && forall i :: 0 <= i < |s.queue| && s.queue[i] != e ==> Before(e, s.queue[i])
  }

  /** A check either starts the first of the tasks that wait, more urgent than all that
      run, or ends the run, and then none that waits is more urgent than what runs. */
  predicate Decides(s: State, t: State)
    requires s.stack != []
  {
    if exists i :: 0 <= i < |s.queue| && s.queue[i].key < Level(s.stack) then
      |t.started| == |s.started| + 1 && t.started[..|s.started|] == s.started
      && Starts(s, t, t.started[|s.started|])
    else t == s.(stack := Below(s))
  }

  lemma CheckDecides(steps: seq<Step>)
    requires Run(INITIAL, steps).stack != [] && Top(Run(INITIAL, steps)).Checking?
    ensures Decides(Run(INITIAL, steps), Run(INITIAL, steps + [Check]))
  {
    hide Run, Good, Next, Decides, Top;
    RunMore(steps, Check);
    InitiallyGood();
    RunKeeps(INITIAL, steps);
    GoodDecides(Run(INITIAL, steps));
  }

  lemma GoodDecides(s: State)
    requires Good(s) && s.stack != [] && Top(s).Checking?
    ensures Decides(s, Next(s, Check))
  {
    hide Running, Stacked, Level, Conserved, FirstComeFirst;
    assert s.stack == Below(s) + [Checking];
    PushTop(Below(s), Checking);
    LevelRange(Below(s));
    if s.queue != [] && s.queue[0].key >= Level(s.stack) {
      forall i | 0 <= i < |s.queue|
        ensures s.queue[i].key >= Level(s.stack)
      {
        assert i > 0 ==> Before(s.queue[0], s.queue[i]);
      }
    }
  }

  lemma RunMore(steps: seq<Step>, step: Step)
    ensures Run(INITIAL, steps + [step]) == Next(Run(INITIAL, steps), step)
  {
    assert (steps + [step])[..|steps|] == steps;
  }

  // Without further interrupts.

  function Weight(stack: seq<Frame>): nat {
    if stack == [] then 0
    else Weight(stack[..|stack| - 1]) + if stack[|stack| - 1].Working? then 2 else 1
  }

  lemma PushWeight(below: seq<Frame>, f: Frame)
    ensures Weight(below + [f]) == Weight(below) + if f.Working? then 2 else 1
  {
    assert (below + [f])[..|below|] == below;
  }

  function Onward(s: State): (t: State)
    requires s.stack != []
    ensures 3 * |t.queue| + Weight(t.stack) < 3 * |s.queue| + Weight(s.stack)
  {
    assert s.stack == Below(s) + [Top(s)];
    PushWeight(Below(s), Top(s));
    PushWeight(Below(s), Checking);
    if s.queue != [] then
      PushWeight(Below(s), Working(s.queue[0], s.level));
      Next(s, if Top(s).Checking? then Check else Finish)
    else Next(s, if Top(s).Checking? then Check else Finish)
  }

  /** The state in which all runs have returned. */
  function Settle(s: State): State
    decreases 3 * |s.queue| + Weight(s.stack)
  {
    if s.stack == [] then s else Settle(Onward(s))
  }

  /** When the runs return, exactly the tasks that are more urgent than idling have been done. */
  lemma {:induction false} SettleDoesAll(s: State)
    requires Good(s) && s.stack != []
    ensures var r := Settle(s);
      Good(r) && r.stack == [] && r.arrived == s.arrived && r.level == 9999
      && multiset(r.arrived) == multiset(r.queue) + multiset(r.finished)
      && (forall e :: e in r.finished <==> e in s.arrived && e.key < 9999)
    decreases 3 * |s.queue| + Weight(s.stack)
  {
    hide Settle, Onward, Next, Weight, Good;
    var t := Onward(s);
    SettleStep(s);
    CheckKeeps(s);
    FinishKeeps(s);
    if t.stack != [] {
      SettleDoesAll(t);
    } else {
      LastCheck(s);
      NothingRuns(t);
    }
  }

  /** A task of the idle level or beyond never starts. */
  lemma NeverStarts()
    ensures var s := Run(INITIAL, [Arrive(9999), Enter, Check]);
      s.arrived == [Entry(9999, 0)] && s.queue == [Entry(9999, 0)] && s.started == [] && s.stack == []
  {
    hide Run;
    var a, b, c := Arrive(IDLE), [Arrive(IDLE), Enter], [Arrive(IDLE), Enter, Check];
    assert [] + [a] == [a] && [a] + [Enter] == b && b + [Check] == c;
    NoSteps(INITIAL);
    OneMoreStep(INITIAL, [], a);
    OneMoreStep(INITIAL, [a], Enter);
    OneMoreStep(INITIAL, b, Check);
    assert Insert([], Entry(IDLE, 0)) == [Entry(IDLE, 0)];
  }

  lemma NoSteps(s: State)
    ensures Run(s, []) == s
  {
  }

  lemma OneMoreStep(s: State, steps: seq<Step>, step: Step)
    ensures Run(s, steps + [step]) == Next(Run(s, steps), step)
  {
    assert (steps + [step])[..|steps|] == steps;
  }

  lemma SettleStep(s: State)
    requires s.stack != []
    ensures Onward(s) == Next(s, if Top(s).Checking? then Check else Finish)
    ensures Settle(s) == Settle(Onward(s)) && (Onward(s).stack == [] ==> Settle(s) == Onward(s))
    ensures Onward(s).arrived == s.arrived
  {
  }

  lemma LastCheck(s: State)
    requires Good(s) && s.stack != [] && Onward(s).stack == []
    ensures forall i :: 0 <= i < |Onward(s).queue| ==> Onward(s).queue[i].key >= IDLE
  {
    assert Level(s.stack) == IDLE;
  }

  lemma NothingRuns(s: State)
    requires Good(s) && s.stack == [] && forall i :: 0 <= i < |s.queue| ==> s.queue[i].key >= IDLE
    ensures s.level == IDLE && multiset(s.arrived) == multiset(s.queue) + multiset(s.finished)
    ensures forall e :: e in s.finished <==> e in s.arrived && e.key < IDLE
  {
    assert multiset(s.started) == multiset(s.finished);
    forall e ensures e in s.finished <==> e in s.arrived && e.key < IDLE {
      assert e in s.finished <==> e in multiset(s.started);
      assert e in s.arrived <==> e in multiset(s.queue) + multiset(s.started);
    }
  }
}
