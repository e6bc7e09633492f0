/** The timer queue: pending events by deadline, and the deadline for which the core
    timer is armed. */
module Timers {
  import opened SentinelLists
  import opened Slices

  /** Armed for a tick, or for a number of seconds from the moment of arming. */
  datatype Armed = Never | AtTick(tick: nat) | InSeconds(seconds: nat)

  const FAR := 10000

  function InsertAll(q: seq<Entry>, xs: seq<Entry>): seq<Entry> {
    if xs == [] then q else Insert(InsertAll(q, xs[..|xs| - 1]), xs[|xs| - 1])
  }

  /** Events with these deadlines, numbered from n. */
  function Numbered(deadlines: seq<nat>, n: nat): (r: seq<Entry>)
    ensures |r| == |deadlines|
  {
    seq(|deadlines|, i requires 0 <= i < |deadlines| => Entry(deadlines[i], n + i))
  }

  // Runs of the queue.

  /** The pending events, all that were ever added, and those that fired, in order. */
  datatype State = State(pending: seq<Entry>, armed: Armed, added: seq<Entry>, fired: seq<Entry>)

  /** A timer is added, or the timer interrupt is handled and the callback of the event
      adds timers of its own. */
  datatype Step = Add(deadline: nat) | Fire(adds: seq<nat>)

  function Next(s: State, step: Step): State {
    match step
    case Add(deadline) =>
      var e := Entry(deadline, |s.added|);
      var q := Insert(s.pending, e);
      s.(pending := q, added := s.added + [e], armed := if q[0] == e then AtTick(deadline) else s.armed)
    case Fire(adds) =>
      if s.pending == [] then s.(armed := InSeconds(FAR))
      else
        var new_events := Numbered(adds, |s.added|);
        var q := InsertAll(s.pending[1..], new_events);
        State(q, if q == [] then InSeconds(FAR) else AtTick(q[0].key), s.added + new_events,
          s.fired + [s.pending[0]])
  }

  function Run(s: State, steps: seq<Step>): State {
    if steps == [] then s else Next(Run(s, steps[..|steps| - 1]), steps[|steps| - 1])
  }

  predicate Good(s: State) {
    InOrder(s.pending) && Older(s.pending, |s.added|)
    && ArrivalsAre(s.added)
    && (s.pending != [] ==> s.armed == AtTick(s.pending[0].key))
    && multiset(s.added) == multiset(s.pending) + multiset(s.fired)
  }

  /** Inserting events one by one, each younger than all before it. */
  lemma {:induction false} InsertAllKeeps(q: seq<Entry>, deadlines: seq<nat>, n: nat)
    requires InOrder(q) && Older(q, n)
    ensures var r := InsertAll(q, Numbered(deadlines, n));
      InOrder(r) && Older(r, n + |deadlines|) && multiset(r) == multiset(q) + multiset(Numbered(deadlines, n))
  {
    var xs := Numbered(deadlines, n);
    if deadlines == [] {
      assert xs == [];
    } else {
      var m := |deadlines| - 1;
      assert xs[..m] == Numbered(deadlines[..m], n);
      assert xs == xs[..m] + [xs[m]];
      InsertAllKeeps(q, deadlines[..m], n);
      InsertedLast(InsertAll(q, xs[..m]), xs[m]);
    }
  }

  lemma InsertedLast(q: seq<Entry>, x: Entry)
    requires InOrder(q) && Older(q, x.id)
    ensures InOrder(Insert(q, x)) && Older(Insert(q, x), x.id + 1)
    ensures multiset(Insert(q, x)) == multiset(q) + multiset{x}
  {
    InsertKeepsOrder(q, x);
    InsertCounts(q, x);
    var r := Insert(q, x);
    forall i | 0 <= i < |r|
      ensures r[i].id < x.id + 1
    {
      assert r[i] in r;
    }
  }

  lemma {:induction false} FirstInserted(q: seq<Entry>, x: Entry)
    ensures Insert(q, x) != []
    ensures Insert(q, x)[0] == if q == [] || x.key < q[0].key then x else q[0]
  {
  }

  /** Deadline order, ties, the armed deadline and conservation are kept by every step. */
  lemma NextKeeps(s: State, step: Step)
    requires Good(s)
    ensures Good(Next(s, step))
  {
    if step.Add? {
      AddKeeps(s, step.deadline);
    } else {
      FireKeeps(s, step.adds);
    }
  }

  lemma AddKeeps(s: State, deadline: nat)
    requires Good(s)
    ensures Good(Next(s, Add(deadline)))
  {
    hide Insert, InOrder;
    var e := Entry(deadline, |s.added|);
    InsertedLast(s.pending, e);
    FirstInserted(s.pending, e);
  }

  lemma FireKeeps(s: State, adds: seq<nat>)
    requires Good(s)
    ensures Good(Next(s, Fire(adds)))
  {
    hide InsertAll;
    if s.pending != [] {
      var e, q, xs := s.pending[0], s.pending[1..], Numbered(adds, |s.added|);
      assert s.pending == [e] + q;
      InsertAllKeeps(q, adds, |s.added|);
      hide InOrder;
      var t := Next(s, Fire(adds));
      assert multiset(t.added) == multiset(s.added) + multiset(xs);
      assert multiset(t.fired) == multiset(s.fired) + multiset{e};
      assert multiset(s.pending) == multiset{e} + multiset(q);
    }
  }

  /** In every reachable state: pending events are in order of deadline and arrival, the
      armed deadline is that of the first, and each event is pending or has fired, once. */
  lemma {:induction false} AlwaysSafe(armed: Armed, steps: seq<Step>)
    ensures var s := Run(State([], armed, [], []), steps);
      Good(s) && (forall e :: multiset(s.pending)[e] + multiset(s.fired)[e] <= 1)
  {
    var s := Run(State([], armed, [], []), steps);
    if steps != [] {
      AlwaysSafe(armed, steps[..|steps| - 1]);
      NextKeeps(Run(State([], armed, [], []), steps[..|steps| - 1]), steps[|steps| - 1]);
    }
    forall e
      ensures multiset(s.pending)[e] + multiset(s.fired)[e] <= 1
    {
      OnceEach(s.added, e);
    }
  }

  /** Between s and t the event e, the earliest, has fired, and no other has gone. */
  predicate Fires(s: State, t: State, e: Entry) {
    t.fired == s.fired + [e] && e in s.pending && e !in t.pending
    && forall other :: other in s.pending && other != e ==> Before(e, other) && other in t.pending
  }

  /** What fires comes before all that was pending, also when its callback adds events
      that are due earlier. */
  lemma FiresEarliest(s: State, adds: seq<nat>)
    requires Good(s) && s.pending != []
    ensures exists e :: Fires(s, Next(s, Fire(adds)), e)
  {
    hide InsertAll, Numbered;
    var e, q, n := s.pending[0], s.pending[1..], |s.added|;
    assert s.pending == [e] + q;
    InsertAllKeeps(q, adds, n);
    var r := InsertAll(q, Numbered(adds, n));
    assert e !in q;
    NotAmong(adds, n, e);
    assert multiset(r)[e] == multiset(q)[e] + multiset(Numbered(adds, n))[e] == 0;
    forall other | other in s.pending && other != e
      ensures Before(e, other) && other in r
    {
      assert other in multiset(q) && other in multiset(r);
    }
    assert Fires(s, Next(s, Fire(adds)), e);
  }

  lemma NotAmong(deadlines: seq<nat>, n: nat, e: Entry)
    requires e.id < n
    ensures multiset(Numbered(deadlines, n))[e] == 0
  {
    assert e !in Numbered(deadlines, n);
  }

  /** After an interrupt the timer is armed for the first event, and far away if there is none. */
  lemma FireArms(s: State, adds: seq<nat>)
    requires Good(s)
    ensures var t := Next(s, Fire(adds));
      t.armed == if t.pending == [] then InSeconds(10000) else AtTick(t.pending[0].key)
  {
    hide InsertAll, Numbered;
  }

  /** Nothing pending, and one event that adds none. */
  lemma FireArmsFar(e: Entry)
    ensures Next(State([], Never, [], []), Fire([])).armed == InSeconds(10000)
    ensures Next(State([e], AtTick(e.key), [e], []), Fire([])).armed == InSeconds(10000)
  {
    NoneNumbered(1, []);
    assert [e][1..] == [];
  }

  // The list during a callback.

  lemma InsertInFront(q: seq<Entry>, k: nat, x: Entry)
    requires InOrder(q) && k < |q| && x.key < q[0].key
    ensures x.key < q[k].key && Insert(q, x) == [x] + q
    ensures Without([x] + q, k + 1) == [x] + Without(q, k) == Insert(Without(q, k), x)
  {
    hide InOrder, Without;
    FrontIsLeast(q, k);
    WithoutHead(x, q, k + 1);
    WithoutKeepsLeast(q, k);
  }

  lemma FrontIsLeast(q: seq<Entry>, k: nat)
    requires InOrder(q) && k < |q|
    ensures q[0].key <= q[k].key
  {
    assert k > 0 ==> Before(q[0], q[k]);
  }

  lemma WithoutKeepsLeast(q: seq<Entry>, k: nat)
    requires InOrder(q) && k < |q|
    ensures Without(q, k) != [] ==> q[0].key <= Without(q, k)[0].key
  {
    assert |q| > 1 ==> Before(q[0], q[1]);
  }

  lemma InsertBehind(a: Entry, q: seq<Entry>, x: Entry)
    requires x.key >= a.key
    ensures Insert([a] + q, x) == [a] + Insert(q, x)
  {
    assert ([a] + q)[1..] == q;
  }

  lemma WithoutHead(a: Entry, q: seq<Entry>, k: nat)
    requires k <= |q|
    ensures Without([a] + q, k) == if k == 0 then q else [a] + Without(q, k - 1)
  {
  }

  /** Inserting and then taking an entry away is taking it away and then inserting. */
  lemma {:induction false} InsertAround(q: seq<Entry>, k: nat, x: Entry)
    requires InOrder(q) && k < |q|
    ensures var m := if x.key < q[k].key then k + 1 else k;
      m < |Insert(q, x)| && Insert(q, x)[m] == q[k] && Without(Insert(q, x), m) == Insert(Without(q, k), x)
  {
    assert q == [q[0]] + q[1..];
    if x.key < q[0].key {
      InsertInFront(q, k, x);
    } else if k == 0 {
      WithoutHead(q[0], q[1..], 0);
      WithoutHead(q[0], Insert(q[1..], x), 0);
    } else {
      InsertAround(q[1..], k - 1, x);
      hide Insert, Without;
      var rest := q[1..];
      var m := if x.key < q[k].key then k + 1 else k;
      InsertBehind(q[0], rest, x);
      WithoutHead(q[0], rest, k);
      WithoutHead(q[0], Insert(rest, x), m);
      InsertBehind(q[0], Without(rest, k - 1), x);
    }
  }

  /** What the list holds during the callback of an event: that event, and around it
      what would be there if it had gone before. */
  predicate Around(contents: seq<Entry>, k: nat, first: Entry, rest: seq<Entry>) {
    InOrder(contents) && k < |contents| && contents[k] == first && Without(contents, k) == rest
  }

  lemma StillAround(contents: seq<Entry>, k: nat, first: Entry, rest: seq<Entry>, x: Entry)
    requires Around(contents, k, first, rest) && Older(contents, x.id)
    ensures Around(Insert(contents, x), if x.key < first.key then k + 1 else k, first, Insert(rest, x))
    ensures Older(Insert(contents, x), x.id + 1)
  {
    InsertAround(contents, k, x);
    InsertedLast(contents, x);
  }

  lemma AroundFirst(contents: seq<Entry>)
    requires InOrder(contents) && contents != []
    ensures Around(contents, 0, contents[0], contents[1..])
  {
  }

  lemma Removed(contents: seq<Entry>, k: nat, first: Entry, rest: seq<Entry>)
    requires Around(contents, k, first, rest)
    ensures k < |contents| && contents[..k] + contents[k + 1..] == rest
  {
  }

  /** Where an event stands in order is where a search for the first later one ends. */
  lemma SideOf(contents: seq<Entry>, k: nat, x: Entry, p: nat)
    requires InOrder(contents) && k < |contents| && p <= |contents|
    requires forall j :: 0 <= j < p ==> contents[j].key <= x.key
    requires p < |contents| ==> x.key < contents[p].key
    ensures x.key < contents[k].key <==> p <= k
  {
    if p < k {
      assert Before(contents[p], contents[k]);
    }
  }

  /** An event keeps its node when another is added. */
  lemma KeepsNode(nodes: seq<Node>, after: seq<Node>, contents: seq<Entry>, k: nat, first: Entry, rest: seq<Entry>,
      x: Entry, p: nat)
    requires |contents| == |nodes| - 2 && |after| == |nodes| + 1
    requires Around(contents, k, first, rest) && Older(contents, x.id)
    requires p <= |contents| && (forall j :: 0 <= j < p ==> contents[j].key <= x.key)
    requires p < |contents| ==> x.key < contents[p].key
    requires forall j :: 0 <= j < |nodes| ==> nodes[j] == after[if j <= p then j else j + 1]
    ensures k + 1 < |nodes|
    ensures var m := if x.key < first.key then k + 1 else k;
      m + 1 < |after| && after[m + 1] == nodes[k + 1] && Around(Insert(contents, x), m, first, Insert(rest, x))
    ensures Older(Insert(contents, x), x.id + 1)
  {
    StillAround(contents, k, first, rest, x);
    SideOf(contents, k, x, p);
  }

  lemma NoneNumbered(n: nat, q: seq<Entry>)
    ensures Numbered([], n) == [] && InsertAll(q, []) == q
  {
  }

  lemma MoreNumbered(deadlines: seq<nat>, n: nat, i: nat, q: seq<Entry>)
    requires i < |deadlines|
    ensures Numbered(deadlines[..i + 1], n) == Numbered(deadlines[..i], n) + [Entry(deadlines[i], n + i)]
    ensures InsertAll(q, Numbered(deadlines[..i + 1], n))
      == Insert(InsertAll(q, Numbered(deadlines[..i], n)), Entry(deadlines[i], n + i))
  {
    var xs := Numbered(deadlines[..i + 1], n);
    assert xs[..i] == Numbered(deadlines[..i], n);
  }

  class TimerQueue {
    const list: SentinelList
    var armed: Armed
    ghost var added: seq<Entry>
    ghost var fired: seq<Entry>

    ghost function Snapshot(): State
      reads this, list
      requires |list.nodes| >= 2
    {
      State(list.Contents(), armed, added, fired)
    }

    constructor ()
      ensures list.Valid() && fresh(list) && fresh(list.repr) && Snapshot() == State([], Never, [], [])
    {
      list := new SentinelList(true);
      armed := Never;
      added, fired := [], [];
    }

    /** An event takes its place behind those of the same deadline, and the timer is armed
        for it when it is the first. Also: in which place. */
    method AddTimer(deadline: nat) returns (ghost place: nat)
      requires list.Valid() && Older(list.Contents(), |added|)
      modifies this, list, list.repr
      ensures list.Valid() && fresh(list.repr - old(list.repr))
      ensures Snapshot() == Next(old(Snapshot()), Add(deadline))
      ensures place <= |old(list.Contents())|
      ensures forall j :: 0 <= j < place ==> old(list.Contents())[j].key <= deadline
      ensures place < |old(list.Contents())| ==> deadline < old(list.Contents())[place].key
      ensures |list.nodes| == old(|list.nodes|) + 1
      ensures forall j :: 0 <= j < old(|list.nodes|) ==>
        old(list.nodes)[j] == list.nodes[if j <= place then j else j + 1]
    {
      hide Insert, Inner;
      place := 0;
      var current := list.head;
      while current.next != list.tail
        invariant 0 <= place < |list.nodes| - 1 && current == list.nodes[place]
        invariant forall k :: 0 <= k < place ==> list.Contents()[k].key <= deadline
        invariant current.next == list.nodes[place + 1]
        decreases |list.nodes| - place
      {
        assert list.Contents()[place] == current.next.AsEntry();
        if current.next.key > deadline {
          break;
        }
        current := current.next;
        place := place + 1;
      }
      ghost var e, was := Entry(deadline, |added|), list.Contents();
      InsertIsAt(was, e, place);
      var event := list.InsertAfter(current, deadline, |added|, place);
      assert list.head.next == list.nodes[1] && event == list.nodes[place + 1];
      assert (list.head.next == event) == (place == 0);
      assert place > 0 ==> list.Contents()[0] == was[0];
      if list.head.next == event {
        armed := AtTick(deadline);
      }
      added := added + [e];
    }

    /** The callback of an event adds timers. Also: where that event stands afterwards. */
    method Callback(adds: seq<nat>, ghost event: Node) returns (ghost place: nat)
      requires list.Valid() && InOrder(list.Contents()) && Older(list.Contents(), |added|)
      requires list.Contents() != [] && event == list.nodes[1]
      modifies this, list, list.repr
      ensures list.Valid() && fresh(list.repr - old(list.repr)) && fired == old(fired)
      ensures place + 1 < |list.nodes| - 1 && event == list.nodes[place + 1]
      ensures var q, xs := old(list.Contents()), Numbered(adds, old(|added|));
        added == old(added) + xs && Around(list.Contents(), place, q[0], InsertAll(q[1..], xs))
    {
      hide Insert, InsertAll, Inner, InOrder, Around, Without, Older, Numbered;
      place := 0;
      ghost var q, n := list.Contents(), |added|;
      AroundFirst(q);
      NoneNumbered(n, q[1..]);
      for i := 0 to |adds|
        invariant list.Valid() && fresh(list.repr - old(list.repr)) && fired == old(fired)
        invariant place + 1 < |list.nodes| && event == list.nodes[place + 1]
        invariant Around(list.Contents(), place, q[0], InsertAll(q[1..], Numbered(adds[..i], n)))
        invariant Older(list.Contents(), n + i) && added == old(added) + Numbered(adds[..i], n)
      {
        ghost var x, rest := Entry(adds[i], n + i), InsertAll(q[1..], Numbered(adds[..i], n));
        ghost var nodes, contents := list.nodes, list.Contents();
        MoreNumbered(adds, n, i, q[1..]);
        ghost var p := AddTimer(adds[i]);
        KeepsNode(nodes, list.nodes, contents, place, q[0], rest, x, p);
        place := if x.key < q[0].key then place + 1 else place;
      }
      assert adds[..|adds|] == adds;
      Removed(list.Contents(), place, q[0], InsertAll(q[1..], Numbered(adds, n)));
    }

    /** The event goes, wherever it stands by now. */
    method Remove(event: Node, ghost place: nat, ghost rest: seq<Entry>)
      requires list.Valid() && 0 < place < |list.nodes| - 1 && event == list.nodes[place]
      requires list.Contents()[..place - 1] + list.Contents()[place..] == rest
      modifies this, list, list.repr
      ensures list.Valid() && list.repr == old(list.repr) && list.Contents() == rest
      ensures added == old(added) && fired == old(fired) && armed == old(armed)
      ensures list.head.next == list.tail <==> rest == []
      ensures list.head.next != list.tail ==> list.head.next != null && list.head.next.key == rest[0].key
    {
      hide Inner;
      list.Unlink(event, place);
      assert list.head.next == list.nodes[1];
      assert |list.nodes| > 2 ==> list.Contents()[0] == list.nodes[1].AsEntry();
    }

    method TimerEventCallback(event: Node, adds: seq<nat>)
      requires list.Valid() && Good(Snapshot()) && |list.nodes| > 2 && event == list.nodes[1]
      modifies this, list, list.repr
      ensures list.Valid() && fresh(list.repr - old(list.repr))
      ensures Snapshot() == Next(old(Snapshot()), Fire(adds))
    {
      hide Insert, InsertAll, Inner, InOrder, Around, Without, Older, Numbered;
      ghost var q, n := list.Contents(), |added|;
      ghost var rest := InsertAll(q[1..], Numbered(adds, n));
      ghost var place := Callback(adds, event);
      Removed(list.Contents(), place, q[0], rest);
      Remove(event, place + 1, rest);
      fired := fired + [q[0]];
      armed := if list.head.next != list.tail then AtTick(list.head.next.key) else InSeconds(FAR);
    }

    /** The timer interrupt: the earliest event fires, whatever timers its callback adds,
        and the timer is armed for the next. */
    method Handler(adds: seq<nat>)
      requires list.Valid() && Good(Snapshot())
      modifies this, list, list.repr
      ensures list.Valid() && fresh(list.repr - old(list.repr))
      ensures Snapshot() == Next(old(Snapshot()), Fire(adds)) && Good(Snapshot())
      ensures armed == if list.Contents() == [] then InSeconds(10000) else AtTick(list.Contents()[0].key)
    {
      hide Insert, InsertAll, Inner, InOrder, Older, Numbered;
      NextKeeps(Snapshot(), Fire(adds));
      FireArms(Snapshot(), adds);
      assert list.head.next == list.nodes[1];
      if list.head.next == list.tail {
        armed := InSeconds(FAR);
      } else {
        TimerEventCallback(list.head.next, adds);
      }
    }
  }
}
