/**
 The list of Python threads: who is in it, in which order, and what the
 garbage collector finds through it.
 */
module ThreadList {
  datatype RunState = New | Running | Finished

  /** One entry; `id` is the RTOS task handle. */
  datatype Thread = Thread(id: nat, state: RunState, arg: nat, stack: nat, stackLen: nat)

  /** What the collector is told to scan. */
  datatype Root =
    | NodeRoot(id: nat)
    | ArgRoot(arg: nat)
    | StackRoot(stack: nat, stackLen: nat)

  /**
   `live` holds the handles of the tasks that exist, `leaving` those of the
   threads that have unlinked themselves and not yet deleted their tasks, and
   `main` is the main task's.
   */
  datatype System = System(list: seq<Thread>, live: set<nat>, leaving: set<nat>, main: nat)

  datatype Event =
    | Create(id: nat, arg: nat, stack: nat, stackLen: nat)  // xTaskCreate returns a handle of its choice
    | Start(cur: nat)
    | Finish(cur: nat)
    | Exit(cur: nat)     // the thread unlinks itself
    | Gone(cur: nat)     // and deletes its task, the mutex having been released
    | Deinit             // called by the main task

  function Init(main: nat, stack: nat, stackLen: nat): System {
    System([Thread(main, Running, 0, stack, stackLen)], {main}, {}, main)
  }

  /** The position of a task's entry, |list| if it has none. */
  function Find(list: seq<Thread>, id: nat): (k: nat)
    ensures k <= |list|
    ensures k < |list| ==> list[k].id == id
    ensures forall j | 0 <= j < k :: list[j].id != id
  {
    if list == [] || list[0].id == id then 0 else 1 + Find(list[1..], id)
  }

  function SetState(list: seq<Thread>, id: nat, state: RunState): (r: seq<Thread>)
    ensures |r| == |list|
  {
    var k := Find(list, id);
    if k < |list| then list[k := list[k].(state := state)] else list
  }

  function Unlink(list: seq<Thread>, id: nat): seq<Thread> {
    var k := Find(list, id);
    if k < |list| then list[..k] + list[k + 1..] else list
  }

  function Ids(list: seq<Thread>): set<nat> {
    set t | t in list :: t.id
  }

  /** A thread calls Start, Finish and Exit only while its task exists; the main task never exits. */
  function Step(s: System, e: Event): System {
    match e
    case Create(id, arg, stack, stackLen) =>
      if id in s.live then s
      else s.(list := [Thread(id, New, arg, stack, stackLen)] + s.list, live := s.live + {id})
    case Start(cur) =>
      if cur !in s.live then s else s.(list := SetState(s.list, cur, Running))
    case Finish(cur) =>
      if cur !in s.live then s else s.(list := SetState(s.list, cur, Finished))
    case Exit(cur) =>
      if cur !in s.live || cur in s.leaving || cur == s.main then s
      else s.(list := Unlink(s.list, cur), leaving := s.leaving + {cur})
    case Gone(cur) =>
      if cur !in s.leaving then s
      else s.(live := s.live - {cur}, leaving := s.leaving - {cur})
    case Deinit =>
      if s.list == [] then s
      else s.(list := s.list[|s.list| - 1..], live := s.live - (Ids(s.list) - {s.main}))
  }

  function Run(s: System, events: seq<Event>): System
    decreases |events|
  {
    if events == [] then s else Step(Run(s, events[..|events| - 1]), events[|events| - 1])
  }

  /** The main entry is last, the handles are distinct, and exactly the live tasks that are not leaving are listed. */
  ghost predicate WellKept(s: System) {
    && s.list != [] && s.list[|s.list| - 1].id == s.main
    && (forall i, j | 0 <= i < j < |s.list| :: s.list[i].id != s.list[j].id)
    && (forall i | 0 <= i < |s.list| :: s.list[i].id in s.live && s.list[i].id !in s.leaving)
    && (forall id | id in s.live && id !in s.leaving :: exists i :: 0 <= i < |s.list| && s.list[i].id == id)
    && s.leaving <= s.live
  }

  lemma MainIsLast(s: System)
    requires WellKept(s)
    ensures s.list != [] && s.list[|s.list| - 1].id == s.main
  {
  }

  /** Taking entry k out of the list. */
  lemma WithoutIndex(list: seq<Thread>, k: nat, i: nat)
    requires k < |list| && i + 1 < |list|
    ensures (list[..k] + list[k + 1..])[i] == list[if i < k then i else i + 1]
  {
  }

  lemma ExitKept(s: System, cur: nat)
    requires WellKept(s)
    ensures WellKept(Step(s, Exit(cur)))
  {
    hide Find;
    if cur in s.live && cur !in s.leaving && cur != s.main {
      var k := Find(s.list, cur);
      assert k < |s.list| - 1;
      UnlinkKept(s, k);
    }
  }

  function Without(list: seq<Thread>, k: nat): (r: seq<Thread>)
    requires k < |list|
    ensures |r| == |list| - 1
  {
    list[..k] + list[k + 1..]
  }

  predicate DistinctIds(list: seq<Thread>) {
    forall i, j | 0 <= i < j < |list| :: list[i].id != list[j].id
  }

  lemma WithoutDistinct(list: seq<Thread>, k: nat)
    requires k < |list| && DistinctIds(list)
    ensures DistinctIds(Without(list, k))
    ensures forall i | 0 <= i < |list| - 1 :: Without(list, k)[i].id != list[k].id
  {
    forall i | 0 <= i < |list| - 1 ensures Without(list, k)[i] == list[if i < k then i else i + 1] {
      WithoutIndex(list, k, i);
    }
    hide Without;
  }

  /** Every other entry is still there. */
  lemma WithoutHas(list: seq<Thread>, k: nat, i: nat) returns (j: nat)
    requires k < |list| && i < |list| && i != k
    ensures j < |list| - 1 && Without(list, k)[j] == list[i]
  {
    j := if i < k then i else i - 1;
    WithoutIndex(list, k, j);
  }

  lemma UnlinkKept(s: System, k: nat)
    requires WellKept(s) && k < |s.list| - 1
    ensures WellKept(s.(list := Without(s.list, k), leaving := s.leaving + {s.list[k].id}))
  {
    var list, leaving := Without(s.list, k), s.leaving + {s.list[k].id};
    WithoutDistinct(s.list, k);
    WithoutIndex(s.list, k, |s.list| - 2);
    forall i | 0 <= i < |list| ensures list[i].id in s.live && list[i].id !in s.leaving {
      WithoutIndex(s.list, k, i);
    }
    hide Without;
    forall id | id in s.live && id !in leaving ensures exists i :: 0 <= i < |list| && list[i].id == id {
      var i :| 0 <= i < |s.list| && s.list[i].id == id;
      var j := WithoutHas(s.list, k, i);
      assert list[j].id == id;
    }
  }

  lemma StateKept(s: System, cur: nat, state: RunState)
    requires WellKept(s)
    ensures WellKept(s.(list := SetState(s.list, cur, state)))
  {
    var list := SetState(s.list, cur, state);
    assert forall i | 0 <= i < |list| :: list[i].id == s.list[i].id;
  }

  lemma CreateKept(s: System, t: Thread)
    requires WellKept(s) && t.id !in s.live
    ensures WellKept(s.(list := [t] + s.list, live := s.live + {t.id}))
  {
    var list := [t] + s.list;
    forall id | id in s.live + {t.id} && id !in s.leaving ensures exists i :: 0 <= i < |list| && list[i].id == id {
      if id == t.id {
        assert list[0].id == id;
      } else {
        var i :| 0 <= i < |s.list| && s.list[i].id == id;
        assert list[i + 1].id == id;
      }
    }
  }

  lemma StepKept(s: System, e: Event)
    requires WellKept(s)
    ensures WellKept(Step(s, e))
  {
    match e
    case Create(id, arg, stack, stackLen) =>
      if id !in s.live { CreateKept(s, Thread(id, New, arg, stack, stackLen)); }
    case Start(cur) => StateKept(s, cur, Running);
    case Finish(cur) => StateKept(s, cur, Finished);
    case Exit(cur) => ExitKept(s, cur);
    case Gone(cur) =>
    case Deinit => DeinitKept(s);
  }

  /** Deinit deletes the listed tasks but the main one; those that are leaving it does not see. */
  lemma DeinitKept(s: System)
    requires WellKept(s)
    ensures WellKept(Step(s, Deinit))
    ensures Step(s, Deinit).live == {s.main} + s.leaving && Step(s, Deinit).leaving == s.leaving
  {
    var v := Step(s, Deinit);
    assert v.list[0] == s.list[|s.list| - 1];
    forall id | id in v.live && id !in v.leaving ensures id == s.main {
      var i :| 0 <= i < |s.list| && s.list[i].id == id;
      assert id in Ids(s.list);
    }
  }

  lemma ListedIsLive(s: System)
    requires WellKept(s)
    ensures Ids(s.list) == s.live - s.leaving
  {
    forall id | id in s.live - s.leaving ensures id in Ids(s.list) {
      var i :| 0 <= i < |s.list| && s.list[i].id == id;
      assert s.list[i] in s.list;
    }
  }

  /**
   Main result: after any run of creations, starts, finishes, exits and
   deinitialisations the list holds each task once, with the main one last,
   and it holds exactly the live tasks that are not between unlinking and
   deleting themselves.
   */
  lemma {:induction false} ListsLiveTasks(s: System, events: seq<Event>)
    requires WellKept(s)
    ensures WellKept(Run(s, events))
    ensures Ids(Run(s, events).list) == Run(s, events).live - Run(s, events).leaving
    decreases |events|
  {
    hide Step, WellKept;
    if events != [] {
      ListsLiveTasks(s, events[..|events| - 1]);
      StepKept(Run(s, events[..|events| - 1]), events[|events| - 1]);
    }
    ListedIsLive(Run(s, events));
  }

  /** The other threads, in order. */
  function Others(list: seq<Thread>, id: nat): seq<Thread> {
    if list == [] then []
    else (if list[0].id == id then [] else [list[0]]) + Others(list[1..], id)
  }

  lemma {:induction false} NobodyElse(list: seq<Thread>, id: nat)
    requires forall i | 0 <= i < |list| :: list[i].id != id
    ensures Others(list, id) == list
  {
    if list != [] {
      NobodyElse(list[1..], id);
    }
  }

  lemma UnlinkStep(list: seq<Thread>, id: nat)
    requires list != []
    ensures Unlink(list, id) == if list[0].id == id then list[1..] else [list[0]] + Unlink(list[1..], id)
  {
    if list[0].id != id {
      var k := Find(list[1..], id);
      assert Find(list, id) == 1 + k;
      if k < |list| - 1 {
        assert list[..k + 1] + list[k + 2..] == [list[0]] + (list[1..][..k] + list[1..][k + 1..]);
      } else {
        assert list == [list[0]] + list[1..];
      }
    }
  }

  /** Exit removes exactly the calling thread and keeps the order of the rest. */
  lemma {:induction false} UnlinkIsOthers(list: seq<Thread>, id: nat)
    requires forall i, j | 0 <= i < j < |list| :: list[i].id != list[j].id
    ensures Unlink(list, id) == Others(list, id)
  {
    if list != [] {
      UnlinkStep(list, id);
      hide Unlink, Find;
      if list[0].id == id {
        NobodyElse(list[1..], id);
      } else {
        UnlinkIsOthers(list[1..], id);
      }
    } else {
      assert Unlink(list, id) == [];
    }
  }

  /** What a collection run by task `cur` scans. */
  function Roots(list: seq<Thread>, cur: nat): seq<Root> {
    if list == [] then []
    else RootsOf(list[0], cur) + Roots(list[1..], cur)
  }

  function RootsOf(t: Thread, cur: nat): seq<Root> {
    [NodeRoot(t.id), ArgRoot(t.arg)] +
    (if t.id != cur && t.state.Running? then [StackRoot(t.stack, t.stackLen)] else [])
  }

  /** Some running thread other than the current one has this stack. */
  ghost predicate ScansStack(list: seq<Thread>, cur: nat, stack: nat, stackLen: nat) {
    exists t :: t in list && RunsOn(t, stack, stackLen, cur)
  }

  predicate RunsOn(t: Thread, stack: nat, stackLen: nat, cur: nat) {
    t.state.Running? && t.id != cur && t.stack == stack && t.stackLen == stackLen
  }

  /** Every node and argument is scanned, and exactly the stacks of running threads other than the current one. */
  lemma {:induction false} RootsComplete(list: seq<Thread>, cur: nat)
    ensures forall t | t in list :: NodeRoot(t.id) in Roots(list, cur) && ArgRoot(t.arg) in Roots(list, cur)
    ensures forall s, n :: ScansStack(list, cur, s, n) <==> StackRoot(s, n) in Roots(list, cur)
  {
    if list != [] {
      RootsComplete(list[1..], cur);
      RootsOfHead(list, cur);
      forall s, n ensures ScansStack(list, cur, s, n) <==> StackRoot(s, n) in Roots(list, cur) {
        assert ScansStack(list, cur, s, n) <==>
          StackRoot(s, n) in RootsOf(list[0], cur) || ScansStack(list[1..], cur, s, n);
      }
    }
  }

  lemma RootsOfHead(list: seq<Thread>, cur: nat)
    requires list != []
    ensures forall r :: r in Roots(list, cur) <==> r in RootsOf(list[0], cur) || r in Roots(list[1..], cur)
    ensures forall t :: t in list <==> t == list[0] || t in list[1..]
  {
  }

  // ---------------------------------------------------------------------
  // Whose stack is scanned, and when
  // ---------------------------------------------------------------------

  lemma StackOfRunning(list: seq<Thread>, t: Thread, other: nat)
    requires t in list && t.state.Running? && other != t.id
    ensures StackRoot(t.stack, t.stackLen) in Roots(list, other)
  {
    RootsComplete(list, other);
    assert ScansStack(list, other, t.stack, t.stackLen);
  }

  lemma IdsDistinct(s: System)
    requires WellKept(s)
    ensures DistinctIds(s.list)
  {
  }

  /** Marking the task of entry k changes that entry and no other. */
  lemma MarksEntry(list: seq<Thread>, k: nat, state: RunState)
    requires k < |list| && DistinctIds(list)
    ensures SetState(list, list[k].id, state) == list[k := list[k].(state := state)]
  {
    var j := Find(list, list[k].id);
  }

  /** An exit takes the calling thread out of the list and keeps all others in order. */
  lemma ExitIsOthers(s: System, cur: nat)
    requires WellKept(s) && cur in s.live && cur !in s.leaving && cur != s.main
    ensures Step(s, Exit(cur)).list == Others(s.list, cur)
  {
    IdsDistinct(s);
    hide WellKept, Unlink;
    UnlinkIsOthers(s.list, cur);
  }

  /** From the start of a list on, a collection by any other task scans the main task's stack. */
  lemma MainIsScanned(main: nat, stack: nat, stackLen: nat, other: nat)
    requires other != main
    ensures StackRoot(stack, stackLen) in Roots(Init(main, stack, stackLen).list, other)
  {
    StackOfRunning(Init(main, stack, stackLen).list, Thread(main, Running, 0, stack, stackLen), other);
  }

  /** A new thread comes first, with its own argument and stack; its argument is a root from now on. */
  lemma CreateAdds(s: System, id: nat, arg: nat, stack: nat, stackLen: nat, cur: nat)
    requires id !in s.live
    ensures var v := Step(s, Create(id, arg, stack, stackLen));
      && |v.list| == |s.list| + 1 && v.list[1..] == s.list
      && v.list[0].id == id && v.list[0].arg == arg && v.list[0].state.New?
      && v.list[0].stack == stack && v.list[0].stackLen == stackLen
      && NodeRoot(id) in Roots(v.list, cur) && ArgRoot(arg) in Roots(v.list, cur)
  {
    var v := Step(s, Create(id, arg, stack, stackLen));
    RootsComplete(v.list, cur);
    assert v.list[0] in v.list;
  }

  /** mp_thread_start marks the calling thread alone, and its stack is scanned from then on. */
  lemma StartScans(s: System, k: nat, other: nat)
    requires WellKept(s) && k < |s.list| && other != s.list[k].id
    ensures var v := Step(s, Start(s.list[k].id)); var t := s.list[k];
      && v.list == s.list[k := t.(state := Running)]
      && StackRoot(t.stack, t.stackLen) in Roots(v.list, other)
  {
    IdsDistinct(s);
    MarksEntry(s.list, k, Running);
    assert s.list[k].id in s.live;
    hide WellKept, SetState;
    var v := Step(s, Start(s.list[k].id));
    StackOfRunning(v.list, v.list[k], other);
  }

  /** mp_thread_finish marks the calling thread alone, and its stack is scanned only if a running thread shares it. */
  lemma FinishUnscans(s: System, k: nat, other: nat)
    requires WellKept(s) && k < |s.list|
    ensures var v := Step(s, Finish(s.list[k].id)); var t := s.list[k];
      && v.list == s.list[k := t.(state := Finished)]
      && (StackRoot(t.stack, t.stackLen) in Roots(v.list, other) <==>
          exists i :: 0 <= i < |s.list| && i != k && RunsOn(s.list[i], t.stack, t.stackLen, other))
  {
    IdsDistinct(s);
    MarksEntry(s.list, k, Finished);
    assert s.list[k].id in s.live;
    hide WellKept, SetState;
    StackOfNobody(s.list, k, s.list[k].(state := Finished), other);
  }

  /** With entry k not running, a stack is scanned exactly if another entry runs on it. */
  lemma StackOfNobody(list: seq<Thread>, k: nat, t: Thread, other: nat)
    requires k < |list| && !t.state.Running?
    ensures StackRoot(t.stack, t.stackLen) in Roots(list[k := t], other) <==>
      exists i :: 0 <= i < |list| && i != k && RunsOn(list[i], t.stack, t.stackLen, other)
  {
    var v := list[k := t];
    RootsComplete(v, other);
    hide Roots;
    if u :| u in v && RunsOn(u, t.stack, t.stackLen, other) {
      var i :| 0 <= i < |v| && v[i] == u;
      assert i != k && list[i] == u;
    }
    if i :| 0 <= i < |list| && i != k && RunsOn(list[i], t.stack, t.stackLen, other) {
      assert v[i] in v;
    }
  }

  /** The thread does not finish or exit, and is not swept away by a deinit. */
  predicate GoesOn(events: seq<Event>, id: nat, main: nat) {
    Finish(id) !in events && Exit(id) !in events && (id == main || Deinit !in events)
  }

  lemma StepKeepsEntry(s: System, t: Thread, e: Event)
    requires WellKept(s) && t in s.list && t.state.Running? && GoesOn([e], t.id, s.main)
    ensures t in Step(s, e).list
  {
    var k :| 0 <= k < |s.list| && s.list[k] == t;
    assert e in [e];
    MainIsLast(s);
    IdsDistinct(s);
    hide WellKept, Find;
    match e
    case Create(id, arg, stack, stackLen) =>
      if id !in s.live { assert Step(s, e).list[k + 1] == t; }
    case Start(cur) => StillMarked(s.list, k, cur, Running);
    case Finish(cur) => StillMarked(s.list, k, cur, Finished);
    case Exit(cur) => StillListed(s.list, k, cur);
    case Gone(cur) =>
    case Deinit =>
      assert Step(s, e).list[0] == s.list[|s.list| - 1];
  }

  lemma StillMarked(list: seq<Thread>, k: nat, id: nat, state: RunState)
    requires k < |list| && (list[k].id != id || list[k].state == state)
    ensures list[k] in SetState(list, id, state)
  {
    assert SetState(list, id, state)[k] == list[k];
  }

  lemma StillListed(list: seq<Thread>, k: nat, id: nat)
    requires k < |list| && list[k].id != id
    ensures list[k] in Unlink(list, id)
  {
    var j := Find(list, id);
    if j < |list| {
      var i := WithoutHas(list, j, k);
      assert Without(list, j)[i] == list[k];
    }
  }

  /**
   Main result for the collector: in every run, a thread that runs and has
   neither finished nor exited has its own entry in the list, and its stack is
   a root of every collection that another task makes.
   */
  lemma {:induction false} RunningStaysScanned(s: System, t: Thread, events: seq<Event>, other: nat)
    requires WellKept(s) && t in s.list && t.state.Running? && other != t.id
    requires GoesOn(events, t.id, s.main)
    ensures t in Run(s, events).list
    ensures StackRoot(t.stack, t.stackLen) in Roots(Run(s, events).list, other)
    ensures Run(s, events).main == s.main
    decreases |events|
  {
    hide Step, WellKept;
    if events != [] {
      var front, e := events[..|events| - 1], events[|events| - 1];
      assert forall f :: f in front || f == e ==> f in events;
      RunningStaysScanned(s, t, front, other);
      ListsLiveTasks(s, front);
      StepKeepsEntry(Run(s, front), t, e);
      MainIsFixed(Run(s, front), e);
    }
    StackOfRunning(Run(s, events).list, t, other);
  }

  lemma MainIsFixed(s: System, e: Event)
    ensures Step(s, e).main == s.main
  {
  }
}
