/**
 The thread list as the port keeps it: nodes linked by `next`, spliced in
 place under a mutex that every operation holds throughout.
 */
module ThreadDriver {
  import opened Prelude
  import opened ThreadList

  const MIN_STACK_SIZE: nat := 4 * 1024

  class Node {
    var id: nat
    var runState: RunState
    var arg: nat
    var stack: nat
    var stackLen: nat
    var next: Node?

    constructor (id: nat, runState: RunState, arg: nat, stack: nat, stackLen: nat, next: Node?)
      ensures Entry() == Thread(id, runState, arg, stack, stackLen) && this.next == next
    {
      this.id, this.runState, this.arg := id, runState, arg;
      this.stack, this.stackLen, this.next := stack, stackLen, next;
    }

    ghost function Entry(): Thread
      reads this
    {
      Thread(id, runState, arg, stack, stackLen)
    }
  }

  class Threads {
    var head: Node?
    const entry0: Node
    // The nodes in list order, and the state of the model they stand for.
    ghost var spine: seq<Node>
    ghost var m: System

    /** The k-th node, or null at the end. */
    ghost function At(k: nat): Node?
      reads `spine
    {
      if k < |spine| then spine[k] else null
    }

    /** The k-th node points to the next one. */
    ghost predicate LinkAt(k: nat)
      requires k < |spine|
      reads `spine, spine
    {
      spine[k].next == At(k + 1)
    }

    /** The nodes of the spine form a list that ends with the main entry. */
    ghost predicate Chained()
      reads `head, `spine, spine
    {
      && spine != [] && spine[|spine| - 1] == entry0
      && head == spine[0]
      && (forall i, j | 0 <= i < j < |spine| :: spine[i] != spine[j])
      && (forall i | 0 <= i < |spine| :: LinkAt(i))
    }

    /** The nodes hold the entries of a list. */
    ghost predicate Holds(list: seq<Thread>)
      reads `spine, spine
    {
      |spine| == |list| && forall i | 0 <= i < |list| :: spine[i].Entry() == list[i]
    }

    ghost predicate Linked()
      reads this, spine
    {
      Chained() && Holds(m.list)
    }

    ghost predicate Valid()
      reads this, spine
    {
      Linked() && WellKept(m)
    }

    /** mp_thread_init, run by the main task. */
    constructor (main: nat, stack: nat, stackLen: nat)
      ensures Valid() && m == Init(main, stack, stackLen)
      ensures spine == [entry0] && fresh(entry0)
    {
      var n := new Node(main, Running, 0, stack, stackLen, null);
      entry0, head := n, n;
      spine, m := [n], Init(main, stack, stackLen);
    }

    /** mp_thread_create_ex; `created` is xTaskCreate's verdict, `id` and `stackBase` what it chose. */
    method Create(arg: nat, requested: nat, margin: nat, created: bool, id: nat, stackBase: nat)
      returns (ok: bool, stackSize: nat)
      requires Valid() && (created ==> id !in m.live)
      modifies this
      ensures Valid() && ok == created
      ensures stackSize == if requested == 0 then MIN_STACK_SIZE + margin
        else if requested < MIN_STACK_SIZE then MIN_STACK_SIZE else requested
      ensures m == if ok then Step(old(m), ThreadList.Create(id, arg, stackBase, stackSize / 4)) else old(m)
      ensures if ok then fresh(spine[0]) && spine == [spine[0]] + old(spine) else spine == old(spine)
      ensures ok ==> spine[0].Entry() == Thread(id, New, arg, stackBase, stackSize / 4)
      ensures ok ==> forall cur :: ArgRoot(arg) in Roots(m.list, cur)
    {
      hide WellKept, Chained, Holds;
      stackSize := requested;
      if stackSize == 0 {
        stackSize := MIN_STACK_SIZE + margin;
      } else if stackSize < MIN_STACK_SIZE {
        stackSize := MIN_STACK_SIZE;
      }
      if !created {
        return false, stackSize;
      }
      ghost var e := ThreadList.Create(id, arg, stackBase, stackSize / 4);
      StepKept(m, e);
      forall cur ensures ArgRoot(arg) in Roots(Step(m, e).list, cur) {
        CreateAdds(m, id, arg, stackBase, stackSize / 4, cur);
      }
      var th := new Node(id, New, arg, stackBase, stackSize / 4, head);
      Push(th, m.list);
      m := Step(m, e);
      ok := true;
    }

    /** th->next = thread; thread = th. */
    method Push(th: Node, ghost list: seq<Thread>)
      requires Chained() && Holds(list) && th !in spine && th.next == head
      modifies `head, `spine
      ensures Chained() && spine == [th] + old(spine) && Holds([th.Entry()] + list)
    {
      ghost var nodes := spine;
      head := th;
      spine := [th] + nodes;
      forall i | 0 <= i < |spine| ensures LinkAt(i) {
        if i > 0 { assert old(LinkAt(i - 1)); }
      }
    }

    /** The search loops: the node of a task, or null, and its position. */
    method FindNode(cur: nat) returns (th: Node?, ghost k: nat)
      requires Linked()
      ensures k == Find(m.list, cur) && th == At(Find(m.list, cur)) && |spine| == |m.list|
    {
      hide Find;
      th, k := head, 0;
      while th != null && th.id != cur
        invariant k <= |spine| && th == At(k)
        invariant forall j | 0 <= j < k :: m.list[j].id != cur
        decreases |spine| - k
      {
        assert th.Entry() == m.list[k];
        assert LinkAt(k);
        th := th.next;
        k := k + 1;
      }
      if th != null { assert th.Entry() == m.list[k]; }
      FindAt(m.list, cur, k);
    }

    /** mp_thread_start and mp_thread_finish. */
    method SetRunState(cur: nat, state: RunState)
      requires Valid() && cur in m.live && !state.New?
      modifies this, spine
      ensures Valid() && m == Step(old(m), if state.Running? then Start(cur) else Finish(cur))
      ensures spine == old(spine) && head == old(head)
      ensures forall n | n in spine :: n.runState == if n.id == cur then state else old(n.runState)
    {
      hide WellKept, Find, Chained, Holds;
      StepKept(m, if state.Running? then Start(cur) else Finish(cur));
      var th, k := FindNode(cur);
      OnlyNode(cur, k);
      MarkNode(th, state, k, m.list);
      m := Step(m, if state.Running? then Start(cur) else Finish(cur));
    }

    /** No other node is the task's. */
    lemma OnlyNode(cur: nat, k: nat)
      requires Valid() && k == Find(m.list, cur)
      ensures forall n | n in spine :: n.id == cur <==> n == At(k)
    {
      forall n | n in spine ensures n.id == cur <==> n == At(k) {
        var i :| 0 <= i < |spine| && spine[i] == n;
        assert spine[i].Entry() == m.list[i];
        if k < |spine| { assert spine[k].Entry() == m.list[k]; }
      }
    }

    /** th->run_state = state, if the search has found a node. */
    method MarkNode(th: Node?, state: RunState, ghost k: nat, ghost list: seq<Thread>)
      requires Chained() && Holds(list) && th == At(k)
      modifies spine
      ensures Chained() && Holds(if k < |list| then list[k := list[k].(state := state)] else list)
      ensures forall n | n in spine :: n.id == old(n.id) && n.runState == if n == th then state else old(n.runState)
    {
      if th != null {
        th.runState := state;
      }
      assert forall i | 0 <= i < |spine| :: old(LinkAt(i)) ==> LinkAt(i);
    }

    /** The search loop of freertos_entry: the link that leads to a task's node. */
    method FindLink(cur: nat) returns (prev: Node?, th: Node?, ghost k: nat)
      requires Linked()
      ensures k == Find(m.list, cur) && th == At(Find(m.list, cur)) && k <= |spine| == |m.list|
      ensures prev == if Find(m.list, cur) == 0 then null else spine[Find(m.list, cur) - 1]
    {
      hide Find;
      prev, th, k := null, head, 0;
      while th != null && th.id != cur
        invariant k <= |spine| && th == At(k) && prev == (if k == 0 then null else spine[k - 1])
        invariant forall j | 0 <= j < k :: m.list[j].id != cur
        decreases |spine| - k
      {
        assert th.Entry() == m.list[k];
        assert LinkAt(k);
        prev := th;
        th := th.next;
        k := k + 1;
      }
      if th != null { assert th.Entry() == m.list[k]; }
      FindAt(m.list, cur, k);
    }

    /** The end of freertos_entry, up to the release of the mutex: the calling thread unlinks its node. */
    method Exit(cur: nat)
      requires Valid() && cur in m.live && cur !in m.leaving && cur != m.main
      modifies this, spine
      ensures Valid() && m == Step(old(m), ThreadList.Exit(cur)) && cur in m.leaving
      ensures forall n | n in old(spine) :: n.Entry() == old(n.Entry())
    {
      hide WellKept, Find, Chained, Holds;
      StepKept(m, ThreadList.Exit(cur));
      MainIsLast(m);
      var prev, th, k := FindLink(cur);
      Splice(prev, th, k, m.list);
      m := Step(m, ThreadList.Exit(cur));
    }

    /** vTaskDelete(NULL), the last call of an unlinked thread; it touches nothing of the list. */
    ghost method Vanish(cur: nat)
      requires Valid() && cur in m.leaving
      modifies `m
      ensures Valid() && m == Step(old(m), Gone(cur)) && cur !in m.live && m.list == old(m.list)
    {
      hide WellKept, Chained, Holds;
      StepKept(m, Gone(cur));
      NoLongerLive(m, cur);
      m := Step(m, Gone(cur));
    }

    /** The links once the k-th node has been bypassed. */
    ghost predicate BypassAt(i: nat, k: nat)
      requires i < |spine|
      reads `spine, spine
    {
      spine[i].next == At(if i + 1 == k then k + 1 else i + 1)
    }

    /** `*th = (*th)->next`, where th is the pointer that led to the k-th node. */
    method Bypass(prev: Node?, th: Node, ghost k: nat)
      requires Chained() && k < |spine| - 1
      requires th == spine[k] && prev == (if k == 0 then null else spine[k - 1])
      modifies `head, spine
      ensures head == if k == 0 then spine[1] else spine[0]
      ensures forall i | 0 <= i < |spine| :: BypassAt(i, k)
      ensures forall n | n in spine :: n.Entry() == old(n.Entry())
    {
      assert LinkAt(k);
      if prev == null {
        head := th.next;
      } else {
        prev.next := th.next;
      }
      forall i | 0 <= i < |spine| ensures BypassAt(i, k) {
        assert old(LinkAt(i));
      }
    }

    /** The bypassed node leaves the spine. */
    ghost method Drop(k: nat, list: seq<Thread>)
      requires Holds(list) && k < |spine| - 1 && spine[|spine| - 1] == entry0
      requires head == if k == 0 then spine[1] else spine[0]
      requires forall i, j | 0 <= i < j < |spine| :: spine[i] != spine[j]
      requires forall i | 0 <= i < |spine| :: BypassAt(i, k)
      modifies `spine
      ensures Chained() && Holds(list[..k] + list[k + 1..])
    {
      ghost var nodes := spine;
      spine := nodes[..k] + nodes[k + 1..];
      forall i | 0 <= i < |spine| ensures LinkAt(i) {
        assert old(BypassAt(if i < k then i else i + 1, k));
      }
    }

    method Splice(prev: Node?, th: Node?, ghost k: nat, ghost list: seq<Thread>)
      requires Chained() && Holds(list) && k <= |spine| && k != |spine| - 1
      requires th == At(k) && prev == (if k == 0 then null else spine[k - 1])
      modifies `head, `spine, spine
      ensures Chained()
      ensures forall n | n in old(spine) :: n.Entry() == old(n.Entry())
      ensures Holds(if k < |list| then list[..k] + list[k + 1..] else list)
    {
      if th != null {
        Bypass(prev, th, k);
        Drop(k, list);
      }
    }

    /** mp_thread_gc_others, run by task `cur`. */
    method GcOthers(cur: nat) returns (roots: seq<Root>)
      requires Linked()
      ensures roots == Roots(m.list, cur)
    {
      roots := [];
      var th := head;
      ghost var k := 0;
      while th != null
        invariant k <= |spine| && th == At(k)
        invariant roots + Roots(m.list[k..], cur) == Roots(m.list, cur)
        decreases |spine| - k
      {
        ghost var before, rest := roots, m.list[k..];
        assert rest[0] == th.Entry() && rest[1..] == m.list[k + 1..];
        roots := roots + [NodeRoot(th.id), ArgRoot(th.arg)];
        if th.id != cur && th.runState.Running? {
          roots := roots + [StackRoot(th.stack, th.stackLen)];
        }
        assert roots == before + RootsOf(rest[0], cur);
        Assoc(before, RootsOf(rest[0], cur), Roots(rest[1..], cur));
        assert LinkAt(k);
        th := th.next;
        k := k + 1;
      }
      assert m.list[k..] == [];
    }

    /** The deletion loop of mp_thread_deinit: every task but the main one, in list order. */
    method DeleteOthers() returns (deleted: seq<nat>)
      requires Linked()
      ensures |deleted| == |spine| - 1 && forall i | 0 <= i < |deleted| :: deleted[i] == m.list[i].id
    {
      deleted := [];
      var th := head;
      ghost var k := 0;
      while th != null
        invariant k <= |spine| && th == At(k)
        invariant |deleted| == Min(k, |spine| - 1) && forall i | 0 <= i < |deleted| :: deleted[i] == m.list[i].id
        decreases |spine| - k
      {
        assert th.Entry() == m.list[k];
        if th != entry0 {
          deleted := deleted + [th.id];
        }
        assert LinkAt(k);
        th := th.next;
        k := k + 1;
      }
    }

    /** mp_thread_deinit, run by the main task. */
    method Deinit(cur: nat) returns (deleted: seq<nat>)
      requires Valid() && cur == m.main
      modifies this
      ensures Valid() && m == Step(old(m), ThreadList.Deinit) && spine == [entry0]
      ensures m.live == {cur} + old(m.leaving)
      ensures |deleted| == |old(m).list| - 1 && forall i | 0 <= i < |deleted| :: deleted[i] == old(m).list[i].id
    {
      hide WellKept, Chained, Holds;
      MainIsLast(m);
      DeinitKept(m);
      LastNode();
      // The two assertions of the source.
      assert entry0.id == cur;
      assert entry0.next == null;
      deleted := DeleteOthers();
      KeepMain();
      m := Step(m, ThreadList.Deinit);
      assert m.list == [entry0.Entry()];
    }

    /** The last node is the main task's. */
    lemma LastNode()
      requires Linked()
      ensures |spine| == |m.list| > 0 && entry0.Entry() == m.list[|m.list| - 1] && entry0.next == null
    {
      assert LinkAt(|spine| - 1);
    }

    /** thread = &thread_entry0, the rest having been deleted. */
    method KeepMain()
      requires entry0.next == null
      modifies `head, `spine
      ensures Chained() && Holds([entry0.Entry()]) && spine == [entry0]
    {
      head := entry0;
      spine := [entry0];
    }
  }

  lemma {:induction false} FindAt(list: seq<Thread>, id: nat, k: nat)
    requires k <= |list| && (forall j | 0 <= j < k :: list[j].id != id) && (k < |list| ==> list[k].id == id)
    ensures Find(list, id) == k
  {
    if k > 0 {
      FindAt(list[1..], id, k - 1);
    }
  }

  lemma NoLongerLive(s: System, cur: nat)
    requires cur in s.leaving
    ensures cur !in Step(s, Gone(cur)).live && Step(s, Gone(cur)).list == s.list
  {
  }
}
