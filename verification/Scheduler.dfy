/** The round-robin scheduler of processes/scheduler.c: a circular list of
    processes and a tick counter. A process is its address; 0 is NULL. */
module Scheduler {
  import opened Seqs

  type Process = p: nat | p > 0 witness 1
  const TICKS_UNTIL_SWITCH: nat := 10

  /** The ring in list order, the position of the current node, and the ticks
      counted since the last switch point. */
  datatype Queue = Queue(procs: seq<Process>, cur: nat, ticks: nat)

  // ---- What the operations mean -----------------------------------------

  function Added(q: Queue, p: Process): Queue { q.(procs := q.procs + [p]) }

  function Advanced(q: Queue): Queue
    requires q.procs != []
  {
    q.(cur := if q.cur + 1 < |q.procs| then q.cur + 1 else 0)
  }

  function Ticked(q: Queue): Queue
    requires q.procs != []
  {
    if q.ticks + 1 >= TICKS_UNTIL_SWITCH then Advanced(q.(ticks := 0)) else q.(ticks := q.ticks + 1)
  }

  /** The current position once position i > 0 is gone: a removed current node
      hands over to its successor. */
  function Shifted(cur: nat, i: nat, n: nat): nat
    requires 0 < i < n && cur < n
  {
    if i < cur then cur - 1 else if i == cur == n - 1 then 0 else cur
  }

  /** p stands at position i and nowhere before. */
  ghost predicate FirstAt(procs: seq<Process>, p: Process, i: nat)
  {
    i < |procs| && procs[i] == p && forall k :: 0 <= k < i ==> procs[k] != p
  }

  // ---- The list ---------------------------------------------------------

  class Node {
    const process: Process
    var next: Node?

    constructor (process: Process)
      ensures this.process == process && next == null
    {
      this.process, next := process, null;
    }
  }

  ghost function ProcsOf(ns: seq<Node>): seq<Process> {
    seq<Process>(|ns|, i requires 0 <= i < |ns| => ns[i].process)
  }

  /** The element after position i of a ring. */
  ghost function Following<T>(ns: seq<T>, i: nat): T
    requires i < |ns|
  {
    if i + 1 < |ns| then ns[i + 1] else ns[0]
  }

  /** Without position i > 0, everyone is followed by whom they were, and the one
      before it by the one after it. */
  lemma FollowingWithout<T>(ns: seq<T>, i: nat, k: nat)
    requires 0 < i < |ns| && k < |ns| - 1
    ensures var rest, j := Without(ns, i), if k < i then k else k + 1;
            rest[k] == ns[j] && Following(rest, k) == if j == i - 1 then Following(ns, i) else Following(ns, j)
  {
  }

  class ReadyQueue {
    var head: Node?
    var tail: Node?
    var count: nat
    var currentNode: Node?
    var currentProcess: nat
    var tickCount: nat
    ghost var nodes: seq<Node>
    ghost var cur: nat

    ghost function Succ(i: nat): Node
      requires i < |nodes|
      reads this
    {
      Following(nodes, i)
    }

    /** head, tail and count describe the ring `nodes`. */
    ghost predicate Linked()
      reads this, nodes
    {
      && count == |nodes| > 0 && head == nodes[0] && tail == nodes[|nodes| - 1]
      && (forall i, j :: 0 <= i < j < |nodes| ==> nodes[i] != nodes[j])
      && (forall i {:trigger nodes[i].next} :: 0 <= i < |nodes| ==> nodes[i].next == Succ(i))
    }

    /** A ring of exactly `count` distinct nodes with tail->next == head, the
        current node among them. */
    ghost predicate Valid()
      reads this, nodes
    {
      Linked() && cur < |nodes| && currentNode == nodes[cur] && tickCount < TICKS_UNTIL_SWITCH
    }

    ghost predicate Empty()
      reads this
    {
      head == null && tail == null && count == 0 && nodes == []
    }

    ghost function Procs(): seq<Process>
      reads this
    {
      ProcsOf(nodes)
    }

    ghost function Abs(): Queue
      reads this
    {
      Queue(Procs(), cur, tickCount)
    }

    constructor ()
      ensures Empty() && currentNode == null
    {
      head, tail, count, currentNode, currentProcess, tickCount := null, null, 0, null, 0, 0;
      nodes, cur := [], 0;
    }

    /** `scheduler_add_process`; adding NULL is a panic, so it is not a Process. */
    method Add(p: Process)
      requires Linked() || Empty()
      modifies this`head, this`tail, this`count, this`nodes, nodes
      ensures Linked() && Procs() == old(Procs()) + [p] && |nodes| == |old(nodes)| + 1
      ensures nodes[..|nodes| - 1] == old(nodes) && fresh(nodes[|nodes| - 1])
    {
      var node := new Node(p);
      if tail == null {
        head, tail := node, node;
        node.next := node;
      } else {
        tail.next := node;
        tail := node;
        node.next := head;
      }
      count := count + 1;
      nodes := nodes + [node];
    }

    /** `scheduler_init` on an empty queue. */
    method Init(p: Process)
      requires Empty()
      modifies this
      ensures Valid() && Abs() == Queue([p], 0, 0) && currentProcess == p && fresh(nodes[0])
    {
      tickCount := 0;
      Add(p);
      currentProcess := p;
      currentNode := head;
      cur := 0;
    }

    method AddProcess(p: Process)
      requires Valid()
      modifies this`head, this`tail, this`count, this`nodes, nodes
      ensures Valid() && Abs() == Added(old(Abs()), p)
      ensures forall k :: 0 <= k < |nodes| ==> nodes[k] in old(nodes) || fresh(nodes[k])
    {
      Add(p);
    }

    /** `scheduler_get_next_process`. */
    method GetNextProcess() returns (p: Process)
      requires Valid()
      modifies this`currentNode, this`cur
      ensures Valid() && Abs() == Advanced(old(Abs())) && p == Procs()[cur]
    {
      currentNode := currentNode.next;
      cur := if cur + 1 < |nodes| then cur + 1 else 0;
      p := currentNode.process;
    }

    /** `scheduler_handle_tick`; the result is the process switched to, or NULL. */
    method HandleTick() returns (switched: nat)
      requires Valid()
      modifies this`tickCount, this`currentNode, this`cur, this`currentProcess
      ensures Valid() && Abs() == Ticked(old(Abs()))
      ensures if old(tickCount) + 1 < 10 then switched == 0 && currentProcess == old(currentProcess)
              else currentProcess == Procs()[cur]
                   && switched == if currentProcess == old(currentProcess) then 0 else currentProcess
    {
      switched := 0;
      tickCount := tickCount + 1;
      if tickCount >= TICKS_UNTIL_SWITCH {
        tickCount := 0;
        var next := GetNextProcess();
        if next != currentProcess {
          switched := next;
          currentProcess := next;
        }
      }
    }

    /** The search loop of `scheduler_remove_process`. */
    method Find(p: Process) returns (prev: Node?, node: Node?, ghost i: nat)
      requires Valid()
      ensures node == null ==> p !in Procs()
      ensures node != null ==> FirstAt(Procs(), p, i) && node == nodes[i]
      ensures node != null ==> prev == if i == 0 then null else nodes[i - 1]
    {
      prev, i := null, 0;
      var current, done := head, false;
      while !done && current.process != p
        invariant i <= |nodes| && (done <==> i == |nodes|)
        invariant current == if done then nodes[0] else nodes[i]
        invariant prev == if i == 0 then null else nodes[i - 1]
        invariant forall k :: 0 <= k < i ==> nodes[k].process != p
        decreases |nodes| - i
      {
        prev := current;
        current := current.next;
        i := i + 1;
        done := current == head;
      }
      node := if done then null else current;
    }

    /** The stores of `scheduler_remove_process` for a node that is not the head,
        so that `count` is above one. */
    method Relink(prev: Node, node: Node, ghost i: nat)
      requires Valid() && 0 < i < |nodes| && node == nodes[i] && prev == nodes[i - 1]
      modifies this`tail, this`count, this`currentNode, prev
      ensures forall k {:trigger nodes[k].next} ::
                0 <= k < |nodes| ==> nodes[k].next == if k == i - 1 then Succ(i) else Succ(k)
      ensures tail == nodes[if i == |nodes| - 1 then i - 1 else |nodes| - 1] && count == |nodes| - 1
      ensures currentNode == if i == cur then Succ(i) else nodes[cur]
    {
      prev.next := node.next;
      if node == tail {
        tail := prev;
      }
      if node == currentNode {
        currentNode := currentNode.next;
      }
      count := count - 1;
    }

    /** The ring without that node. */
    method Unlink(prev: Node, node: Node, ghost i: nat)
      requires Valid() && 0 < i < |nodes| && node == nodes[i] && prev == nodes[i - 1]
      modifies this`tail, this`count, this`currentNode, this`nodes, this`cur, prev
      ensures Valid() && nodes == Without(old(nodes), i) && cur == Shifted(old(cur), i, |old(nodes)|)
      ensures tickCount == old(tickCount)
    {
      Relink(prev, node, i);
      ghost var ns := nodes;
      cur := Shifted(cur, i, |nodes|);
      nodes := Without(nodes, i);
      DistinctWithout(ns, i);
      forall k | 0 <= k < |nodes| ensures nodes[k].next == Succ(k) {
        FollowingWithout(ns, i, k);
        assert ns[if k < i then k else k + 1].next == nodes[k].next;
      }
    }

    /** The same code on the head, with other nodes behind it: `tail->next` is
        left on the node that goes. */
    method UnlinkHead(node: Node)
      requires Valid() && |nodes| > 1 && node == head
      modifies this`head, this`count, this`currentNode
      ensures head == nodes[1] && tail.next == node && tail.next != head && count == |nodes| - 1
    {
      head := node.next;
      if node == currentNode && count > 1 {
        currentNode := currentNode.next;
      }
      count := count - 1;
    }

    /** No list whose tail does not lead to its head is a ring. */
    ghost predicate Broken()
      reads this, tail
    {
      head == null || tail == null || tail.next != head
    }

    /** `scheduler_remove_process`. The ring survives, without the first node of
        that process and otherwise in order, exactly when the process is not the
        head's. */
    method Remove(p: nat) returns (ghost i: int)
      requires Valid()
      modifies this`head, this`tail, this`count, this`currentNode, this`nodes, this`cur, nodes
      ensures i < 0 ==> (p == 0 || p !in old(Procs())) && Valid() && Abs() == old(Abs())
      ensures i > 0 ==> p > 0 && FirstAt(old(Procs()), p, i) && Valid()
                        && Abs() == Queue(Without(old(Procs()), i), Shifted(old(cur), i, |old(nodes)|), tickCount)
      ensures i == 0 <==> p != 0 && old(Procs())[0] == p
      ensures Broken() <==> i == 0
      ensures i == 0 && |old(nodes)| == 1 ==> head == null && count == 0 && currentNode == old(currentNode)
      ensures forall k :: 0 <= k < |nodes| ==> nodes[k] in old(nodes)
    {
      i := -1;
      if p != 0 {
        if head == tail {
          if head.process == p {
            head, tail, count := null, null, 0;
            i := 0;
          }
        } else {
          var prev, node;
          ghost var at;
          prev, node, at := Find(p);
          if node != null {
            i := at;
            if prev == null {
              UnlinkHead(node);
            } else {
              ghost var ns := nodes;
              Unlink(prev, node, at);
              ProcsWithout(ns, at);
            }
          }
        }
      }
    }

    /** One action on the queue; the head's process is not removed. */
    method Obey(a: Action)
      requires Valid()
      modifies this, nodes
      ensures Valid() && Abs() == Acted(old(Abs()), a)
      ensures forall k :: 0 <= k < |nodes| ==> nodes[k] in old(nodes) || fresh(nodes[k])
    {
      match a
      case Join(p) =>
        AddProcess(p);
      case Advance =>
        var next := GetNextProcess();
      case TickOnce =>
        var switched := HandleTick();
      case Leave(p) =>
        if head.process != p {
          ghost var i;
          i := Remove(p);
          FirstIs(old(Procs()), p, i);
        } else {
          FirstIs(old(Procs()), p, 0);
        }
    }

    /** One init, then any sequence of adds, advances, ticks and removals of
        processes other than the head's: the list stays a ring of `count` distinct
        nodes with the current one among them, and its order is what the actions
        say. */
    method Drive(first: Process, actions: seq<Action>)
      requires Empty() && nodes == []
      modifies this
      ensures Valid() && Abs() == ActedAll(Queue([first], 0, 0), actions) && count == |Procs()|
    {
      Init(first);
      for i := 0 to |actions|
        invariant Valid() && Abs() == ActedAll(Queue([first], 0, 0), actions[..i])
        invariant forall k :: 0 <= k < |nodes| ==> fresh(nodes[k])
      {
        Obey(actions[i]);
        assert actions[..i + 1][..i] == actions[..i];
      }
      assert actions[..|actions|] == actions;
    }
  }

  // ---- What a sequence of actions means ---------------------------------

  datatype Action = Join(p: Process) | Advance | TickOnce | Leave(p: Process)

  /** Where p stands first, or the length. */
  function First(procs: seq<Process>, p: Process): (i: nat)
    ensures i <= |procs| && (i < |procs| <==> p in procs) && (i < |procs| ==> FirstAt(procs, p, i))
  {
    if procs == [] || procs[0] == p then 0 else 1 + First(procs[1..], p)
  }

  lemma FirstIs(procs: seq<Process>, p: Process, i: int)
    requires if i < 0 then p !in procs else FirstAt(procs, p, i)
    ensures First(procs, p) == if i < 0 then |procs| else i
  {
  }

  function Acted(q: Queue, a: Action): Queue
    requires q.procs != [] && q.cur < |q.procs|
  {
    match a
    case Join(p) => Added(q, p)
    case Advance => Advanced(q)
    case TickOnce => Ticked(q)
    case Leave(p) =>
      var i := First(q.procs, p);
      if 0 < i < |q.procs| then Queue(Without(q.procs, i), Shifted(q.cur, i, |q.procs|), q.ticks) else q
  }

  /** One action after another. */
  function ActedAll(q: Queue, actions: seq<Action>): (r: Queue)
    requires q.procs != [] && q.cur < |q.procs|
    ensures r.procs != [] && r.cur < |r.procs|
  {
    if actions == [] then q else Acted(ActedAll(q, actions[..|actions| - 1]), actions[|actions| - 1])
  }

  /** Whoever is current stays current through everything but an advance, a switch
      point, and its own removal, which hands over to its successor. */
  lemma CurrentKept(q: Queue, a: Action)
    requires q.procs != [] && q.cur < |q.procs| && (a.Join? || a.Leave?)
    ensures var t, p := Acted(q, a), q.procs[q.cur];
            t.procs[t.cur] == if a.Leave? && First(q.procs, a.p) == q.cur > 0 then Following(q.procs, q.cur) else p
  {
    if a.Leave? {
      var i := First(q.procs, a.p);
      if 0 < i < |q.procs| {
        FollowingWithout(q.procs, i,
                         if Shifted(q.cur, i, |q.procs|) < |q.procs| - 1 then Shifted(q.cur, i, |q.procs|) else 0);
      }
    }
  }

  lemma DistinctWithout(ns: seq<Node>, i: nat)
    requires i < |ns| && forall a, b :: 0 <= a < b < |ns| ==> ns[a] != ns[b]
    ensures var rest := Without(ns, i); forall a, b :: 0 <= a < b < |rest| ==> rest[a] != rest[b]
  {
  }

  lemma ProcsWithout(ns: seq<Node>, i: nat)
    requires i < |ns|
    ensures ProcsOf(Without(ns, i)) == Without(ProcsOf(ns), i)
  {
  }

  // ---- Fairness over whole runs without removals ------------------------

  datatype Event = Tick | Add(p: Process)

  function Next(q: Queue, e: Event): Queue
    requires q.procs != []
  {
    match e
    case Tick => Ticked(q)
    case Add(p) => Added(q, p)
  }

  function After(q: Queue, events: seq<Event>): (r: Queue)
    requires q.procs != []
    ensures q.procs <= r.procs
    decreases |events|
  {
    if events == [] then q else After(Next(q, events[0]), events[1..])
  }

  function Ticks(events: seq<Event>): nat {
    if events == [] then 0 else (if events[0].Tick? then 1 else 0) + Ticks(events[1..])
  }

  function Adds(events: seq<Event>): nat {
    if events == [] then 0 else (if events[0].Add? then 1 else 0) + Adds(events[1..])
  }

  /** The event is a tick that reaches the switch point. */
  predicate IsSwitch(q: Queue, e: Event) { e.Tick? && q.ticks + 1 >= TICKS_UNTIL_SWITCH }

  function Switches(q: Queue, events: seq<Event>): nat
    requires q.procs != []
    decreases |events|
  {
    if events == [] then 0 else (if IsSwitch(q, events[0]) then 1 else 0) + Switches(Next(q, events[0]), events[1..])
  }

  /** Counting from a reset counter, the k-th switch point is at tick 10k: a run
      of n ticks meets n / 10 of them and leaves n % 10 counted. */
  lemma {:induction false} SwitchEveryTenTicks(q: Queue, events: seq<Event>)
    requires q.procs != [] && q.ticks < 10
    ensures Switches(q, events) == (q.ticks + Ticks(events)) / 10
    ensures After(q, events).ticks == (q.ticks + Ticks(events)) % 10
    decreases |events|
  {
    if events != [] {
      SwitchEveryTenTicks(Next(q, events[0]), events[1..]);
    }
  }

  /** Some switch point of the run selects position i. */
  ghost predicate Selected(q: Queue, events: seq<Event>, i: nat)
    requires q.procs != []
    decreases |events|
  {
    events != [] && var t := Next(q, events[0]);
    (IsSwitch(q, events[0]) && t.cur == i) || Selected(t, events[1..], i)
  }

  /** Switch points until position i comes round, if nothing is added. */
  function Distance(q: Queue, i: nat): nat
    requires i < |q.procs| && q.cur < |q.procs|
  {
    if i > q.cur then i - q.cur else |q.procs| - q.cur + i
  }

  /** Round robin: position i is selected within its distance if it lies ahead,
      and within its distance plus the processes added meanwhile otherwise. */
  lemma {:induction false} RoundRobin(q: Queue, events: seq<Event>, i: nat)
    requires q.cur < |q.procs| && i < |q.procs|
    requires Switches(q, events) >= Distance(q, i) + if i > q.cur then 0 else Adds(events)
    ensures Selected(q, events, i)
    decreases |events|
  {
    var t := Next(q, events[0]);
    if !(IsSwitch(q, events[0]) && t.cur == i) {
      RoundRobin(t, events[1..], i);
    }
  }

  /** A process just added is selected within `count` switch points, whatever is
      added later. */
  lemma NewcomerIsServed(q: Queue, p: Process, events: seq<Event>)
    requires q.cur < |q.procs|
    requires Switches(Added(q, p), events) >= |Added(q, p).procs|
    ensures Added(q, p).procs[|q.procs|] == p && Selected(Added(q, p), events, |q.procs|)
  {
    RoundRobin(Added(q, p), events, |q.procs|);
  }

  /** Anyone else waits at most `count` switch points plus the processes added
      meanwhile. */
  lemma EveryoneIsServed(q: Queue, events: seq<Event>, i: nat)
    requires q.cur < |q.procs| && i < |q.procs|
    requires Switches(q, events) >= |q.procs| + Adds(events)
    ensures Selected(q, events, i)
  {
    RoundRobin(q, events, i);
  }

  /** Between switch points nothing moves; at each, the selection steps to the
      next position of the ring. */
  lemma RingOrder(q: Queue, events: seq<Event>)
    requires q.cur < |q.procs| && Adds(events) == 0
    ensures After(q, events).procs == q.procs
    ensures After(q, events).cur == (q.cur + Switches(q, events)) % |q.procs|
  {
    StepsAround(q, events);
    AroundIsModulo(q.cur, Switches(q, events), |q.procs|);
  }

  /** The position k places on from cur in a ring of n. */
  function Around(cur: nat, k: nat, n: nat): nat
    decreases k
  {
    if k == 0 then cur else Around(if cur + 1 < n then cur + 1 else 0, k - 1, n)
  }

  lemma {:induction false} StepsAround(q: Queue, events: seq<Event>)
    requires q.cur < |q.procs| && Adds(events) == 0
    ensures After(q, events).procs == q.procs
    ensures After(q, events).cur == Around(q.cur, Switches(q, events), |q.procs|)
    decreases |events|
  {
    if events != [] {
      StepsAround(Next(q, events[0]), events[1..]);
    }
  }

  lemma {:induction false} AroundIsModulo(cur: nat, k: nat, n: nat)
    requires cur < n
    ensures Around(cur, k, n) == (cur + k) % n
    decreases k
  {
    if k > 0 {
      AroundIsModulo(if cur + 1 < n then cur + 1 else 0, k - 1, n);
      if cur + 1 == n {
        WrapOnce(k - 1, n);
      }
    }
  }

  lemma WrapOnce(k: nat, n: nat)
    requires n > 0
    ensures (n + k) % n == k % n
  {
    assert n + k == (k / n + 1) * n + k % n;
    var d := (n + k) / n - (k / n + 1);
    assert d * n == k % n - (n + k) % n;
    NonZeroMultiple(d, n);
  }

  lemma NonZeroMultiple(d: int, n: int)
    requires n > 0
    ensures d == 0 || d * n >= n || d * n <= -n
  {
    assert d * n == (d - 1) * n + n == (d + 1) * n - n;
    assert d >= 1 ==> (d - 1) * n >= 0;
    assert d <= -1 ==> (d + 1) * n <= 0;
  }
}
