/** The queue of swappable pages in memory/vmm.c: a singly linked FIFO whose
    dequeue never resets `tail`. */
module PageFifo {
  import Runs

  class Node {
    const virAddr: nat
    var next: Node?

    constructor (virAddr: nat)
      ensures this.virAddr == virAddr && next == null
    {
      this.virAddr, next := virAddr, null;
    }
  }

  ghost function Addrs(ns: seq<Node>): seq<nat> {
    seq<nat>(|ns|, i requires 0 <= i < |ns| => ns[i].virAddr)
  }

  class Queue {
    var head: Node?
    var tail: Node?
    var count: nat
    ghost var nodes: seq<Node>

    /** The list from head is exactly `nodes`; `tail` means something only while
        the queue is not empty. */
    ghost predicate Valid()
      reads this, nodes
    {
      && count == |nodes|
      && head == (if nodes == [] then null else nodes[0])
      && (nodes != [] ==> tail == nodes[|nodes| - 1])
      && (forall i, j :: 0 <= i < j < |nodes| ==> nodes[i] != nodes[j])
      && (forall i {:trigger nodes[i].next} ::
            0 <= i < |nodes| ==> nodes[i].next == if i + 1 < |nodes| then nodes[i + 1] else null)
    }

    ghost function Contents(): seq<nat>
      reads this
    {
      Addrs(nodes)
    }

    constructor ()
      ensures Valid() && Contents() == []
    {
      head, tail, count, nodes := null, null, 0, [];
    }

    /** `page_fifo_enqueue`. */
    method FifoEnqueue(node: Node)
      requires Valid() && node !in nodes && node.next == null
      modifies this, nodes
      ensures Valid() && nodes == old(nodes) + [node] && Contents() == old(Contents()) + [node.virAddr]
    {
      if head == null {
        head, tail := node, node;
      } else {
        tail.next := node;
        tail := node;
      }
      count := count + 1;
      nodes := nodes + [node];
    }

    /** `page_enqueue`; granted says whether the node could be had. */
    method Enqueue(virAddr: nat, granted: bool) returns (ok: bool)
      requires Valid()
      modifies this, nodes
      ensures Valid() && ok == granted && Contents() == if ok then old(Contents()) + [virAddr] else old(Contents())
      ensures forall n :: n in nodes ==> n in old(nodes) || fresh(n)
    {
      ok := granted;
      if ok {
        var node := new Node(virAddr);
        FifoEnqueue(node);
      }
    }

    /** `page_fifo_dequeue`; 0 is NULL. */
    method Dequeue() returns (virAddr: nat)
      requires Valid()
      modifies this`head, this`count, this`nodes
      ensures Valid() && count == |Contents()|
      ensures if old(Contents()) == [] then virAddr == 0 && Contents() == []
              else virAddr == old(Contents())[0] && Contents() == old(Contents())[1..]
      ensures forall n :: n in nodes ==> n in old(nodes)
    {
      virAddr := 0;
      if head != null {
        var node := head;
        head := head.next;
        count := count - 1;
        virAddr := node.virAddr;
        nodes := nodes[1..];
      }
    }

    /** One command; `out` is what it dequeued. */
    method Obey(cmd: Command) returns (out: seq<nat>)
      requires Valid()
      modifies this, nodes
      ensures Valid() && Obeyed(old(Contents()), cmd, Contents(), out)
      ensures forall i :: 0 <= i < |nodes| ==> nodes[i] in old(nodes) || fresh(nodes[i])
    {
      out := [];
      match cmd
      case Put(a, granted) =>
        var ok := Enqueue(a, granted);
      case Take =>
        var some := head != null;
        var a := Dequeue();
        if some {
          out := [a];
        }
    }

    /** Any sequence of enqueues and dequeues on a new queue is a run of the
        sequence below, whatever the stale `tail` points to in between. */
    method Drive(cmds: seq<Command>) returns (left: seq<nat>, ghost states: seq<State>, ghost events: seq<Event>)
      requires Valid() && nodes == []
      modifies this
      ensures Valid() && count == |Contents()|
      ensures FifoRun(states, events) && states[0] == State([], [], [])
      ensures states[|events|] == State(Contents(), Entered(cmds), left)
      ensures left + Contents() == Entered(cmds)
    {
      left, states, events := [], [State([], [], [])], [];
      for i := 0 to |cmds|
        invariant Valid() && FifoRun(states, events) && states[0] == State([], [], [])
        invariant forall j :: 0 <= j < |nodes| ==> fresh(nodes[j])
        invariant states[|events|] == State(Contents(), Entered(cmds[..i]), left)
      {
        ghost var before := Contents();
        var out := Obey(cmds[i]);
        states, events := RunGrows(states, events, cmds[..i], cmds[i], before, Contents(), left, out);
        left := left + out;
        assert cmds[..i + 1] == cmds[..i] + [cmds[i]];
      }
      assert cmds[..|cmds|] == cmds;
      FirstInFirstOut(states, events);
    }
  }

  /** What a command does to the addresses in the queue. */
  ghost predicate Obeyed(before: seq<nat>, cmd: Command, after: seq<nat>, out: seq<nat>)
  {
    match cmd
    case Put(a, granted) => out == [] && after == if granted then before + [a] else before
    case Take => if before == [] then out == [] == after else out == [before[0]] && after == before[1..]
  }

  /** The run goes on by that command's event. */
  lemma RunGrows(states: seq<State>, events: seq<Event>, cmds: seq<Command>, cmd: Command,
                 before: seq<nat>, after: seq<nat>, left: seq<nat>, out: seq<nat>)
      returns (longer: seq<State>, more: seq<Event>)
    requires FifoRun(states, events) && states[|events|] == State(before, Entered(cmds), left)
    requires Obeyed(before, cmd, after, out)
    ensures FifoRun(longer, more) && longer[0] == states[0]
    ensures longer[|more|] == State(after, Entered(cmds + [cmd]), left + out)
  {
    assert (cmds + [cmd])[..|cmds|] == cmds && left + [] == left;
    if cmd.Put? && !cmd.granted {
      longer, more := states, events;
    } else {
      more := events + [if cmd.Put? then Enq(cmd.addr) else Deq(if out == [] then 0 else out[0])];
      longer := states + [State(after, Entered(cmds + [cmd]), left + out)];
    }
  }

  datatype Command = Put(addr: nat, granted: bool) | Take

  /** The addresses that went in, in order. */
  ghost function Entered(cmds: seq<Command>): seq<nat> {
    if cmds == [] then []
    else
      var last := cmds[|cmds| - 1];
      Entered(cmds[..|cmds| - 1]) + if last.Put? && last.granted then [last.addr] else []
  }

  // ---- Whole runs -------------------------------------------------------

  datatype Event = Enq(addr: nat) | Deq(addr: nat)

  /** The queue, and everything that went in and came out. */
  datatype State = State(contents: seq<nat>, entered: seq<nat>, left: seq<nat>)

  ghost predicate Step(s: State, e: Event, t: State)
  {
    match e
    case Enq(a) => t == State(s.contents + [a], s.entered + [a], s.left)
    case Deq(a) =>
      if s.contents == [] then a == 0 && t == s
      else a == s.contents[0] && t == State(s.contents[1..], s.entered, s.left + [a])
  }

  ghost predicate FifoRun(states: seq<State>, events: seq<Event>)
  {
    Runs.Run((s: State, e: Event, t: State) => Step(s, e, t), states, events)
  }

  /** Over every run, the pages dequeued followed by those still queued are the
      pages enqueued, in order. */
  lemma FirstInFirstOut(states: seq<State>, events: seq<Event>)
    requires FifoRun(states, events)
    requires states[0] == State([], [], [])
    ensures forall k :: 0 <= k < |states| ==> states[k].left + states[k].contents == states[k].entered
  {
    var inv := (s: State) => s.left + s.contents == s.entered;
    var step := (s: State, e: Event, t: State) => Step(s, e, t);
    forall s, e, t | inv(s) && step(s, e, t) ensures inv(t) {
      match e
      case Enq(a) => assert s.left + (s.contents + [a]) == (s.left + s.contents) + [a];
      case Deq(a) =>
        if s.contents != [] {
          assert s.left + [s.contents[0]] + s.contents[1..] == s.left + s.contents;
        }
    }
    Runs.Invariant(inv, step, states, events, |events|);
    forall k | 0 <= k < |states| ensures states[k].left + states[k].contents == states[k].entered {
      assert inv(states[k]);
    }
  }
}
