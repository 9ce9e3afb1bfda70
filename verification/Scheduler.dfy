/** The kernel's round-robin scheduler. */
module Scheduler {
  import opened Common

  // ------------------------------------------------------------------ runs, as values

  /** The processes that wait, in order, and the one that runs. */
  datatype State<T> = State(queue: seq<T>, current: Option<T>) {
    /** All processes in the order of their next turns: the running one comes last. */
    function All(): seq<T> { queue + if current.Some? then [current.value] else [] }
  }

  datatype Op<T> = Add(process: T) | Next

  /** Round robin: a new process waits behind the others; the first takes over from the running one. */
  function Step<T>(s: State<T>, op: Op<T>): State<T> {
    match op
    case Add(p) => State(s.queue + [p], s.current)
    case Next =>
      if s.queue == [] then s
      else State(State(s.queue[1..], s.current).All(), Some(s.queue[0]))
  }

  function Run<T>(s: State<T>, ops: seq<Op<T>>): State<T> {
    if ops == [] then s else Step(Run(s, ops[..|ops| - 1]), ops[|ops| - 1])
  }

  /** How often the scheduler was called. */
  function Switches<T>(ops: seq<Op<T>>): nat {
    if ops == [] then 0 else Switches(ops[..|ops| - 1]) + if ops[|ops| - 1].Next? then 1 else 0
  }

  function Added<T>(ops: seq<Op<T>>): seq<T> {
    if ops == [] then [] else Added(ops[..|ops| - 1]) + if ops[|ops| - 1].Add? then [ops[|ops| - 1].process] else []
  }

  lemma {:induction false} StepKeeps<T>(s: State<T>, op: Op<T>)
    ensures multiset(Step(s, op).All()) == multiset(s.All()) + if op.Add? then multiset{op.process} else multiset{}
  {
    match op {
      case Add(p) =>
        assert Step(s, op).All() == s.queue + [p] + (if s.current.Some? then [s.current.value] else []);
      case Next =>
        if s.queue != [] {
          assert s.All() == [s.queue[0]] + State(s.queue[1..], s.current).All();
          assert Step(s, op).All() == State(s.queue[1..], s.current).All() + [s.queue[0]];
        }
    }
  }

  /** No process is lost or duplicated. */
  lemma {:induction false} Conserved<T>(s: State<T>, ops: seq<Op<T>>)
    ensures multiset(Run(s, ops).All()) == multiset(s.All()) + multiset(Added(ops))
  {
    if ops != [] {
      var before, op := ops[..|ops| - 1], ops[|ops| - 1];
      Conserved(s, before);
      StepKeeps(Run(s, before), op);
      assert multiset(Added(ops)) == multiset(Added(before)) + if op.Add? then multiset{op.process} else multiset{};
    }
  }

  /** A sequence without duplicates is one in whose multiset nothing counts twice. */
  lemma {:induction false} CountsOnce<T>(s: seq<T>)
    ensures NoDuplicates(s) <==> forall x <- s :: multiset(s)[x] == 1
  {
    if s != [] {
      var front, last := s[..|s| - 1], s[|s| - 1];
      assert s == front + [last];
      CountsOnce(front);
      assert multiset(s) == multiset(front) + multiset{last};
      if NoDuplicates(s) {
        assert NoDuplicates(front) && last !in front;
        forall x <- s
          ensures multiset(s)[x] == 1
        {
          assert x == last || x in front;
        }
      } else if NoDuplicates(front) {
        assert last in front;
        assert multiset(front)[last] > 0;
        assert multiset(s)[last] != 1;
      } else {
        var x :| x in front && multiset(front)[x] != 1;
        assert multiset(front)[x] > 0;
        assert multiset(s)[x] != 1;
      }
    }
  }

  /** When all processes ever added are different, so are those of every state. */
  lemma {:induction false} StaysDistinct<T>(s: State<T>, ops: seq<Op<T>>)
    requires NoDuplicates(s.All() + Added(ops))
    ensures NoDuplicates(Run(s, ops).All())
  {
    Conserved(s, ops);
    CountsOnce(s.All() + Added(ops));
    var all := Run(s, ops).All();
    assert multiset(s.All() + Added(ops)) == multiset(all);
    forall x <- all
      ensures multiset(all)[x] == 1
    {
      assert x in multiset(all);
    }
    CountsOnce(all);
  }

  /** Until its turn a waiting process moves up by one place with every switch. */
  lemma {:induction false} MovesUp<T>(s: State<T>, ops: seq<Op<T>>, k: nat)
    requires k < |s.queue| && Switches(ops) <= k
    ensures var r := Run(s, ops);
            k - Switches(ops) < |r.queue| && r.queue[k - Switches(ops)] == s.queue[k]
  {
    if ops != [] {
      MovesUp(s, ops[..|ops| - 1], k);
    }
  }

  /**
     Bounded waiting: the process at place `k` of the queue does not run during the next
     `k` switches, and runs after exactly `k + 1`, whatever is added meanwhile.
   */
  lemma {:induction false} BoundedWait<T>(s: State<T>, ops: seq<Op<T>>, k: nat)
    requires k < |s.queue| && NoDuplicates(s.All() + Added(ops))
    ensures Switches(ops) <= k ==> Run(s, ops).current != Some(s.queue[k])
    ensures Switches(ops) == k + 1 ==> Run(s, ops).current == Some(s.queue[k])
  {
    if Switches(ops) <= k {
      MovesUp(s, ops, k);
      StaysDistinct(s, ops);
      var r := Run(s, ops);
      if r.current.Some? {
        assert r.All()[k - Switches(ops)] == s.queue[k] && r.All()[|r.queue|] == r.current.value;
      }
    } else if Switches(ops) == k + 1 {
      var before, op := ops[..|ops| - 1], ops[|ops| - 1];
      if op.Next? {
        MovesUp(s, before, k);
      } else {
        assert s.All() + Added(ops) == s.All() + Added(before) + [op.process];
        Shorter(s.All() + Added(before), op.process);
        BoundedWait(s, before, k);
      }
    }
  }

  /** While nobody else waits, the running process stays current, however often the scheduler is called. */
  lemma {:induction false} KeepsRunning<T>(s: State<T>, ops: seq<Op<T>>)
    requires s.queue == [] && Added(ops) == []
    ensures Run(s, ops) == s
  {
    if ops != [] {
      KeepsRunning(s, ops[..|ops| - 1]);
    }
  }

  /** One switch, spelled out: who runs next, and in what order the others wait. */
  lemma {:induction false} SwitchIs<T>(s: State<T>)
    ensures var r := Step(s, Next);
            if s.queue == [] then r.queue == [] && r.current == s.current
            else
              && r.current == Some(s.queue[0])
              && |r.queue| == |s.queue| - 1 + (if s.current.Some? then 1 else 0)
              && (forall k :: 1 <= k < |s.queue| ==> r.queue[k - 1] == s.queue[k])
              && (s.current.Some? ==> r.queue[|r.queue| - 1] == s.current.value)
  {
  }

  lemma {:induction false} Shorter<T>(s: seq<T>, x: T)
    requires NoDuplicates(s + [x])
    ensures NoDuplicates(s)
  {
    forall i, j | 0 <= i < j < |s|
      ensures s[i] != s[j]
    {
      assert (s + [x])[i] != (s + [x])[j];
    }
  }

  // ------------------------------------------------------------------ the scheduler itself

  datatype ProcessState = Ready | Running | Dead

  /** A process is a heap object of its own, so that its context stays where it is. */
  class Process {
    const pid: nat
    var state: ProcessState

    constructor (pid: nat)
      ensures this.pid == pid && state == Ready
    {
      this.pid, state := pid, Ready;
    }
  }

  /** The contexts that a switch saves to and loads from, named by their processes. */
  datatype Switch = Stay | SwitchTo(prev: Option<Process>, next: Process)

  class Scheduler {
    var processes: seq<Process>
    var current: Option<Process>

    constructor ()
      ensures Contents() == State([], None)
    {
      processes, current := [], None;
    }

    ghost function Contents(): State<Process>
      reads this
    {
      State(processes, current)
    }

    method AddProcess(process: Process)
      modifies `processes
      ensures Contents() == Step(old(Contents()), Add(process))
      ensures processes == old(processes) + [process] && current == old(current)
    {
      processes := processes + [process];
    }

    /**
       The first process of the queue becomes current, and the current one goes to the end
       of the queue.  The context to save to is taken from the end of the queue: that is the
       context of the preempted process exactly when there was one or nobody else waits;
       otherwise it is the context of whichever process waits last.
     */
    method ScheduleNext() returns (r: Switch)
      modifies this, if current.Some? then {current.value} else {}
      ensures Contents() == Step(old(Contents()), Next)
      ensures r.Stay? <==> old(processes) == []
      ensures r.Stay? ==> processes == [] && current == old(current)
      ensures r.SwitchTo? ==> current == Some(old(processes)[0])
      ensures r.SwitchTo? ==>
        processes == old(processes)[1..] + if old(current).Some? then [old(current).value] else []
      ensures r.SwitchTo? ==> Some(r.next) == current
      ensures r.SwitchTo? ==> (r.prev == old(current) <==> old(current).Some? || |old(processes)| == 1)
      ensures r.SwitchTo? ==> r.prev == if processes == [] then None else Some(processes[|processes| - 1])
      ensures r.SwitchTo? && NoDuplicates(old(Contents()).All()) ==> r.prev != Some(r.next)
      ensures r.SwitchTo? && old(current).Some? ==> old(current).value.state == Ready
    {
      if processes == [] {
        return Stay;
      }
      ghost var all := Contents().All();
      var next := processes[0];
      assert all[0] == next;
      processes := processes[1..];
      if current.Some? {
        var prev := current.value;
        current := None;
        prev.state := Ready;
        processes := processes + [prev];
      }
      current := Some(next);
      assert processes == all[1..];
      r := SwitchTo(if processes == [] then None else Some(processes[|processes| - 1]), next);
    }
  }

  /** Two new processes: the first switch to one of them saves to the context of the other, which has never run. */
  method FirstSwitch() returns (first: Process, second: Process, r: Switch)
    ensures first != second && r == SwitchTo(Some(second), first)
  {
    var s := new Scheduler();
    first := new Process(1);
    second := new Process(2);
    s.AddProcess(first);
    s.AddProcess(second);
    r := s.ScheduleNext();
  }
}
