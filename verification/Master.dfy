/** The master process: it forks workers into slots, replaces crashed ones, drains them on reload and
    shuts them down. The kernel's answers to fork and waitpid are inputs of the operations that ask
    for them, so every statement holds for every behaviour of the kernel and of the workers. */
module Master {

  /** An answer of waitpid without blocking: a child that has exited, none yet, interrupted, or an
      error. */
  datatype Wait = Exited(pid: int) | NoneYet | Interrupted | Failed

  /** The children of the master: not yet reaped, and among them those sent the drain signal; the processes killed; and
      the number of forks. */
  class Kernel {
    var children: set<int>
    var signalled: set<int>
    var killed: set<int>
    var forks: nat

    ghost predicate Valid()
      reads this
    {
      signalled <= children && forall c :: c in children ==> c > 0
    }

    constructor ()
      ensures Valid() && children == {} && killed == {} && forks == 0
    {
      children, signalled, killed, forks := {}, {}, {}, 0;
    }

    /** fork: the process id answered, if no unreaped child has it, or -1. */
    method Fork(answer: int) returns (pid: int)
      requires Valid()
      modifies this`children, this`forks
      ensures Valid() && forks == old(forks) + 1
      ensures pid == if answer > 0 && answer !in old(children) then answer else -1
      ensures children == old(children) + if pid > 0 then {pid} else {}
    {
      forks := forks + 1;
      if answer > 0 && answer !in children {
        pid, children := answer, children + {answer};
      } else {
        pid := -1;
      }
    }

    /** kill with the drain signal. */
    method Drain(pid: int)
      requires Valid() && pid in children
      modifies this`signalled
      ensures Valid() && signalled == old(signalled) + {pid}
    {
      signalled := signalled + {pid};
    }

    /** waitpid for any child, without blocking: reaps a child, or returns zero or -1. */
    method WaitAny(answer: Wait) returns (pid: int)
      requires Valid()
      modifies this`children, this`signalled
      ensures Valid()
      ensures pid == if answer.Exited? && answer.pid in old(children) then answer.pid
                     else if answer == Interrupted || answer == Failed then -1 else 0
      ensures children == old(children) - {pid} && signalled == old(signalled) - {pid}
    {
      match answer
      case Exited(child) =>
        if child in children {
          pid, children, signalled := child, children - {child}, signalled - {child};
        } else {
          pid := 0;
        }
      case NoneYet => pid := 0;
      case Interrupted => pid := -1;
      case Failed => pid := -1;
    }

    /** kill with the kill signal, and waitpid for that child. */
    method KillAndReap(pid: int)
      requires Valid() && pid in children
      modifies this`children, this`signalled, this`killed
      ensures Valid() && children == old(children) - {pid} && signalled == old(signalled) - {pid}
      ensures killed == old(killed) + {pid}
    {
      children, signalled, killed := children - {pid}, signalled - {pid}, killed + {pid};
    }
  }

  /* ---------- the invariant, on values ---------- */

  /** Positive slots are distinct unreaped children. */
  ghost predicate SlotsOk(slots: seq<int>, children: set<int>) {
    && (forall i :: 0 <= i < |slots| && slots[i] > 0 ==> slots[i] in children)
    && (forall i, j :: 0 <= i < j < |slots| && slots[i] > 0 ==> slots[i] != slots[j])
  }

  /** The remembered draining workers are distinct unreaped children outside the slots. */
  ghost predicate DrainingOk(draining: seq<int>, slots: seq<int>, children: set<int>) {
    && (forall d :: 0 <= d < |draining| ==> draining[d] > 0 && draining[d] in children && draining[d] !in slots)
    && (forall d, e :: 0 <= d < e < |draining| ==> draining[d] != draining[e])
  }

  /** Every unreaped child outside the slots has been sent the drain signal. */
  ghost predicate OthersDrain(slots: seq<int>, children: set<int>, signalled: set<int>) {
    forall c :: c in children && c !in slots ==> c in signalled
  }

  ghost predicate Safe(slots: seq<int>, draining: seq<int>, children: set<int>, signalled: set<int>) {
    SlotsOk(slots, children) && DrainingOk(draining, slots, children) && OthersDrain(slots, children, signalled)
  }

  /** Changing a slot whose process is reaped, or has been sent the drain signal, leaves every other
      child accounted for. */
  lemma OthersReplaced(slots: seq<int>, i: nat, pid: int, children: set<int>, signalled: set<int>)
    requires i < |slots| && OthersDrain(slots, children, signalled)
    requires slots[i] in children ==> slots[i] in signalled
    ensures OthersDrain(slots[i := pid], children + (if pid > 0 then {pid} else {}), signalled)
  {
    var slots' := slots[i := pid];
    assert slots'[i] == pid && forall j :: 0 <= j < |slots| && j != i ==> slots'[j] == slots[j];
    forall c | c in children && c !in slots' ensures c in signalled {
      if c in slots {
        var j :| 0 <= j < |slots| && slots[j] == c;
        assert j == i;
      }
    }
  }

  /** A process is in one slot only. */
  lemma OnlyThere(slots: seq<int>, id: nat, children: set<int>)
    requires SlotsOk(slots, children) && id < |slots| && slots[id] > 0
    ensures forall i :: 0 <= i < |slots| && i != id ==> slots[i] != slots[id]
  {
  }

  lemma DrainedElsewhere(draining: seq<int>, slots: seq<int>, children: set<int>, pid: int)
    requires DrainingOk(draining, slots, children + {pid}) && pid in draining
    ensures pid !in slots
  {
  }

  /** A reaped child that is neither in a slot nor draining was no concern of the master. */
  lemma UnknownLeaves(slots: seq<int>, draining: seq<int>, children: set<int>, signalled: set<int>, pid: int)
    requires SlotsOk(slots, children + {pid}) && DrainingOk(draining, slots, children + {pid})
    requires OthersDrain(slots, children, signalled) && pid !in slots && pid !in draining
    ensures Safe(slots, draining, children, signalled)
  {
  }

  /** Giving the slot of a reaped child to a new one, or to none, keeps the master safe. */
  lemma SlotReplaced(slots: seq<int>, draining: seq<int>, id: nat, new': int, children: set<int>, signalled: set<int>)
    requires id < |slots| && slots[id] > 0 && slots[id] !in children && slots[id] !in draining
    requires SlotsOk(slots, children + {slots[id]}) && DrainingOk(draining, slots, children + {slots[id]})
    requires OthersDrain(slots, children, signalled) && new' !in children
    ensures Safe(slots[id := new'], draining, children + (if new' > 0 then {new'} else {}), signalled)
  {
    OthersReplaced(slots, id, new', children, signalled);
    OnlyThere(slots, id, children + {slots[id]});
  }

  lemma DrainingDisjoint(draining: seq<int>, slots: seq<int>, slots': seq<int>, before: set<int>, after: set<int>)
    requires |slots| == |slots'| && SlotsOk(slots, before) && before <= after
    requires forall pid :: pid in draining ==> pid > 0 && pid in slots
    requires forall d, e :: 0 <= d < e < |draining| ==> draining[d] != draining[e]
    requires forall i :: 0 <= i < |slots| ==>
               if slots[i] > 0 then slots'[i] == -1 || IsNew(slots'[i], before) else slots'[i] == slots[i]
    ensures DrainingOk(draining, slots', after)
  {
    forall d | 0 <= d < |draining|
      ensures draining[d] > 0 && draining[d] in before && draining[d] !in slots'
    {
      var pid := draining[d];
      assert pid in draining;
      var j :| 0 <= j < |slots| && slots[j] == pid;
    }
  }

  lemma OthersSignalled(slots: seq<int>, children: set<int>, signalled: set<int>, more: set<int>)
    requires OthersDrain(slots, children, signalled) && signalled <= more
    ensures OthersDrain(slots, children, more)
  {
  }

  /** A process that was not a child before. */
  predicate IsNew(pid: int, before: set<int>) {
    pid > 0 && pid !in before
  }

  /** The processes that forks for the first `n` slots have made: one for each slot that held a worker. */
  ghost function Forked(before: seq<int>, answers: seq<int>, n: nat): set<int>
    requires n <= |answers| == |before|
  {
    set j | 0 <= j < n && before[j] > 0 && answers[j] > 0 :: answers[j]
  }

  /** An earlier fork has had the same answer. */
  predicate Used(before: seq<int>, answers: seq<int>, i: nat)
    requires i < |answers| == |before|
  {
    exists j :: 0 <= j < i && before[j] > 0 && answers[j] == answers[i]
  }

  /** The slots after the forks for the first `n` of them. */
  ghost function ReplacedSlots(before: seq<int>, answers: seq<int>, children: set<int>, n: nat): (slots: seq<int>)
    requires n <= |answers| == |before|
    ensures |slots| == |before|
    ensures forall j :: 0 <= j < |before| ==>
              slots[j] == if j >= n || before[j] <= 0 then before[j]
                          else if answers[j] > 0 && answers[j] !in children && !Used(before, answers, j) then answers[j]
                          else -1
  {
    seq(|before|, j requires 0 <= j < |before| =>
      if j >= n || before[j] <= 0 then before[j]
      else if answers[j] > 0 && answers[j] !in children && !Used(before, answers, j) then answers[j]
      else -1)
  }

  lemma NoneReplaced(before: seq<int>, answers: seq<int>, children: set<int>)
    requires |answers| == |before|
    ensures ReplacedSlots(before, answers, children, 0) == before
    ensures children + Forked(before, answers, 0) == children && Occupied(before[..0]) == 0
  {
  }

  lemma OccupiedNext(slots: seq<int>, i: nat)
    requires i < |slots|
    ensures Occupied(slots[..i + 1]) == Occupied(slots[..i]) + if slots[i] > 0 then 1 else 0
  {
    assert slots[..i + 1][..i] == slots[..i];
  }

  /** The children and the slot after one more fork. */
  lemma ReplacedForm(before: seq<int>, answers: seq<int>, was: set<int>, i: nat)
    requires i < |answers| == |before|
    ensures var slots, children := ReplacedSlots(before, answers, was, i), was + Forked(before, answers, i);
            var next := if answers[i] > 0 && answers[i] !in children then answers[i] else -1;
            && ReplacedSlots(before, answers, was, i + 1) == (if before[i] > 0 then slots[i := next] else slots)
            && was + Forked(before, answers, i + 1)
               == children + if before[i] > 0 && answers[i] > 0 then {answers[i]} else {}
  {
    assert answers[i] > 0 ==> (Used(before, answers, i) <==> answers[i] in Forked(before, answers, i));
    ForkedNext(before, answers, i);
  }

  /** One more slot: its old worker has been sent the drain signal. */
  lemma ReplacedNext(before: seq<int>, answers: seq<int>, was: set<int>, i: nat, signalled: set<int>)
    requires i < |answers| == |before| && (before[i] > 0 ==> before[i] in signalled)
    requires SlotsOk(ReplacedSlots(before, answers, was, i), was + Forked(before, answers, i))
    requires OthersDrain(ReplacedSlots(before, answers, was, i), was + Forked(before, answers, i), signalled)
    ensures SlotsOk(ReplacedSlots(before, answers, was, i + 1), was + Forked(before, answers, i + 1))
    ensures OthersDrain(ReplacedSlots(before, answers, was, i + 1), was + Forked(before, answers, i + 1), signalled)
  {
    hide Forked, SlotsOk, OthersDrain, Used;
    var slots, children := ReplacedSlots(before, answers, was, i), was + Forked(before, answers, i);
    var next := if answers[i] > 0 && answers[i] !in children then answers[i] else -1;
    ReplacedForm(before, answers, was, i);
    if before[i] > 0 {
      OthersReplaced(slots, i, next, children, signalled);
      NextSlotOk(slots, i, next, children);
    }
    assert children + {} == children && (answers[i] in children ==> children + {answers[i]} == children);
  }

  lemma ForkedNext(before: seq<int>, answers: seq<int>, i: nat)
    requires i < |answers| == |before|
    ensures Forked(before, answers, i + 1)
            == Forked(before, answers, i) + if before[i] > 0 && answers[i] > 0 then {answers[i]} else {}
  {
  }

  lemma NextSlotOk(slots: seq<int>, i: nat, next: int, children: set<int>)
    requires i < |slots| && SlotsOk(slots, children) && (next > 0 ==> next !in children)
    ensures SlotsOk(slots[i := next], children + if next > 0 then {next} else {})
  {
  }

  /** The number of slots that hold a worker. */
  function Occupied(slots: seq<int>): nat {
    if slots == [] then 0 else Occupied(slots[..|slots| - 1]) + if slots[|slots| - 1] > 0 then 1 else 0
  }

  /** The workers in the slots, in order. */
  function Workers(slots: seq<int>): seq<int> {
    if slots == [] then []
    else Workers(slots[..|slots| - 1]) + if slots[|slots| - 1] > 0 then [slots[|slots| - 1]] else []
  }

  lemma {:induction false} WorkersMembers(slots: seq<int>, pid: int)
    ensures pid in Workers(slots) <==> pid > 0 && pid in slots
  {
    if slots != [] {
      var n := |slots| - 1;
      WorkersMembers(slots[..n], pid);
      assert slots == slots[..n] + [slots[n]];
    }
  }

  lemma {:induction false} WorkersDistinct(slots: seq<int>, children: set<int>)
    requires SlotsOk(slots, children)
    ensures var w := Workers(slots); forall d, e :: 0 <= d < e < |w| ==> w[d] != w[e]
  {
    if slots != [] {
      var n := |slots| - 1;
      WorkersDistinct(slots[..n], children);
      WorkersMembers(slots[..n], slots[n]);
    }
  }

  lemma {:induction false} OccupiedLeave(slots: seq<int>, i: nat)
    requires i < |slots| && slots[i] > 0
    ensures Occupied(slots[i := 0]) == Occupied(slots) - 1
  {
    var n := |slots| - 1;
    if i < n {
      OccupiedLeave(slots[..n], i);
      assert slots[i := 0][..n] == slots[..n][i := 0];
    } else {
      assert slots[i := 0][..n] == slots[..n];
    }
  }

  lemma {:induction false} OccupiedNone(slots: seq<int>)
    ensures Occupied(slots) == 0 <==> forall i :: 0 <= i < |slots| ==> slots[i] <= 0
  {
    if slots != [] { OccupiedNone(slots[..|slots| - 1]); }
  }

  /** The processes that the first `n` forks have made, from no children at all. */
  ghost function Positive(answers: seq<int>, n: nat): set<int>
    requires n <= |answers|
  {
    set j | 0 <= j < n && answers[j] > 0 :: answers[j]
  }

  /** The slots after the first `n` forks. */
  ghost function StartedSlots(before: seq<int>, answers: seq<int>, n: nat): seq<int>
    requires n <= |answers| == |before|
  {
    seq(|before|, j requires 0 <= j < |before| =>
      if j < n then if answers[j] > 0 && answers[j] !in answers[..j] then answers[j] else -1 else before[j])
  }

  lemma PositiveAll(answers: seq<int>)
    ensures Positive(answers, |answers|) == set i | 0 <= i < |answers| && answers[i] > 0 :: answers[i]
  {
  }

  lemma NoneYetStarted(before: seq<int>, signalled: set<int>, answers: seq<int>)
    requires SlotsOk(before, {}) && |before| == |answers|
    ensures Safe(before, [], {}, signalled) && Positive(answers, 0) == {} && StartedSlots(before, answers, 0) == before
    ensures forall j :: 0 <= j < |before| ==> before[j] <= 0
  {
  }

  /** One more fork: the slots stay distinct children, and every child is in a slot. */
  lemma StartedNext(before: seq<int>, answers: seq<int>, i: nat, signalled: set<int>)
    requires i < |answers| == |before| && (forall j :: 0 <= j < |before| ==> before[j] <= 0)
    requires Safe(StartedSlots(before, answers, i), [], Positive(answers, i), signalled)
    ensures var next := if answers[i] > 0 && answers[i] !in Positive(answers, i) then answers[i] else -1;
            StartedSlots(before, answers, i + 1) == StartedSlots(before, answers, i)[i := next]
    ensures Positive(answers, i + 1) == Positive(answers, i) + if answers[i] > 0 then {answers[i]} else {}
    ensures Safe(StartedSlots(before, answers, i + 1), [], Positive(answers, i + 1), signalled)
  {
    var slots, children := StartedSlots(before, answers, i), Positive(answers, i);
    assert answers[i] > 0 ==> (answers[i] in answers[..i] <==> answers[i] in children);
    var next := if answers[i] > 0 && answers[i] !in children then answers[i] else -1;
    OthersReplaced(slots, i, next, children, signalled);
    assert children + {} == children && (answers[i] in children ==> children + {answers[i]} == children);
  }

  /** The workers in the first `n` slots. */
  ghost function Occupants(slots: seq<int>, n: nat): set<int>
    requires n <= |slots|
  {
    set i | 0 <= i < n && slots[i] > 0 :: slots[i]
  }

  lemma NoOccupants(slots: seq<int>, others: set<int>)
    ensures others + Occupants(slots, 0) == others
  {
  }

  lemma OccupantsNext(slots: seq<int>, i: nat)
    requires i < |slots|
    ensures Occupants(slots, i + 1) == Occupants(slots, i) + if slots[i] > 0 then {slots[i]} else {}
  {
  }

  /** waitpid has reported the exit of a process before it failed. */
  ghost predicate Reported(answers: seq<Wait>, pid: int) {
    exists k :: 0 <= k < |answers| && answers[k] == Exited(pid) && Failed !in answers[..k]
  }

  /** The slots of the workers whose exit has been reported are free. */
  ghost function AfterReports(slots: seq<int>, answers: seq<Wait>): (free: seq<int>)
    ensures |free| == |slots|
    ensures forall i :: 0 <= i < |slots| ==>
              free[i] == if slots[i] > 0 && Reported(answers, slots[i]) then 0 else slots[i]
  {
    seq(|slots|, i requires 0 <= i < |slots| => if slots[i] > 0 && Reported(answers, slots[i]) then 0 else slots[i])
  }

  /** The workers whose exit has not been reported. */
  ghost function Unreported(slots: seq<int>, answers: seq<Wait>): set<int> {
    set i | 0 <= i < |slots| && slots[i] > 0 && !Reported(answers, slots[i]) :: slots[i]
  }

  function Freed(slots: seq<int>, answer: Wait): seq<int> {
    seq(|slots|, i requires 0 <= i < |slots| => if slots[i] > 0 && answer == Exited(slots[i]) then 0 else slots[i])
  }

  lemma FreedOne(slots: seq<int>, children: set<int>, id: nat)
    requires SlotsOk(slots, children) && id < |slots| && slots[id] > 0
    ensures Freed(slots, Exited(slots[id])) == slots[id := 0]
  {
  }

  lemma FreedNone(slots: seq<int>, answer: Wait)
    requires answer.Exited? ==> answer.pid <= 0 || answer.pid !in slots
    ensures Freed(slots, answer) == slots
  {
  }

  /** A worker in a slot is a child: an answer about no child frees nothing. */
  lemma FreedStranger(slots: seq<int>, children: set<int>, answer: Wait)
    requires SlotsOk(slots, children) && (answer.Exited? ==> answer.pid !in children)
    ensures Freed(slots, answer) == slots
  {
  }

  lemma SlotFreed(slots: seq<int>, children: set<int>, id: nat)
    requires id < |slots| && slots[id] > 0 && SlotsOk(slots, children)
    ensures SlotsOk(slots[id := 0], children - {slots[id]})
  {
  }

  lemma NoSlotFreed(slots: seq<int>, children: set<int>, pid: int)
    requires pid !in slots && SlotsOk(slots, children)
    ensures SlotsOk(slots, children - {pid})
  {
  }

  lemma ReportsNone(slots: seq<int>, answers: seq<Wait>)
    ensures AfterReports(slots, answers[..0]) == slots
  {
  }

  /** One more answer. */
  lemma ReportedNext(answers: seq<Wait>, k: nat, pid: int)
    requires k < |answers| && Failed !in answers[..k]
    ensures Reported(answers[..k + 1], pid) <==> Reported(answers[..k], pid) || answers[k] == Exited(pid)
    ensures answers[k] == Failed ==> (Reported(answers, pid) <==> Reported(answers[..k], pid))
    ensures Reported(answers[..k], pid) ==> Reported(answers, pid)
  {
    assert forall j :: 0 <= j <= k ==> answers[..k + 1][..j] == answers[..j];
    assert forall j :: 0 <= j < k ==> answers[..k][..j] == answers[..j];
    if answers[k] == Exited(pid) { assert answers[..k + 1][k] == Exited(pid); }
    if Reported(answers[..k], pid) {
      var j :| 0 <= j < k && answers[..k][j] == Exited(pid) && Failed !in answers[..k][..j];
      assert answers[..k + 1][j] == Exited(pid) && answers[j] == Exited(pid);
    }
  }

  lemma ReportsNext(slots: seq<int>, answers: seq<Wait>, k: nat)
    requires k < |answers| && Failed !in answers[..k]
    ensures AfterReports(slots, answers[..k + 1]) == Freed(AfterReports(slots, answers[..k]), answers[k])
    ensures answers[k] == Failed ==> AfterReports(slots, answers) == Freed(AfterReports(slots, answers[..k]), Failed)
    ensures answers[..k + 1] == answers[..k] + [answers[k]]
  {
    hide Reported;
    forall i | 0 <= i < |slots| { ReportedNext(answers, k, slots[i]); }
    var a, b := AfterReports(slots, answers[..k + 1]), Freed(AfterReports(slots, answers[..k]), answers[k]);
    forall i | 0 <= i < |slots| ensures a[i] == b[i] {}
    if answers[k] == Failed {
      forall i | 0 <= i < |slots| ensures AfterReports(slots, answers)[i] == b[i] {}
    }
  }

  /** When no slot is occupied every exit has been reported. */
  lemma ReportsDone(slots: seq<int>, answers: seq<Wait>, k: nat)
    requires k < |answers| && Failed !in answers[..k]
    requires forall i :: 0 <= i < |slots| ==> AfterReports(slots, answers[..k])[i] <= 0
    ensures AfterReports(slots, answers) == AfterReports(slots, answers[..k])
  {
    hide Reported;
    forall i | 0 <= i < |slots| ensures AfterReports(slots, answers)[i] == AfterReports(slots, answers[..k])[i] {
      ReportedNext(answers, k, slots[i]);
    }
  }

  lemma UnreportedAre(slots: seq<int>, answers: seq<Wait>)
    ensures var left := AfterReports(slots, answers);
            Unreported(slots, answers) == Occupants(left, |left|)
  {
    hide Reported;
  }

  class MasterProcess {
    const kernel: Kernel
    const numWorkers: nat
    const workerPids: array<int>
    const drainingPids: array<int>
    var numDraining: nat

    constructor (numWorkers: nat)
      ensures Valid() && this.numWorkers == numWorkers && fresh(Repr())
      ensures kernel.children == {} && kernel.killed == {} && kernel.forks == 0 && numDraining == 0
    {
      this.numWorkers := numWorkers;
      kernel := new Kernel();
      workerPids := new int[numWorkers](i => 0);
      drainingPids := new int[numWorkers](i => 0);
      numDraining := 0;
    }

    ghost function Repr(): set<object> {
      {this, kernel, workerPids, drainingPids}
    }

    ghost predicate Shape()
      reads this, kernel
    {
      && workerPids.Length == numWorkers == drainingPids.Length && workerPids != drainingPids
      && numDraining <= numWorkers && kernel.Valid()
    }

    ghost function Draining(): seq<int>
      requires Shape()
      reads this, kernel, drainingPids
    {
      drainingPids[..numDraining]
    }

    ghost predicate Valid()
      reads this, kernel, workerPids, drainingPids
    {
      Shape() && Safe(workerPids[..], Draining(), kernel.children, kernel.signalled)
    }

    ghost function Now(): Snapshot
      reads this, kernel, workerPids, drainingPids
      requires Shape()
    {
      Snapshot(workerPids[..], Draining(), kernel.children, kernel.signalled, kernel.killed, kernel.forks)
    }

    method FindWorker(pid: int) returns (id: int)
      requires Shape() && pid > 0
      ensures -1 <= id < numWorkers
      ensures id >= 0 ==> workerPids[id] == pid
      ensures id < 0 ==> pid !in workerPids[..]
    {
      for i := 0 to numWorkers
        invariant forall j :: 0 <= j < i ==> workerPids[j] != pid
      {
        if workerPids[i] == pid { return i; }
      }
      return -1;
    }

    /** Forget a draining worker: the last one takes its place. */
    method RemoveDraining(pid: int) returns (found: bool)
      requires Shape()
      modifies this, drainingPids
      ensures Shape()
      ensures found <==> pid in old(Draining())
      ensures !found ==> Draining() == old(Draining())
      ensures found ==> exists d :: 0 <= d < |old(Draining())| && old(Draining())[d] == pid
                          && Draining() == Without(old(Draining()), d)
    {
      for i := 0 to numDraining
        invariant forall j :: 0 <= j < i ==> drainingPids[j] != pid
      {
        if drainingPids[i] == pid {
          ghost var before := Draining();
          drainingPids[i] := drainingPids[numDraining - 1];
          numDraining := numDraining - 1;
          assert before[i] == pid && Draining() == Without(before, i);
          return true;
        }
      }
      return false;
    }

    /** A reaped child. If it was draining, or unknown, nothing is forked and no slot changes; if it
        was in a slot, it is replaced, unless the master is shutting down. */
    method HandleWorkerExit(pid: int, shutdown: bool, answer: int)
      requires Shape() && pid > 0 && pid !in kernel.children
      requires SlotsOk(workerPids[..], kernel.children + {pid})
      requires DrainingOk(Draining(), workerPids[..], kernel.children + {pid})
      requires OthersDrain(workerPids[..], kernel.children, kernel.signalled)
      modifies this, kernel`children, kernel`forks, workerPids, drainingPids
      ensures Valid() && Handled(old(Now()), pid, shutdown, answer, Now())
      ensures pid !in old(workerPids[..]) ==> kernel.forks == old(kernel.forks) && workerPids[..] == old(workerPids[..])
    {
      hide SlotsOk, DrainingOk, OthersDrain, Handled;
      ghost var before, slots, draining := Now(), workerPids[..], Draining();
      var found := RemoveDraining(pid);
      if found {
        DrainedElsewhere(draining, slots, kernel.children, pid);
        WithoutOk(draining, slots, kernel.children, pid);
        ghost var d :| 0 <= d < |draining| && draining[d] == pid && Draining() == Without(draining, d);
        WithoutOne(draining, d);
        SlotsStay(before, pid, shutdown, answer, Draining());
        return;
      }
      var id := FindWorker(pid);
      if id < 0 {
        UnknownLeaves(slots, draining, kernel.children, kernel.signalled, pid);
        NotThere(draining, pid);
        SlotsStay(before, pid, shutdown, answer, draining);
        return;
      }
      Replace(id, shutdown, answer);
    }

    /** Give the slot of a reaped worker to a new one, unless the master is shutting down. */
    method Replace(id: nat, shutdown: bool, answer: int)
      requires Shape() && id < numWorkers && workerPids[id] > 0 && workerPids[id] !in kernel.children
      requires SlotsOk(workerPids[..], kernel.children + {workerPids[id]}) && workerPids[id] !in Draining()
      requires DrainingOk(Draining(), workerPids[..], kernel.children + {workerPids[id]})
      requires OthersDrain(workerPids[..], kernel.children, kernel.signalled)
      modifies kernel`children, kernel`forks, workerPids
      ensures Valid() && workerPids[..] == old(workerPids[..])[id := workerPids[id]]
      ensures Handled(old(Now()), old(workerPids[id]), shutdown, answer, Now())
    {
      hide SlotsOk, DrainingOk, OthersDrain;
      ghost var slots, draining := workerPids[..], Draining();
      OnlyThere(slots, id, kernel.children + {slots[id]});
      if !shutdown {
        ForkInto(id, answer);
      } else {
        workerPids[id] := 0;
        assert workerPids[..] == slots[id := 0];
      }
      SlotReplaced(slots, draining, id, workerPids[id], old(kernel.children), kernel.signalled);
      assert workerPids[..] == slots[id := workerPids[id]];
      assert kernel.children == old(kernel.children) + if workerPids[id] > 0 then {workerPids[id]} else {};
      NotThere(draining, slots[id]);
    }

    /** Fork a worker into a slot; -1 if the fork fails. */
    method ForkInto(id: nat, answer: int)
      requires Shape() && id < numWorkers
      modifies kernel`children, kernel`forks, workerPids
      ensures Shape() && kernel.forks == old(kernel.forks) + 1
      ensures workerPids[..]
              == old(workerPids[..])[id := if answer > 0 && answer !in old(kernel.children) then answer else -1]
      ensures kernel.children == old(kernel.children) + if answer > 0 then {answer} else {}
    {
      var child := kernel.Fork(answer);
      workerPids[id] := child;
    }

    /** The initial workers; a failed fork leaves -1 in its slot. */
    method StartWorkers(answers: seq<int>)
      requires Valid() && |answers| == numWorkers
      requires kernel.children == {} && numDraining == 0
      modifies kernel`children, kernel`forks, workerPids
      ensures Valid() && numDraining == 0 && kernel.forks == old(kernel.forks) + numWorkers
      ensures forall i :: 0 <= i < numWorkers ==>
                workerPids[i] == if answers[i] > 0 && answers[i] !in answers[..i] then answers[i] else -1
      ensures kernel.children == set i | 0 <= i < numWorkers && answers[i] > 0 :: answers[i]
    {
      hide SlotsOk, OthersDrain, DrainingOk, Positive;
      ghost var before := workerPids[..];
      NoneYetStarted(before, kernel.signalled, answers);
      assert Draining() == [];
      for i := 0 to numWorkers
        invariant Shape() && kernel.forks == old(kernel.forks) + i && kernel.children == Positive(answers, i)
        invariant workerPids[..] == StartedSlots(before, answers, i)
        invariant Safe(workerPids[..], [], kernel.children, kernel.signalled)
      {
        ForkInto(i, answers[i]);
        StartedNext(before, answers, i, kernel.signalled);
      }
      PositiveAll(answers);
      assert forall i :: 0 <= i < numWorkers ==> workerPids[..][i] == workerPids[i];
    }

    /** The drain signal to every worker in a slot. */
    method SignalWorkers()
      requires Shape() && SlotsOk(workerPids[..], kernel.children)
      modifies kernel`signalled
      ensures Shape()
      ensures kernel.signalled
              == old(kernel.signalled) + set i | 0 <= i < numWorkers && workerPids[i] > 0 :: workerPids[i]
    {
      for i := 0 to numWorkers
        invariant Shape()
        invariant kernel.signalled == old(kernel.signalled) + set j | 0 <= j < i && workerPids[j] > 0 :: workerPids[j]
      {
        assert workerPids[..][i] == workerPids[i];
        if workerPids[i] > 0 {
          kernel.Drain(workerPids[i]);
        }
      }
    }

    /** Remember the workers of the slots as the draining ones. */
    method CollectDraining()
      requires Shape()
      modifies this, drainingPids
      ensures Shape() && Draining() == Workers(workerPids[..])
    {
      numDraining := 0;
      for i := 0 to numWorkers
        invariant Shape() && numDraining <= i && Draining() == Workers(workerPids[..i])
      {
        assert workerPids[..i + 1][..i] == workerPids[..i];
        if workerPids[i] > 0 {
          drainingPids[numDraining] := workerPids[i];
          numDraining := numDraining + 1;
        }
      }
      assert workerPids[..numWorkers] == workerPids[..];
    }

    /** A new worker for every slot that held one; the old ones have been sent the drain signal. */
    method ForkReplacements(answers: seq<int>)
      requires Shape() && |answers| == numWorkers && SlotsOk(workerPids[..], kernel.children)
      requires OthersDrain(workerPids[..], kernel.children, kernel.signalled)
      requires forall i :: 0 <= i < numWorkers && workerPids[i] > 0 ==> workerPids[i] in kernel.signalled
      modifies kernel`children, kernel`forks, workerPids
      ensures Shape() && SlotsOk(workerPids[..], kernel.children)
      ensures OthersDrain(workerPids[..], kernel.children, kernel.signalled)
      ensures workerPids[..] == ReplacedSlots(old(workerPids[..]), answers, old(kernel.children), numWorkers)
      ensures kernel.children == old(kernel.children) + Forked(old(workerPids[..]), answers, numWorkers)
      ensures kernel.forks == old(kernel.forks) + Occupied(old(workerPids[..]))
    {
      hide SlotsOk, OthersDrain, Forked, Occupied;
      ghost var before, children := workerPids[..], kernel.children;
      NoneReplaced(before, answers, children);
      for i := 0 to numWorkers
        invariant Shape() && SlotsOk(workerPids[..], kernel.children)
        invariant OthersDrain(workerPids[..], kernel.children, kernel.signalled)
        invariant workerPids[..] == ReplacedSlots(before, answers, children, i)
        invariant kernel.children == children + Forked(before, answers, i)
        invariant kernel.forks == old(kernel.forks) + Occupied(before[..i])
      {
        assert workerPids[i] == workerPids[..][i] == before[i];
        OccupiedNext(before, i);
        ReplacedForm(before, answers, children, i);
        ReplacedNext(before, answers, children, i, kernel.signalled);
        if workerPids[i] > 0 {
          ForkInto(i, answers[i]);
        }
      }
      assert before[..numWorkers] == before;
    }

    /** Reload: nothing happens without a configuration; otherwise every worker in a slot is sent the
        drain signal, remembered as draining, and replaced. Workers that were still draining from an
        earlier reload are forgotten, but have had their signal. */
    method Reload(configOk: bool, answers: seq<int>)
      requires Valid() && |answers| == numWorkers
      modifies this, kernel`children, kernel`forks, kernel`signalled, workerPids, drainingPids
      ensures Valid()
      ensures if configOk then Reloads(old(Now()), answers, Now()) else Now() == old(Now())
      ensures configOk ==> forall i :: 0 <= i < numWorkers ==>
                if old(workerPids[i]) > 0 then
                  && old(workerPids[i]) in kernel.signalled && old(workerPids[i]) in Draining()
                  && (workerPids[i] == -1 || IsNew(workerPids[i], old(kernel.children)))
                else workerPids[i] == old(workerPids[i])
    {
      hide SlotsOk, OthersDrain, DrainingOk, Used, Occupied, Forked, Reloads, Workers;
      if !configOk { return; }
      ghost var before := Now();
      CollectDraining();
      WorkersDistinct(before.slots, kernel.children);
      forall pid ensures pid in Draining() <==> pid > 0 && pid in before.slots { WorkersMembers(before.slots, pid); }
      SignalWorkers();
      OthersSignalled(before.slots, kernel.children, old(kernel.signalled), kernel.signalled);
      assert workerPids[..] == before.slots;
      assert forall i :: 0 <= i < numWorkers ==> before.slots[i] == workerPids[i];
      ForkReplacements(answers);
      ReloadIs(before, answers, Now());
      assert forall i :: 0 <= i < numWorkers ==> Now().slots[i] == workerPids[i];
    }

    method CountWorkers() returns (count: nat)
      requires Shape()
      ensures count == Occupied(workerPids[..])
    {
      count := 0;
      for i := 0 to numWorkers
        invariant count == Occupied(workerPids[..i])
      {
        assert workerPids[..i + 1][..i] == workerPids[..i];
        if workerPids[i] > 0 { count := count + 1; }
      }
      assert workerPids[..numWorkers] == workerPids[..];
    }

    /** The first loop of the shutdown wait: reap workers until none is left, the answers run out at the
        deadline, or waiting fails. Other children may be reaped meanwhile. */
    method ReapWorkers(answers: seq<Wait>) returns (remaining: nat)
      requires Shape() && SlotsOk(workerPids[..], kernel.children)
      modifies kernel`children, kernel`signalled, workerPids
      ensures Shape() && SlotsOk(workerPids[..], kernel.children) && remaining == Occupied(workerPids[..])
      ensures kernel.children <= old(kernel.children)
      ensures kernel.signalled == old(kernel.signalled) * kernel.children
      ensures forall i :: 0 <= i < numWorkers ==>
                workerPids[i] == old(workerPids[i]) || (workerPids[i] == 0 && old(workerPids[i]) !in kernel.children)
      ensures workerPids[..] == AfterReports(old(workerPids[..]), answers)
    {
      hide SlotsOk, Reported, Occupied, Freed, AfterReports;
      ghost var before := workerPids[..];
      remaining := CountWorkers();
      ReportsNone(before, answers);
      for k := 0 to |answers|
        invariant Shape() && SlotsOk(workerPids[..], kernel.children) && remaining == Occupied(workerPids[..])
        invariant kernel.children <= old(kernel.children)
        invariant kernel.signalled == old(kernel.signalled) * kernel.children
        invariant forall i :: 0 <= i < numWorkers ==>
                    || workerPids[i] == old(workerPids[i])
                    || (workerPids[i] == 0 && old(workerPids[i]) !in kernel.children)
        invariant workerPids[..] == AfterReports(before, answers[..k]) && Failed !in answers[..k]
      {
        if remaining == 0 {
          OccupiedNone(workerPids[..]);
          ReportsDone(before, answers, k);
          return;
        }
        ReportsNext(before, answers, k);
        var reaped, failed := ReapOne(answers[k]);
        if reaped {
          remaining := remaining - 1;
        } else if failed {
          return;
        }
      }
      assert answers[..|answers|] == answers;
    }

    /** One answer of waitpid during the shutdown wait: the slot of a worker that exited becomes free. */
    method ReapOne(answer: Wait) returns (reaped: bool, failed: bool)
      requires Shape() && SlotsOk(workerPids[..], kernel.children)
      modifies kernel`children, kernel`signalled, workerPids
      ensures Shape() && SlotsOk(workerPids[..], kernel.children)
      ensures kernel.children <= old(kernel.children) && kernel.signalled == old(kernel.signalled) * kernel.children
      ensures Occupied(old(workerPids[..])) == Occupied(workerPids[..]) + if reaped then 1 else 0
      ensures workerPids[..] == Freed(old(workerPids[..]), answer)
      ensures (failed <==> answer == Failed) && (reaped ==> answer.Exited?)
      ensures forall i :: 0 <= i < numWorkers ==>
                workerPids[i] == old(workerPids[i]) || (workerPids[i] == 0 && old(workerPids[i]) !in kernel.children)
    {
      hide SlotsOk, Freed, Occupied;
      ghost var slots, children := workerPids[..], kernel.children;
      var pid := kernel.WaitAny(answer);
      reaped, failed := false, false;
      if pid > 0 {
        var id := FindWorker(pid);
        if id >= 0 {
          OccupiedLeave(slots, id);
          FreedOne(slots, children, id);
          SlotFreed(slots, children, id);
          workerPids[id] := 0;
          reaped := true;
          assert workerPids[..] == slots[id := 0];
        } else {
          FreedNone(slots, answer);
          NoSlotFreed(slots, children, pid);
        }
      } else {
        FreedStranger(slots, children, answer);
        NotAChild(children, kernel.signalled, pid);
        failed := answer.Failed?;
      }
    }

    /** Kill and reap what is left in the slots. */
    method KillRemaining()
      requires Shape() && SlotsOk(workerPids[..], kernel.children)
      modifies kernel`children, kernel`signalled, kernel`killed, workerPids
      ensures Shape() && kernel.children <= old(kernel.children)
      ensures kernel.signalled == old(kernel.signalled) * kernel.children
      ensures forall i :: 0 <= i < numWorkers ==> workerPids[i] <= 0
      ensures forall i :: 0 <= i < numWorkers && old(workerPids[i]) > 0 ==> old(workerPids[i]) !in kernel.children
      ensures kernel.killed == old(kernel.killed) + Occupants(old(workerPids[..]), numWorkers)
    {
      hide Occupants;
      ghost var before := workerPids[..];
      NoOccupants(before, kernel.killed);
      for i := 0 to numWorkers
        invariant kernel.killed == old(kernel.killed) + Occupants(before, i)
        invariant Shape() && SlotsOk(workerPids[..], kernel.children) && kernel.children <= old(kernel.children)
        invariant kernel.signalled == old(kernel.signalled) * kernel.children
        invariant forall j :: 0 <= j < i ==> workerPids[j] <= 0
        invariant forall j :: 0 <= j < i && old(workerPids[j]) > 0 ==> old(workerPids[j]) !in kernel.children
        invariant forall j :: i <= j < numWorkers ==> workerPids[j] == old(workerPids[j])
      {
        OccupantsNext(before, i);
        if workerPids[i] > 0 {
          ghost var slots := workerPids[..];
          assert slots[i] == workerPids[i];
          kernel.KillAndReap(workerPids[i]);
          workerPids[i] := 0;
          assert workerPids[..] == slots[i := 0];
        }
      }
    }

    /** The shutdown wait: when it returns no slot holds a worker and every worker that was in a slot
        has been reaped. */
    method WaitForWorkers(answers: seq<Wait>)
      requires Shape() && SlotsOk(workerPids[..], kernel.children)
      modifies kernel`children, kernel`signalled, kernel`killed, workerPids
      ensures Shape() && kernel.children <= old(kernel.children)
      ensures kernel.signalled == old(kernel.signalled) * kernel.children
      ensures forall i :: 0 <= i < numWorkers ==> workerPids[i] <= 0
      ensures forall i :: 0 <= i < numWorkers && old(workerPids[i]) > 0 ==> old(workerPids[i]) !in kernel.children
      ensures kernel.killed == old(kernel.killed) + Unreported(old(workerPids[..]), answers)
    {
      hide Reported;
      var remaining := ReapWorkers(answers);
      OccupiedNone(workerPids[..]);
      assert forall i :: 0 <= i < numWorkers ==> workerPids[..][i] == workerPids[i];
      UnreportedAre(old(workerPids[..]), answers);
      if remaining > 0 {
        KillRemaining();
      }
    }

    /** One round of the main loop keeps the master safe. Without a reload, and unless a worker in a
        slot has exited, it forks nothing and changes no slot: in particular when a draining worker
        exits, remembered or forgotten. */
    method Loop(round: Round) returns (ghost mid: Snapshot)
      requires Valid() && |round.forks| == numWorkers
      modifies this, kernel`children, kernel`forks, kernel`signalled, workerPids, drainingPids
      ensures Valid() && RoundOk(old(Now()), round, mid, Now()) && QuietOk(round, old(Now()), Now())
    {
      hide SlotsOk, DrainingOk, OthersDrain, Reloads, Exits;
      if round.reload {
        Reload(round.configOk, round.forks);
      }
      mid := Now();
      Reap(round.wait, round.shutdown, round.fork);
    }

    /** The child that waitpid reports, if any. */
    method Reap(wait: Wait, shutdown: bool, fork: int)
      requires Valid()
      modifies this, kernel`children, kernel`forks, kernel`signalled, workerPids, drainingPids
      ensures Valid()
      ensures if wait.Exited? && wait.pid in old(kernel.children)
              then Exits(old(Now()), wait.pid, shutdown, fork, Now()) else Now() == old(Now())
      ensures (wait.Exited? ==> wait.pid !in old(workerPids[..])) ==>
                kernel.forks == old(kernel.forks) && workerPids[..] == old(workerPids[..])
    {
      hide SlotsOk, DrainingOk, OthersDrain, Handled;
      ghost var before := Now();
      var pid := kernel.WaitAny(wait);
      if pid > 0 {
        Reaped(before, pid);
        HandleWorkerExit(pid, shutdown, fork);
      } else {
        NotAChild(before.children, before.signalled, pid);
      }
    }

    /** Shutdown: drain, wait, kill. Afterwards no slot holds a worker, and every child that is still
        not reaped has been sent the drain signal. */
    method Shutdown(answers: seq<Wait>)
      requires Valid()
      modifies kernel`children, kernel`signalled, kernel`killed, workerPids
      ensures Shape() && kernel.children == kernel.signalled
      ensures forall i :: 0 <= i < numWorkers ==> workerPids[i] <= 0
      ensures kernel.killed == old(kernel.killed) + Unreported(old(workerPids[..]), answers)
    {
      SignalWorkers();
      assert kernel.children <= kernel.signalled by {
        forall c | c in kernel.children ensures c in kernel.signalled {
          if c in workerPids[..] {
            var i :| 0 <= i < numWorkers && workerPids[..][i] == c;
            assert workerPids[i] == c;
          }
        }
      }
      WaitForWorkers(answers);
    }
  }

  /** One round of the main loop: whether a reload is pending, with the outcome of loading the
      configuration and of its forks; the answer of waitpid and of a fork it may lead to; and whether
      a shutdown request has come in by then. */
  datatype Round = Round(reload: bool, configOk: bool, forks: seq<int>, wait: Wait, fork: int, shutdown: bool)

  /** What the master and the kernel hold between two rounds. */
  datatype Snapshot = Snapshot(
    slots: seq<int>, draining: seq<int>, children: set<int>, signalled: set<int>, killed: set<int>, forks: nat)

  ghost predicate SafeAt(s: Snapshot) {
    Safe(s.slots, s.draining, s.children, s.signalled)
  }

  /** A worker has been forked for every slot, which holds the answer of the fork, if no earlier one had it. */
  ghost predicate Starts(answers: seq<int>, s: Snapshot) {
    && |s.slots| == |answers| == s.forks && s.draining == []
    && (forall i :: 0 <= i < |answers| ==>
          s.slots[i] == if answers[i] > 0 && answers[i] !in answers[..i] then answers[i] else -1)
    && s.children == set i | 0 <= i < |answers| && answers[i] > 0 :: answers[i]
  }

  /** A reload: every worker in a slot is sent the drain signal, is what is draining from then on, and is replaced by
      the answer of the fork for its slot, if no child and no earlier fork has it. */
  ghost predicate Reloads(before: Snapshot, answers: seq<int>, after: Snapshot) {
    && |before.slots| == |answers| == |after.slots|
    && (forall i :: 0 <= i < |answers| ==>
          after.slots[i] == if before.slots[i] <= 0 then before.slots[i]
                            else if answers[i] > 0 && answers[i] !in before.children && !Used(before.slots, answers, i)
                            then answers[i] else -1)
    && after.children
       == before.children + (set i | 0 <= i < |answers| && before.slots[i] > 0 && answers[i] > 0 :: answers[i])
    && after.signalled
       == before.signalled + (set i | 0 <= i < |answers| && before.slots[i] > 0 :: before.slots[i])
    && (forall pid :: pid in after.draining <==> pid > 0 && pid in before.slots)
    && after.killed == before.killed && after.forks == before.forks + Occupied(before.slots)
  }

  lemma ReloadIs(before: Snapshot, answers: seq<int>, after: Snapshot)
    requires |before.slots| == |answers| && SlotsOk(before.slots, before.children)
    requires after.slots == ReplacedSlots(before.slots, answers, before.children, |answers|)
    requires after.children == before.children + Forked(before.slots, answers, |answers|)
    requires after.signalled
             == before.signalled + set i | 0 <= i < |answers| && before.slots[i] > 0 :: before.slots[i]
    requires forall pid :: pid in after.draining <==> pid > 0 && pid in before.slots
    requires forall d, e :: 0 <= d < e < |after.draining| ==> after.draining[d] != after.draining[e]
    requires after.killed == before.killed && after.forks == before.forks + Occupied(before.slots)
    ensures Reloads(before, answers, after) && DrainingOk(after.draining, after.slots, after.children)
    ensures forall i :: 0 <= i < |answers| ==>
              if before.slots[i] > 0 then
                && before.slots[i] in after.signalled && before.slots[i] in after.draining
                && (after.slots[i] == -1 || IsNew(after.slots[i], before.children))
              else after.slots[i] == before.slots[i]
  {
    hide Used, Occupied, SlotsOk, DrainingOk, ReplacedSlots;
    DrainingDisjoint(after.draining, before.slots, after.slots, before.children, after.children);
  }

  /** What becomes of a reaped child. Its slot, if it is in one, gets the answer of a fork, if no child has it, unless
      the master is shutting down; and it drains no more. */
  ghost predicate Handled(before: Snapshot, pid: int, shutdown: bool, answer: int, after: Snapshot) {
    var forks := pid in before.slots && !shutdown;
    && |after.slots| == |before.slots|
    && (forall i :: 0 <= i < |before.slots| ==>
          after.slots[i] == if before.slots[i] != pid then before.slots[i]
                            else if shutdown then 0
                            else if answer > 0 && answer !in before.children then answer else -1)
    && multiset(after.draining) == multiset(before.draining) - multiset{pid}
    && after.children == before.children + (if forks && answer > 0 then {answer} else {})
    && after.signalled == before.signalled
    && after.killed == before.killed && after.forks == before.forks + if forks then 1 else 0
  }

  lemma SlotsStay(before: Snapshot, pid: int, shutdown: bool, answer: int, draining: seq<int>)
    requires pid !in before.slots && multiset(draining) == multiset(before.draining) - multiset{pid}
    ensures Handled(before, pid, shutdown, answer, before.(draining := draining))
  {
    assert before.children + {} == before.children;
  }

  /** A child is reaped and handled. */
  ghost predicate Exits(before: Snapshot, pid: int, shutdown: bool, answer: int, after: Snapshot) {
    Handled(before.(children := before.children - {pid}, signalled := before.signalled - {pid}),
            pid, shutdown, answer, after)
  }

  /** One round: the reload, if one is pending and the configuration loads, and the child that waitpid reports. */
  ghost predicate RoundOk(before: Snapshot, round: Round, mid: Snapshot, after: Snapshot) {
    && (if round.reload && round.configOk then Reloads(before, round.forks, mid) else mid == before)
    && if round.wait.Exited? && round.wait.pid in mid.children
       then Exits(mid, round.wait.pid, round.shutdown, round.fork, after) else after == mid
  }

  /** Reaping a child leaves the others accounted for. */
  lemma Reaped(s: Snapshot, pid: int)
    requires SafeAt(s) && pid in s.children
    ensures s.children - {pid} + {pid} == s.children
    ensures OthersDrain(s.slots, s.children - {pid}, s.signalled - {pid})
  {
  }

  lemma NotAChild(children: set<int>, signalled: set<int>, pid: int)
    requires signalled <= children && (forall c :: c in children ==> c > 0) && pid <= 0
    ensures children - {pid} == children && signalled - {pid} == signalled
  {
  }

  /** A round without a reload in which no worker in a slot exits forks nothing and changes no slot. */
  ghost predicate QuietOk(round: Round, before: Snapshot, after: Snapshot) {
    !round.reload && (round.wait.Exited? ==> round.wait.pid !in before.slots) ==>
      after.forks == before.forks && after.slots == before.slots
  }

  /** What was held before the first round and after every round up to the one in which the shutdown request came in:
      the master is safe at each of them, and each is what the round makes of the one before. */
  ghost predicate RoundsOk(rounds: seq<Round>, trace: seq<Snapshot>, mids: seq<Snapshot>) {
    && 1 <= |trace| <= |rounds| + 1 && |mids| == |trace| - 1
    && (forall k :: 0 <= k < |mids| - 1 ==> !rounds[k].shutdown)
    && (|mids| < |rounds| ==> |mids| >= 1 && rounds[|mids| - 1].shutdown)
    && TraceOk(rounds, trace, mids)
  }

  ghost predicate TraceOk(rounds: seq<Round>, trace: seq<Snapshot>, mids: seq<Snapshot>) {
    && |trace| == |mids| + 1 <= |rounds| + 1
    && (forall k :: 0 <= k < |trace| ==> SafeAt(trace[k]))
    && (forall k :: 0 <= k < |mids| ==> RoundOk(trace[k], rounds[k], mids[k], trace[k + 1]))
    && (forall k :: 0 <= k < |mids| ==> QuietOk(rounds[k], trace[k], trace[k + 1]))
  }

  lemma TraceMore(rounds: seq<Round>, trace: seq<Snapshot>, mids: seq<Snapshot>, mid: Snapshot, after: Snapshot)
    requires TraceOk(rounds, trace, mids) && |mids| < |rounds| && SafeAt(after)
    requires RoundOk(trace[|mids|], rounds[|mids|], mid, after) && QuietOk(rounds[|mids|], trace[|mids|], after)
    ensures TraceOk(rounds, trace + [after], mids + [mid])
  {
    hide SafeAt, RoundOk, QuietOk;
  }

  lemma TraceStart(rounds: seq<Round>, first: Snapshot)
    requires SafeAt(first)
    ensures TraceOk(rounds, [first], [])
  {
    hide SafeAt;
  }

  /** The main loop. */
  method RunRounds(master: MasterProcess, rounds: seq<Round>)
    returns (ghost trace: seq<Snapshot>, ghost mids: seq<Snapshot>)
    requires master.Valid() && forall k :: 0 <= k < |rounds| ==> |rounds[k].forks| == master.numWorkers
    modifies master, master.kernel`children, master.kernel`forks, master.kernel`signalled
    modifies master.workerPids, master.drainingPids
    ensures master.Valid() && RoundsOk(rounds, trace, mids)
    ensures trace[0] == old(master.Now()) && trace[|trace| - 1] == master.Now()
  {
    hide Safe, RoundOk, QuietOk, TraceOk;
    trace, mids := [master.Now()], [];
    TraceStart(rounds, master.Now());
    for k := 0 to |rounds|
      invariant master.Valid() && |mids| == k && |trace| == k + 1 && TraceOk(rounds, trace, mids)
      invariant trace[0] == old(master.Now()) && trace[k] == master.Now()
      invariant forall j :: 0 <= j < k ==> !rounds[j].shutdown
    {
      ghost var mid := master.Loop(rounds[k]);
      TraceMore(rounds, trace, mids, mid, master.Now());
      trace, mids := trace + [master.Now()], mids + [mid];
      if rounds[k].shutdown {
        break;
      }
    }
  }

  /** A whole run, with what was held after the start and after every round: the master is safe at each of them, only
      the exit of a worker in a slot or a reload forks, and the shutdown leaves no worker in a slot and no child that
      has not been sent the drain signal, having killed exactly the workers whose exit was not reported. */
  method Run(numWorkers: nat, start: seq<int>, rounds: seq<Round>, final: seq<Wait>)
    returns (master: MasterProcess, ghost trace: seq<Snapshot>, ghost mids: seq<Snapshot>)
    requires |start| == numWorkers && forall k :: 0 <= k < |rounds| ==> |rounds[k].forks| == numWorkers
    ensures RoundsOk(rounds, trace, mids) && Starts(start, trace[0])
    ensures fresh(master) && master.Shape() && master.numWorkers == numWorkers
    ensures forall i :: 0 <= i < numWorkers ==> master.workerPids[i] <= 0
    ensures master.kernel.children == master.kernel.signalled
    ensures master.kernel.killed == Unreported(trace[|trace| - 1].slots, final)
  {
    hide SlotsOk, DrainingOk, OthersDrain, SafeAt;
    master := new MasterProcess(numWorkers);
    master.StartWorkers(start);
    assert Starts(start, master.Now()) by {
      assert forall i :: 0 <= i < numWorkers ==> master.Now().slots[i] == master.workerPids[i];
    }
    trace, mids := RunRounds(master, rounds);
    master.Shutdown(final);
    assert {} + Unreported(trace[|trace| - 1].slots, final) == Unreported(trace[|trace| - 1].slots, final);
  }

  /** The list with its last element moved to position `d`. */
  function Without(xs: seq<int>, d: nat): seq<int>
    requires d < |xs|
  {
    xs[d := xs[|xs| - 1]][..|xs| - 1]
  }

  lemma NotThere(xs: seq<int>, pid: int)
    requires pid !in xs
    ensures multiset(xs) - multiset{pid} == multiset(xs)
  {
  }

  lemma WithoutOne(xs: seq<int>, d: nat)
    requires d < |xs|
    ensures multiset(Without(xs, d)) == multiset(xs) - multiset{xs[d]}
  {
    var n := |xs| - 1;
    assert xs == xs[..n] + [xs[n]];
    if d < n {
      assert Without(xs, d) == xs[..n][d := xs[n]];
    }
  }

  lemma WithoutOk(draining: seq<int>, slots: seq<int>, children: set<int>, pid: int)
    requires pid in draining && pid !in children && pid !in slots && DrainingOk(draining, slots, children + {pid})
    requires SlotsOk(slots, children + {pid})
    ensures forall d :: 0 <= d < |draining| && draining[d] == pid ==> DrainingOk(Without(draining, d), slots, children)
    ensures SlotsOk(slots, children)
  {
  }
}
