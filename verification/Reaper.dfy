/** The list of children of one process (src/readpst.c, grim_reaper), compacted in place. */
module Reaper {
  import opened Common
  import opened ForkProtocol

  /** The children that have not exited, in order. */
  function Survivors(children: seq<nat>, exited: set<nat>): seq<nat> {
    if children == [] then []
    else (if children[0] in exited then [] else [children[0]]) + Survivors(children[1..], exited)
  }

  /** Those that have exited are gone, and the others stay in their order. */
  lemma {:induction false} SurvivorsKeepOrder(children: seq<nat>, exited: set<nat>)
    ensures Subsequence(Survivors(children, exited), children)
    ensures forall c :: c in Survivors(children, exited) <==> c in children && c !in exited
  {
    if children != [] {
      var c, later := children[0], Survivors(children[1..], exited);
      SurvivorsKeepOrder(children[1..], exited);
      SubsequencePrepend(c, later, children[1..]);
      assert children == [c] + children[1..] && [] + later == later;
    }
  }

  /** The list once entries i and later have been looked at as well. */
  function Compacted(children: seq<nat>, i: nat, exited: set<nat>): seq<nat>
    requires i <= |children|
  {
    children[..i] + Survivors(children[i..], exited)
  }

  /** One round of the loop: take entry i out, or step over it. */
  lemma {:induction false} Round(children: seq<nat>, i: nat, exited: set<nat>)
    requires i < |children|
    ensures children[i] in exited ==> Compacted(RemoveAt(children, i), i, exited) == Compacted(children, i, exited)
    ensures children[i] !in exited ==> Compacted(children, i + 1, exited) == Compacted(children, i, exited)
  {
    assert children[i..][1..] == children[i + 1..];
    if children[i] in exited {
      var shorter := RemoveAt(children, i);
      assert shorter[..i] == children[..i] && shorter[i..] == children[i + 1..];
    } else {
      assert children[..i + 1] == children[..i] + [children[i]];
    }
  }

  /** The status of the first child in the list that has exited with a nonzero one. */
  function FirstFailure(children: seq<nat>, status: map<nat, int>): Option<int> {
    if children == [] then None
    else if children[0] in status && status[children[0]] != 0 then Some(status[children[0]])
    else FirstFailure(children[1..], status)
  }

  /** It is that of the first one, and there is none exactly if none has failed. */
  lemma {:induction false} FailureIsFirst(children: seq<nat>, status: map<nat, int>)
    ensures match FirstFailure(children, status)
      case Some(n) =>
        exists k :: 0 <= k < |children| && children[k] in status && status[children[k]] == n != 0
          && forall j :: 0 <= j < k && children[j] in status ==> status[children[j]] == 0
      case None => forall j :: 0 <= j < |children| && children[j] in status ==> status[children[j]] == 0
  {
    if children != [] {
      var c, later := children[0], children[1..];
      assert children == [c] + later;
      if c in status && status[c] != 0 {
        assert children[0] in status;
      } else {
        FailureIsFirst(later, status);
        if FirstFailure(later, status).Some? {
          var n := FirstFailure(later, status).value;
          var k :| 0 <= k < |later| && later[k] in status && status[later[k]] == n != 0
            && forall j :: 0 <= j < k && later[j] in status ==> status[later[j]] == 0;
          assert children[k + 1] in status;
        }
      }
    }
  }

  /** How a process ends, and the status that waitpid reports for it: an exit code is cut to its
      low byte and stored in the second byte, a signal is stored in the first. */
  datatype Ending = Exits(code: int) | Killed(signal: int, core: bool)

  predicate IsEnding(e: Ending) { e.Killed? ==> 1 <= e.signal <= 126 }

  function WaitStatus(e: Ending): int
    requires IsEnding(e)
  {
    match e
    case Exits(code) => code % 256 * 256
    case Killed(signal, core) => signal + if core then 128 else 0
  }

  /** grim_reaper exits with the raw status of the child that failed. What becomes of it one level
      up: an exit code is not seen any more, and a signal is seen as an exit code, once. */
  lemma {:induction false} FailureFades(e: Ending)
    requires IsEnding(e)
    ensures var parent := WaitStatus(Exits(WaitStatus(e)));
      && (parent == 0 <==> e.Exits?)
      && (e.Killed? ==> parent == WaitStatus(e) * 256)
      && WaitStatus(Exits(parent)) == 0
  {
  }

  /** So a process whose children end in nothing but exits of processes that have themselves given
      up on a failed child goes on as if none had failed. */
  lemma {:induction false} SecondHandFailureIsNotSeen(children: seq<nat>, status: map<nat, int>, cause: map<nat, Ending>)
    requires forall c :: c in status ==> c in cause && IsEnding(cause[c]) && cause[c].Exits?
    requires forall c :: c in status ==> status[c] == WaitStatus(Exits(WaitStatus(cause[c])))
    ensures FirstFailure(children, status) == None
  {
    if children != [] {
      if children[0] in status { FailureFades(cause[children[0]]); }
      SecondHandFailureIsNotSeen(children[1..], status, cause);
    }
  }

  lemma {:induction false} NoSurvivors(children: seq<nat>, exited: set<nat>)
    requires forall i :: 0 <= i < |children| ==> children[i] in exited
    ensures Survivors(children, exited) == []
  {
    if children != [] {
      NoSurvivors(children[1..], exited);
    }
  }

  class ProcessTable {
    var childProcesses: array<nat>
    var activeChildren: nat

    constructor (maxChildren: nat)
      ensures Valid() && Children() == [] && childProcesses.Length == maxChildren && fresh(childProcesses)
    {
      childProcesses := new nat[maxChildren];
      activeChildren := 0;
    }

    ghost predicate Valid()
      reads this
    {
      activeChildren <= childProcesses.Length
    }

    ghost function Children(): (c: seq<nat>)
      requires Valid()
      reads this, childProcesses
      ensures |c| == activeChildren
    {
      childProcesses[..activeChildren]
    }

    /** The parent's side of a fork. */
    method Record(child: nat)
      requires Valid() && activeChildren < childProcesses.Length
      modifies this`activeChildren, childProcesses
      ensures Valid() && Children() == old(Children()) + [child]
    {
      childProcesses[activeChildren] := child;
      activeChildren := activeChildren + 1;
    }

    /** Takes entry i out by moving the later ones up. */
    method Remove(i: nat)
      requires Valid() && i < activeChildren
      modifies this`activeChildren, childProcesses
      ensures Valid() && Children() == RemoveAt(old(Children()), i)
    {
      ghost var was := childProcesses[..];
      var j := i;
      while j < activeChildren - 1
        invariant i <= j <= activeChildren - 1 && activeChildren == old(activeChildren)
        invariant forall k :: 0 <= k < i || j <= k < childProcesses.Length ==> childProcesses[k] == was[k]
        invariant forall k :: i <= k < j ==> childProcesses[k] == was[k + 1]
      {
        childProcesses[j] := childProcesses[j + 1];
        j := j + 1;
      }
      activeChildren := activeChildren - 1;
    }

    /** Reaps the children that waitpid reports: those that have exited, or, when it may block,
        every child. A child that failed makes the whole process exit with the child's status.
        Otherwise returns the semaphore's value at the end, or 0 without a semaphore. */
    method GrimReaper(waitAll: bool, status: map<nat, int>, semaphore: Option<nat>)
      returns (available: nat, failure: Option<int>)
      requires Valid() && (waitAll ==> forall c :: c in Children() ==> c in status)
      modifies this`activeChildren, childProcesses
      ensures Valid()
      ensures failure == if semaphore.None? then None else FirstFailure(old(Children()), status)
      ensures semaphore.None? ==> available == 0 && Children() == old(Children())
      ensures semaphore.Some? && failure.None? ==>
        available == semaphore.value && Children() == Survivors(old(Children()), status.Keys)
      ensures semaphore.Some? && failure.None? && waitAll ==> Children() == []
    {
      available, failure := 0, None;
      if semaphore.Some? {
        ghost var was := Children();
        var i: nat := 0;
        assert was[0..] == was && Compacted(was, 0, status.Keys) == Survivors(was, status.Keys);
        while i < activeChildren
          invariant Valid() && i <= activeChildren
          invariant FirstFailure(Children()[i..], status) == FirstFailure(was, status)
          invariant Compacted(Children(), i, status.Keys) == Survivors(was, status.Keys)
          decreases activeChildren - i
        {
          ghost var list := Children();
          Round(list, i, status.Keys);
          var child := childProcesses[i];
          assert list[i..][0] == child && list[i..][1..] == list[i + 1..];
          if child in status {
            if status[child] != 0 {
              failure := Some(status[child]);
              return;
            }
            Remove(i);
            assert Children()[i..] == list[i + 1..];
          } else {
            i := i + 1;
          }
        }
        assert Children()[i..] == [] && Children()[..i] == Children();
        if waitAll { NoSurvivors(was, status.Keys); }
        available := semaphore.value;
      }
    }
  }

  function ExitedIn(s: State): set<nat> { set q: nat | q < |s.procs| && s.procs[q].pc.Exited? }

  function Polls(p: nat, n: nat): seq<Move> { seq(n, i => Move(p, false)) }

  /** What the remaining polls of process p will come to. */
  function Polled(s: State, p: nat): State
    requires p < |s.procs| && s.procs[p].pc.Poll? && s.procs[p].pc.i <= |s.procs[p].children|
  {
    var me := s.procs[p];
    var list := Compacted(me.children, me.pc.i, ExitedIn(s));
    Set(s, p, me.(children := list, pc := me.pc.(i := |list|)))
  }

  /** One poll does not change what all of them will come to. */
  lemma {:induction false} PollStep(max: nat, s: State, p: nat, s1: State)
    requires p < |s.procs| && s.procs[p].pc.Poll? && s.procs[p].pc.i < |s.procs[p].children|
    requires Next(max, s, Move(p, false)) == Some(s1)
    ensures s1.procs[p].pc.Poll? && s1.procs[p].pc.i <= |s1.procs[p].children|
    ensures |s1.procs[p].children| - s1.procs[p].pc.i == |s.procs[p].children| - s.procs[p].pc.i - 1
    ensures Polled(s1, p) == Polled(s, p)
  {
    assert ExitedIn(s1) == ExitedIn(s);
    Round(s.procs[p].children, s.procs[p].pc.i, ExitedIn(s));
    assert Polled(s, p).procs == Polled(s1, p).procs;
  }

  /** The polling steps of the protocol, when no other process moves in between, do to a
      process's list what the loop does to the array. */
  lemma {:induction false} PollingCompacts(max: nat, s: State, p: nat)
    requires p < |s.procs| && s.procs[p].pc.Poll? && s.procs[p].pc.i <= |s.procs[p].children|
    ensures After(max, s, Polls(p, |s.procs[p].children| - s.procs[p].pc.i)) == Some(Polled(s, p))
    decreases |s.procs[p].children| - s.procs[p].pc.i
  {
    var i, list := s.procs[p].pc.i, s.procs[p].children;
    if i < |list| {
      var s1 := Next(max, s, Move(p, false)).value;
      PollStep(max, s, p, s1);
      PollingCompacts(max, s1, p);
      var run := Polls(p, |list| - i);
      assert run[0] == Move(p, false) && run[1..] == Polls(p, |list| - i - 1);
    } else {
      assert list[i..] == [] && list[..i] + [] == list;
      assert Polled(s, p).procs == s.procs;
    }
  }
}
